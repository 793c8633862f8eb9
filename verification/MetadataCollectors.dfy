/**
  The two simpler metadata collectors: `library/src/core/metadata_manager.rs`, which
  checks the info hash, and `library/src/core/metadata_bootstrap.rs`, which joins its
  pieces in key order.  Request times are left out; SHA-1 is a parameter.
 */
module MetadataCollectors {
  import opened Wrappers
  import opened Bencode
  import opened Collections
  import opened MetadataPieces

  ghost predicate Bounds(pieces: Pieces, bound: nat) {
    forall p :: p in pieces ==> p < bound
  }

  lemma {:induction false} SomeBound(keys: set<nat>) returns (bound: nat)
    ensures forall p :: p in keys ==> p < bound
    decreases |keys|
  {
    if keys == {} {
      bound := 0;
    } else {
      var x :| x in keys;
      var rest := keys - {x};
      var b := SomeBound(rest);
      assert forall p :: p in keys ==> p == x || p in rest;
      bound := if x < b then b else x + 1;
    }
  }

  lemma {:induction false} EnoughPieces(pieces: Pieces, n: nat)
    requires forall p :: 0 <= p < n ==> p in pieces
    ensures |pieces| >= n
  {
    assert Below(n) <= pieces.Keys;
    SubsetSize(Below(n), pieces.Keys);
  }

  // ---------------------------------------------------------------- runs of deliveries

  /** One received piece message: its index and its bytes. */
  datatype Delivery = Delivery(piece: nat, data: Bytes)

  /** What is stored after the first n deliveries: a later one replaces an earlier one of the same piece. */
  function Collected(start: Pieces, deliveries: seq<Delivery>, n: nat): Pieces
    requires n <= |deliveries|
  {
    if n == 0 then start else Collected(start, deliveries, n - 1)[deliveries[n - 1].piece := deliveries[n - 1].data]
  }

  /** Delivery i is the last of its piece. */
  ghost predicate IsLast(deliveries: seq<Delivery>, n: nat, i: nat)
    requires n <= |deliveries|
  {
    i < n && forall j :: i < j < n ==> deliveries[j].piece != deliveries[i].piece
  }

  ghost predicate GenuineDelivery(d: Delivery, m: Bytes) {
    d.piece < PieceTotal(|m|) && d.data == Slice(m, d.piece)
  }

  lemma {:induction false} LastIsStored(deliveries: seq<Delivery>, n: nat, i: nat)
    requires n <= |deliveries| && IsLast(deliveries, n, i)
    ensures var pieces := Collected(map[], deliveries, n);
      deliveries[i].piece in pieces && pieces[deliveries[i].piece] == deliveries[i].data
  {
    if i < n - 1 {
      LastIsStored(deliveries, n - 1, i);
    }
  }

  lemma {:induction false} StoredIsLast(deliveries: seq<Delivery>, n: nat, p: nat) returns (i: nat)
    requires n <= |deliveries| && p in Collected(map[], deliveries, n)
    ensures IsLast(deliveries, n, i) && deliveries[i].piece == p
  {
    i := n - 1;
    if deliveries[i].piece != p {
      i := StoredIsLast(deliveries, n - 1, p);
    }
  }

  /** Only genuine slices are stored exactly if the last delivery of every piece is genuine. */
  lemma {:induction false} CollectedHonestExactly(deliveries: seq<Delivery>, m: Bytes)
    ensures var n := |deliveries|;
      Honest(Collected(map[], deliveries, n), m) <==> forall i :: 0 <= i < n && IsLast(deliveries, n, i) ==> GenuineDelivery(deliveries[i], m)
  {
    hide Slice, PieceTotal, Collected, IsLast;
    var n := |deliveries|;
    var pieces := Collected(map[], deliveries, n);
    forall i | 0 <= i < n && IsLast(deliveries, n, i)
      ensures deliveries[i].piece in pieces && pieces[deliveries[i].piece] == deliveries[i].data
    {
      LastIsStored(deliveries, n, i);
    }
    forall p | p in pieces
      ensures exists i :: 0 <= i < n && IsLast(deliveries, n, i) && deliveries[i].piece == p
    {
      var i := StoredIsLast(deliveries, n, p);
      assert 0 <= i < n by { LastInRange(deliveries, n, i); }
    }
  }

  lemma {:induction false} LastInRange(deliveries: seq<Delivery>, n: nat, i: nat)
    requires n <= |deliveries| && IsLast(deliveries, n, i)
    ensures i < n
  {
  }

  ghost predicate Delivered(deliveries: seq<Delivery>, n: nat, p: nat)
    requires n <= |deliveries|
  {
    exists i :: 0 <= i < n && deliveries[i].piece == p
  }

  /** A piece is stored exactly if it was delivered. */
  lemma {:induction false} CollectedKeys(deliveries: seq<Delivery>, n: nat, p: nat)
    requires n <= |deliveries|
    ensures p in Collected(map[], deliveries, n) <==> Delivered(deliveries, n, p)
  {
    if n > 0 {
      CollectedKeys(deliveries, n - 1, p);
    }
  }

  class MetadataManager {
    const infoHash: Bytes
    const sha1: Bytes -> Bytes
    var metadataSize: Option<nat>
    var metadataPieces: Pieces
    var requested: set<nat>
    var infoDictBytes: Option<Bytes>

    constructor (hash: Bytes, digest: Bytes -> Bytes)
      ensures infoHash == hash && sha1 == digest && metadataSize == None && metadataPieces == map[] && infoDictBytes == None
    {
      infoHash, sha1, metadataSize, metadataPieces, requested, infoDictBytes := hash, digest, None, map[], {}, None;
    }

    /** A genuine slice leaves only genuine slices. */
    method AddMetadataPiece(piece: nat, data: Bytes) returns (isNew: bool)
      modifies this`metadataPieces, this`requested
      ensures metadataPieces == old(metadataPieces)[piece := data] && requested == old(requested) - {piece}
      ensures isNew <==> piece !in old(metadataPieces)
      ensures forall m :: Honest(old(metadataPieces), m) && piece < PieceTotal(|m|) && data == Slice(m, piece) ==> Honest(metadataPieces, m)
    {
      hide Slice, PieceTotal;
      requested := requested - {piece};
      isNew := piece !in metadataPieces;
      metadataPieces := metadataPieces[piece := data];
    }

    method SetMetadataSize(size: nat)
      modifies this`metadataSize
      ensures metadataSize == Some(size)
    {
      metadataSize := Some(size);
    }

    method Receive(deliveries: seq<Delivery>)
      modifies this`metadataPieces, this`requested
      ensures metadataPieces == Collected(old(metadataPieces), deliveries, |deliveries|)
    {
      for i := 0 to |deliveries|
        invariant metadataPieces == Collected(old(metadataPieces), deliveries, i)
      {
        var _ := AddMetadataPiece(deliveries[i].piece, deliveries[i].data);
      }
    }

    /**
      `assemble_metadata`: once every expected piece is there, their bytes in order
      cut to the announced size, provided the hash is the torrent's.
     */
    method AssembleMetadata() returns (r: Option<Bytes>)
      modifies this`infoDictBytes
      ensures
        if metadataSize.Some? && forall p :: 0 <= p < PieceTotal(metadataSize.value) ==> p in metadataPieces then
          var bytes := Truncated(Joined(metadataPieces, PieceTotal(metadataSize.value)), metadataSize.value);
          r == if sha1(bytes) == infoHash then Some(bytes) else None
        else r == None
      ensures infoDictBytes == if r.Some? then r else old(infoDictBytes)
    {
      hide Joined, PieceTotal, Truncated;
      if metadataSize.None? {
        return None;
      }
      var size, n := metadataSize.value, PieceTotal(metadataSize.value);
      if |metadataPieces| < n {
        if forall p :: 0 <= p < n ==> p in metadataPieces {
          EnoughPieces(metadataPieces, n);
        }
        return None;
      }
      var buffer := JoinAll(metadataPieces, n);
      if buffer.None? {
        return None;
      }
      var bytes := Truncated(buffer.value, size);
      if sha1(bytes) == infoHash {
        infoDictBytes := Some(bytes);
        return Some(bytes);
      }
      return None;
    }
  }

  class MetadataBootstrap {
    var metadataSize: Option<nat>
    var metadataPieces: Pieces
    var requested: set<nat>
    var infoDictBytes: Option<Bytes>

    constructor ()
      ensures metadataSize == None && metadataPieces == map[] && infoDictBytes == None
    {
      metadataSize, metadataPieces, requested, infoDictBytes := None, map[], {}, None;
    }

    predicate IsComplete()
      reads this`metadataSize, this`metadataPieces
    {
      metadataSize.Some? && metadataSize.value > 0 && |metadataPieces| == PieceTotal(metadataSize.value)
    }

    method AddPiece(piece: nat, data: Bytes) returns (complete: bool)
      modifies this`metadataPieces, this`requested
      ensures metadataPieces == old(metadataPieces)[piece := data] && requested == old(requested) - {piece}
      ensures complete <==> IsComplete()
      ensures forall m :: Honest(old(metadataPieces), m) && piece < PieceTotal(|m|) && data == Slice(m, piece) ==> Honest(metadataPieces, m)
    {
      hide Slice, PieceTotal;
      metadataPieces := metadataPieces[piece := data];
      requested := requested - {piece};
      return IsComplete();
    }

    method SetMetadataSize(size: nat)
      modifies this`metadataSize
      ensures metadataSize == Some(size)
    {
      metadataSize := Some(size);
    }

    method Receive(deliveries: seq<Delivery>)
      modifies this`metadataPieces, this`requested
      ensures metadataPieces == Collected(old(metadataPieces), deliveries, |deliveries|)
    {
      for i := 0 to |deliveries|
        invariant metadataPieces == Collected(old(metadataPieces), deliveries, i)
      {
        var _ := AddPiece(deliveries[i].piece, deliveries[i].data);
      }
    }

    /** `assemble_info_dict`: once the count is right, all pieces in key order cut to the announced size. */
    method AssembleInfoDict() returns (r: Option<Bytes>)
      modifies this`infoDictBytes
      ensures r.Some? <==> IsComplete()
      ensures r.Some? ==> forall bound :: Bounds(metadataPieces, bound) ==>
        r.value == Truncated(Joined(metadataPieces, bound), metadataSize.value)
      ensures infoDictBytes == if r.Some? then r else old(infoDictBytes)
    {
      hide Joined, PieceTotal, Truncated;
      if !IsComplete() {
        return None;
      }
      ghost var some := SomeBound(metadataPieces.Keys);
      var buffer := JoinInKeyOrder(metadataPieces, some);
      forall bound | Bounds(metadataPieces, bound)
        ensures Joined(metadataPieces, bound) == buffer
      {
        if bound <= some {
          JoinedGap(metadataPieces, bound, some);
        } else {
          JoinedGap(metadataPieces, some, bound);
        }
      }
      buffer := Truncated(buffer, metadataSize.value);
      infoDictBytes := Some(buffer);
      return Some(buffer);
    }
  }

  /**
    With the size known and only genuine slices of non-empty metadata received,
    both collectors return the metadata exactly when every slice has arrived.
   */
  method Reassemble(m: Bytes, manager: MetadataManager, bootstrap: MetadataBootstrap) returns (a: Option<Bytes>, b: Option<Bytes>)
    requires m != "" && manager.sha1(m) == manager.infoHash
    requires manager.metadataSize == bootstrap.metadataSize == Some(|m|)
    requires Honest(manager.metadataPieces, m) && Honest(bootstrap.metadataPieces, m)
    modifies manager`infoDictBytes, bootstrap`infoDictBytes
    ensures a == if forall p :: 0 <= p < PieceTotal(|m|) ==> p in manager.metadataPieces then Some(m) else None
    ensures b == if forall p :: 0 <= p < PieceTotal(|m|) ==> p in bootstrap.metadataPieces then Some(m) else None
  {
    hide Slice, Joined, PieceTotal;
    assert m[..|m|] == m;
    a := manager.AssembleMetadata();
    if forall p :: 0 <= p < PieceTotal(|m|) ==> p in manager.metadataPieces {
      CountIsComplete(manager.metadataPieces, PieceTotal(|m|));
      CompleteIsWhole(manager.metadataPieces, m);
    }
    b := bootstrap.AssembleInfoDict();
    CountIsComplete(bootstrap.metadataPieces, PieceTotal(|m|));
    if bootstrap.IsComplete() {
      CompleteIsWhole(bootstrap.metadataPieces, m);
      assert Bounds(bootstrap.metadataPieces, PieceTotal(|m|));
    }
  }

  /**
    Fresh collectors fed any deliveries, repeated or reordered, in which the last
    one of every piece is genuine: both return the metadata exactly when every
    piece was delivered.
   */
  method CollectAndAssemble(m: Bytes, hash: Bytes, digest: Bytes -> Bytes, deliveries: seq<Delivery>) returns (a: Option<Bytes>, b: Option<Bytes>)
    requires m != "" && digest(m) == hash
    requires forall i :: 0 <= i < |deliveries| && IsLast(deliveries, |deliveries|, i) ==> GenuineDelivery(deliveries[i], m)
    ensures a == b == if forall p :: 0 <= p < PieceTotal(|m|) ==> Delivered(deliveries, |deliveries|, p)
                      then Some(m) else None
  {
    hide Honest, IsLast, GenuineDelivery, Delivered, Collected, PieceTotal;
    var manager := new MetadataManager(hash, digest);
    var bootstrap := new MetadataBootstrap();
    manager.SetMetadataSize(|m|);
    bootstrap.SetMetadataSize(|m|);
    manager.Receive(deliveries);
    bootstrap.Receive(deliveries);
    CollectedHonestExactly(deliveries, m);
    ghost var n, pieces := |deliveries|, Collected(map[], deliveries, |deliveries|);
    forall p: nat
      ensures p in pieces <==> Delivered(deliveries, n, p)
    {
      CollectedKeys(deliveries, n, p);
    }
    assert (forall p :: 0 <= p < PieceTotal(|m|) ==> p in pieces) <==> (forall p :: 0 <= p < PieceTotal(|m|) ==> Delivered(deliveries, n, p));
    a, b := Reassemble(m, manager, bootstrap);
    assert manager.metadataPieces == bootstrap.metadataPieces == pieces;
  }
}
