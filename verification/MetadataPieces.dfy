/**
  Metadata exchange (BEP 9) as byte strings: the 16 KiB slices the serving side of
  `library/src/network/peer.rs` cuts, and how they join up again.
 */
module MetadataPieces {
  import opened Wrappers
  import opened Collections
  import opened Bencode
  import opened Manifests

  const PIECE_SIZE: nat := 16384

  type Pieces = map<nat, Bytes>

  function PieceTotal(size: nat): nat {
    (size + PIECE_SIZE - 1) / PIECE_SIZE
  }

  /** The slice of the metadata a peer serves for piece p. */
  function Slice(m: Bytes, p: nat): Bytes {
    var offset := p * PIECE_SIZE;
    if offset >= |m| then "" else m[offset..if offset + PIECE_SIZE <= |m| then offset + PIECE_SIZE else |m|]
  }

  /** Only genuine slices have been received. */
  ghost predicate Honest(pieces: Pieces, m: Bytes) {
    forall p :: p in pieces ==> p < PieceTotal(|m|) && pieces[p] == Slice(m, p)
  }

  /** The pieces below k in order; missing ones are skipped. */
  function Joined(pieces: Pieces, k: nat): Bytes {
    if k == 0 then "" else Joined(pieces, k - 1) + if k - 1 in pieces then pieces[k - 1] else ""
  }

  /** The pieces from k on, up to the first missing one. */
  function Leading(pieces: Pieces, k: nat): Bytes
    decreases |set p | p in pieces && p >= k|
  {
    if k in pieces then
      FewerAhead(pieces, k);
      pieces[k] + Leading(pieces, k + 1)
    else ""
  }

  lemma {:induction false} FewerAhead(pieces: Pieces, k: nat)
    requires k in pieces
    ensures |set p | p in pieces && p >= k + 1| < |set p | p in pieces && p >= k|
  {
    assert (set p | p in pieces && p >= k) == (set p | p in pieces && p >= k + 1) + {k};
  }

  function Below(n: nat): (r: set<nat>)
    ensures forall p: nat :: p in r <==> p < n
    ensures |r| == n
  {
    if n == 0 then {} else Below(n - 1) + {n - 1}
  }

  /** Counting the received pieces tells whether all of them are there. */
  lemma {:induction false} CountIsComplete(pieces: Pieces, n: nat)
    requires forall p :: p in pieces ==> p < n
    ensures |pieces| <= n
    ensures |pieces| == n <==> forall p :: 0 <= p < n ==> p in pieces
  {
    var keys := pieces.Keys;
    assert keys <= Below(n) && |keys| == |pieces|;
    SubsetSize(keys, Below(n));
    if forall p :: 0 <= p < n ==> p in pieces {
      assert keys == Below(n);
    }
  }

  // ---------------------------------------------------------------- slices cover the metadata

  function End(m: Bytes, k: nat): (r: nat)
    ensures r <= |m|
  {
    if k * PIECE_SIZE <= |m| then k * PIECE_SIZE else |m|
  }

  lemma {:induction false} SliceExtends(m: Bytes, k: nat)
    ensures m[..End(m, k)] + Slice(m, k) == m[..End(m, k + 1)]
  {
  }

  lemma {:induction false} AllSlices(m: Bytes)
    ensures End(m, PieceTotal(|m|)) == |m|
  {
  }

  /** Genuine pieces without a gap below k are the beginning of the metadata. */
  lemma {:induction false} JoinedIsPrefix(pieces: Pieces, m: Bytes, k: nat)
    requires Honest(pieces, m) && forall p :: 0 <= p < k ==> p in pieces
    ensures Joined(pieces, k) == m[..End(m, k)]
  {
    hide Slice, End;
    if k == 0 {
      assert End(m, 0) == 0 by { EmptyEnd(m); }
    } else {
      JoinedIsPrefix(pieces, m, k - 1);
      SliceExtends(m, k - 1);
    }
  }

  lemma {:induction false} EmptyEnd(m: Bytes)
    ensures End(m, 0) == 0
  {
  }

  /** The leading pieces of genuine metadata are one of its prefixes. */
  lemma {:induction false} LeadingIsPrefix(pieces: Pieces, m: Bytes, k: nat)
    requires Honest(pieces, m)
    ensures m[..End(m, k)] + Leading(pieces, k) <= m
    decreases |set p | p in pieces && p >= k|
  {
    hide Slice, End;
    if k in pieces {
      FewerAhead(pieces, k);
      SliceExtends(m, k);
      LeadingIsPrefix(pieces, m, k + 1);
      assert m[..End(m, k)] + (Slice(m, k) + Leading(pieces, k + 1)) == m[..End(m, k)] + Slice(m, k) + Leading(pieces, k + 1);
    }
  }

  /** All genuine pieces together are the metadata. */
  lemma {:induction false} CompleteIsWhole(pieces: Pieces, m: Bytes)
    requires Honest(pieces, m) && |pieces| == PieceTotal(|m|)
    ensures forall p :: 0 <= p < PieceTotal(|m|) ==> p in pieces
    ensures Joined(pieces, PieceTotal(|m|)) == m
  {
    hide Slice, End;
    CountIsComplete(pieces, PieceTotal(|m|));
    JoinedIsPrefix(pieces, m, PieceTotal(|m|));
    AllSlices(m);
    assert m[..|m|] == m;
  }

  function Truncated(s: Bytes, size: nat): Bytes {
    if size <= |s| then s[..size] else s
  }

  /** Nothing before every expected piece is there and no other, then all of them in order, cut to the announced size. */
  function Assembled(pieces: Pieces, size: nat): Option<Bytes> {
    var n := PieceTotal(size);
    if |pieces| == n && forall p :: 0 <= p < n ==> p in pieces then Some(Truncated(Joined(pieces, n), size)) else None
  }

  /** Genuine slices give back the metadata exactly when all of them have arrived. */
  lemma {:induction false} AssembledExactly(pieces: Pieces, m: Bytes)
    requires Honest(pieces, m)
    ensures Assembled(pieces, |m|) == if forall p :: 0 <= p < PieceTotal(|m|) ==> p in pieces then Some(m) else None
  {
    hide Slice, Joined, PieceTotal;
    CountIsComplete(pieces, PieceTotal(|m|));
    if |pieces| == PieceTotal(|m|) {
      CompleteIsWhole(pieces, m);
      assert m[..|m|] == m;
    }
  }

  /** A dictionary whose descriptive keys come before its piece length, as in every sorted one. */
  ghost predicate Settled(m: Bytes) {
    Decode(m).Some? && Decode(m).value.Dictionary? && NoLateKeys(Decode(m).value.entries)
  }

  /** An early manifest taken from leading genuine pieces is the final one. */
  lemma {:induction false} EarlyManifestIsFinal(pieces: Pieces, m: Bytes)
    requires Honest(pieces, m) && Settled(m)
    ensures Parsed(Leading(pieces, 0)).Some? ==> Parsed(Leading(pieces, 0)) == Parsed(m)
  {
    hide Leading, Parsed, NoLateKeys, Decode;
    LeadingIsPrefix(pieces, m, 0);
    var q := Leading(pieces, 0);
    assert m[..End(m, 0)] + q == q;
    assert q == m[..|q|];
    PrefixManifest(m, Decode(m).value.entries, |q|);
  }

  // ---------------------------------------------------------------- joining in the program

  /** Appends pieces 0 to n in order; `None` at the first one missing. */
  method JoinAll(pieces: Pieces, n: nat) returns (r: Option<Bytes>)
    ensures r == if forall p :: 0 <= p < n ==> p in pieces then Some(Joined(pieces, n)) else None
  {
    var buffer := "";
    for p := 0 to n
      invariant forall q :: 0 <= q < p ==> q in pieces
      invariant buffer == Joined(pieces, p)
    {
      if p !in pieces {
        return None;
      }
      buffer := buffer + pieces[p];
    }
    return Some(buffer);
  }

  /** Appends the leading pieces up to the first one missing. */
  method JoinLeading(pieces: Pieces) returns (prefix: Bytes)
    ensures prefix == Leading(pieces, 0)
  {
    prefix := "";
    var p := 0;
    while p in pieces
      invariant prefix + Leading(pieces, p) == Leading(pieces, 0)
      decreases |set q | q in pieces && q >= p|
    {
      FewerAhead(pieces, p);
      assert prefix + (pieces[p] + Leading(pieces, p + 1)) == prefix + pieces[p] + Leading(pieces, p + 1);
      prefix := prefix + pieces[p];
      p := p + 1;
    }
  }

  /** The least key. */
  method LeastKey(keys: set<nat>) returns (k: nat)
    requires keys != {}
    ensures k in keys && forall j :: j in keys ==> k <= j
  {
    k :| k in keys;
    var rest := keys - {k};
    while rest != {}
      invariant k in keys && rest <= keys && forall j :: j in keys && j !in rest ==> k <= j
      decreases |rest|
    {
      var j :| j in rest;
      rest := rest - {j};
      k := if j < k then j else k;
    }
  }

  lemma {:induction false} JoinedGap(pieces: Pieces, a: nat, b: nat)
    requires a <= b && forall p :: a <= p < b ==> p !in pieces
    ensures Joined(pieces, b) == Joined(pieces, a)
  {
    if a < b {
      JoinedGap(pieces, a, b - 1);
    }
  }

  /** Appends every piece in key order, as iterating over an ordered map does. */
  method JoinInKeyOrder(pieces: Pieces, ghost bound: nat) returns (buffer: Bytes)
    requires forall p :: p in pieces ==> p < bound
    ensures buffer == Joined(pieces, bound)
  {
    buffer := "";
    var keys := pieces.Keys;
    ghost var done: nat := 0;
    while keys != {}
      invariant keys <= pieces.Keys && done <= bound && buffer == Joined(pieces, done)
      invariant forall p :: p in pieces ==> (p in keys <==> p >= done)
      decreases |keys|
    {
      var k := LeastKey(keys);
      JoinedGap(pieces, done, k);
      buffer := buffer + pieces[k];
      done := k + 1;
      keys := keys - {k};
    }
    JoinedGap(pieces, done, bound);
  }
}
