/** Block storage as a byte map, and which pieces it holds. */
module PieceStorage {
  import opened Wrappers
  import opened PowersOfTwo

  type Bytes = seq<bv8>
  type Storage = map<nat, bv8>

  /** Reads `len` bytes at `off`; fails if any of them was never written. */
  function Read(s: Storage, off: nat, len: nat): (r: Option<Bytes>)
    ensures r.Some? ==> |r.value| == len
    decreases len
  {
    if len == 0 then Some([])
    else if off !in s then None
    else
      match Read(s, off + 1, len - 1)
      case None => None
      case Some(rest) => Some([s[off]] + rest)
  }

  function Write(s: Storage, off: nat, data: Bytes): (r: Storage)
    ensures forall k :: off <= k < off + |data| ==> k in r && r[k] == data[k - off]
    ensures SameOutside(s, r, off, off + |data|)
    decreases |data|
  {
    if data == [] then s else Write(s[off := data[0]], off + 1, data[1..])
  }

  /** Where a piece begins in storage. */
  function PieceStart(p: nat, pieceLength: nat): nat {
    p * pieceLength
  }

  /** The two storages differ at most inside [lo, hi). */
  ghost predicate SameOutside(s: Storage, t: Storage, lo: nat, hi: nat) {
    forall k: nat :: !(lo <= k < hi) ==> (k in s <==> k in t) && (k in s ==> s[k] == t[k])
  }

  /** `discard_range`: afterwards the range may read as anything. */
  function Discard(s: Storage, off: nat, len: nat, found: Storage): (r: Storage)
    ensures SameOutside(s, r, off, off + len)
  {
    (map k | k in s && !(off <= k < off + len) :: s[k]) + (map k | k in found && off <= k < off + len :: found[k])
  }

  /** Two changes inside a range are one change inside it. */
  lemma {:induction false} SameOutsideChain(s: Storage, t: Storage, u: Storage, lo: nat, hi: nat, a: nat, b: nat)
    requires SameOutside(s, t, lo, hi) && SameOutside(t, u, a, b)
    ensures a <= lo && hi <= b ==> SameOutside(s, u, a, b)
  {
  }

  lemma {:induction false} WriteStaysInside(s: Storage, off: nat, data: Bytes, len: nat)
    requires |data| <= len
    ensures SameOutside(s, Write(s, off, data), off, off + len)
  {
  }

  lemma {:induction false} SameOutsideSelf(s: Storage)
    ensures forall x: nat, y: nat :: SameOutside(s, s, x, y)
  {
  }

  lemma {:induction false} ReadUntouched(s: Storage, t: Storage, lo: nat, hi: nat, off: nat, len: nat)
    requires SameOutside(s, t, lo, hi)
    requires off + len <= lo || hi <= off
    ensures Read(t, off, len) == Read(s, off, len)
    decreases len
  {
    if len > 0 {
      ReadUntouched(s, t, lo, hi, off + 1, len - 1);
    }
  }

  /** Reading in two parts. */
  lemma {:induction false} ReadSplit(s: Storage, off: nat, a: nat, b: nat)
    ensures Read(s, off, a + b) ==
      (if Read(s, off, a).Some? && Read(s, off + a, b).Some?
       then Some(Read(s, off, a).value + Read(s, off + a, b).value) else None)
    decreases a
  {
    if a == 0 {
      assert Read(s, off, b).Some? ==> [] + Read(s, off, b).value == Read(s, off, b).value;
    } else {
      ReadSplit(s, off + 1, a - 1, b);
      assert off + 1 + (a - 1) == off + a;
      assert a + b - 1 == a - 1 + b;
      if off in s && Read(s, off + 1, a - 1).Some? && Read(s, off + a, b).Some? {
        assert [s[off]] + (Read(s, off + 1, a - 1).value + Read(s, off + a, b).value)
            == ([s[off]] + Read(s, off + 1, a - 1).value) + Read(s, off + a, b).value;
      }
    }
  }

  /** Pieces of at most `pieceLength` bytes at multiples of it do not overlap. */
  lemma {:induction false} PiecesDisjoint(p: nat, q: nat, pieceLength: nat, a: nat, b: nat)
    requires p != q && a <= pieceLength && b <= pieceLength
    ensures PieceStart(p, pieceLength) + a <= PieceStart(q, pieceLength) || PieceStart(q, pieceLength) + b <= PieceStart(p, pieceLength)
  {
    MulGap(pieceLength, p, q);
    MulGap(pieceLength, q, p);
  }

  /** Reads a range block by block, giving up at the first short read. */
  method ReadInBlocks(s: Storage, start: nat, length: nat, blockSize: nat) returns (r: Option<Bytes>)
    requires blockSize > 0
    ensures r == Read(s, start, length)
  {
    var done := 0;
    var bytes: Bytes := [];
    while done < length
      invariant done <= length
      invariant Read(s, start, done) == Some(bytes)
    {
      var toRead := if length - done < blockSize then length - done else blockSize;
      var block := Read(s, start + done, toRead);
      ReadSplit(s, start, done, toRead);
      if block.None? {
        ReadSplit(s, start, done + toRead, length - done - toRead);
        assert done + toRead + (length - done - toRead) == length;
        return None;
      }
      bytes := bytes + block.value;
      done := done + toRead;
    }
    return Some(bytes);
  }
}
