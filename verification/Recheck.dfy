/**
  Piece lengths and the recheck of data already on disk:
  `create_torrent_bitfield_parallel` of `library/src/storage/disk_io.rs`.
 */
module Rechecking {
  import opened PowersOfTwo
  import opened Bitfields
  import opened PieceStorage

  /** The length a recheck records for piece p of n: what is left of the torrent for the last one. */
  function RecheckedLength(n: nat, pieceLength: nat, total: nat, p: nat): (r: nat)
    requires pieceLength > 0
    ensures 0 < r <= pieceLength
  {
    if p + 1 == n && total % pieceLength != 0 then total % pieceLength else pieceLength
  }

  function RecheckedLengths(n: nat, pieceLength: nat, total: nat, m: nat): (r: seq<nat>)
    requires pieceLength > 0
    ensures |r| == m && forall p :: 0 <= p < m ==> r[p] == RecheckedLength(n, pieceLength, total, p)
  {
    if m == 0 then [] else RecheckedLengths(n, pieceLength, total, m - 1) + [RecheckedLength(n, pieceLength, total, m - 1)]
  }

  /** n pieces are just enough for the torrent. */
  ghost predicate PieceCountFits(n: nat, pieceLength: nat, total: nat) {
    n >= 1 && PieceStart(n - 1, pieceLength) < total <= PieceStart(n, pieceLength)
  }

  /** The pieces tile the torrent: each starts where the one before ends, and the last ends at its size. */
  lemma {:induction false} PiecesTile(n: nat, pieceLength: nat, total: nat, p: nat)
    requires pieceLength > 0 && PieceCountFits(n, pieceLength, total) && p < n
    ensures PieceStart(p, pieceLength) + RecheckedLength(n, pieceLength, total, p)
         == if p + 1 == n then total else PieceStart(p + 1, pieceLength)
  {
    NextStart(p, pieceLength);
    hide PieceStart;
    if p + 1 == n {
      LastLength(p, pieceLength, total);
    }
  }

  lemma {:induction false} NextStart(p: nat, pieceLength: nat)
    ensures PieceStart(p + 1, pieceLength) == PieceStart(p, pieceLength) + pieceLength
  {
    MulDistributes(pieceLength, p, 1);
  }

  /** What is left of the torrent after the first p pieces. */
  lemma {:induction false} LastLength(p: nat, pieceLength: nat, total: nat)
    requires pieceLength > 0 && PieceStart(p, pieceLength) < total <= PieceStart(p, pieceLength) + pieceLength
    ensures total == PieceStart(p, pieceLength) + if total % pieceLength == 0 then pieceLength else total % pieceLength
  {
    var rest := total - PieceStart(p, pieceLength);
    if rest == pieceLength {
      NextStart(p, pieceLength);
      RemainderUnique(total, pieceLength, p + 1, 0);
    } else {
      RemainderUnique(total, pieceLength, p, rest);
    }
  }

  /** The bytes of local pieces below m never pass the end of piece m - 1, and reach it exactly if all are local. */
  lemma {:induction false} LocalBytesBelow(bits: Bits, n: nat, pieceLength: nat, total: nat, m: nat)
    requires pieceLength > 0 && PieceCountFits(n, pieceLength, total) && m <= n
    ensures
      var sum := SumBits(bits, RecheckedLengths(n, pieceLength, total, n), m);
      var end := if m == n then total else PieceStart(m, pieceLength);
      sum <= end && (sum == end <==> forall p :: 0 <= p < m ==> Get(bits, p))
  {
    hide Get, PieceCountFits, PieceStart, RecheckedLength, RecheckedLengths;
    if m == 0 {
      FirstPieceStart(n, pieceLength, total);
    } else {
      LocalBytesBelow(bits, n, pieceLength, total, m - 1);
      PiecesTile(n, pieceLength, total, m - 1);
    }
  }

  lemma {:induction false} FirstPieceStart(n: nat, pieceLength: nat, total: nat)
    requires PieceCountFits(n, pieceLength, total)
    ensures n >= 1 && PieceStart(0, pieceLength) == 0
  {
  }

  /** Downloaded bytes never exceed the torrent's size and equal it exactly when every piece is local. */
  lemma {:induction false} DownloadedAllExactly(bits: Bits, n: nat, pieceLength: nat, total: nat)
    requires pieceLength > 0 && PieceCountFits(n, pieceLength, total)
    ensures
      var sum := SumBits(bits, RecheckedLengths(n, pieceLength, total, n), n);
      sum <= total && (sum == total <==> forall p :: 0 <= p < n ==> Get(bits, p))
  {
    LocalBytesBelow(bits, n, pieceLength, total, n);
  }

  /** Missing bits and counters once the first m pieces are tallied. */
  ghost predicate Tallied(scanned: Bits, lengths: seq<nat>, m: nat, missing: Bits, downloaded: nat, missingCount: nat) {
    && m <= |lengths| && |missing| == |scanned|
    && (forall p: nat :: Get(missing, p) <==> p < m && !Get(scanned, p))
    && downloaded == SumBits(scanned, lengths, m)
    && missingCount == CountBits(missing, 8 * |missing|)
    && missingCount + CountBits(scanned, m) == m
  }

  lemma {:induction false} TallyNone(scanned: Bits, lengths: seq<nat>)
    ensures Tallied(scanned, lengths, 0, Filled(|scanned|, 0), 0, 0)
  {
    EmptyCounts(|scanned|, lengths, 0, 8 * |scanned|);
  }

  lemma {:induction false} TallyStep(scanned: Bits, lengths: seq<nat>, m: nat, missing: Bits, downloaded: nat, missingCount: nat)
    requires Tallied(scanned, lengths, m, missing, downloaded, missingCount) && m < |lengths| && m / 8 < |scanned|
    ensures
      if Get(scanned, m) then Tallied(scanned, lengths, m + 1, missing, downloaded + lengths[m], missingCount)
      else Tallied(scanned, lengths, m + 1, Put(missing, m, true), downloaded, missingCount + 1)
  {
    hide Get, Put;
    CountPut(missing, m, true, 8 * |missing|);
    forall p: nat
      ensures Get(Put(missing, m, true), p) <==> p == m || Get(missing, p)
    {
      GetPut(missing, m, true, p);
    }
  }

  /** The tally after a recheck: missing bits, downloaded bytes and the number of missing pieces. */
  method TallyPieces(scanned: Bits, n: nat, pieceLength: nat, total: nat)
      returns (lengths: seq<nat>, missing: Bits, downloaded: nat, missingCount: nat)
    requires pieceLength > 0 && |scanned| == ByteCount(n)
    ensures lengths == RecheckedLengths(n, pieceLength, total, n)
    ensures Tallied(scanned, lengths, n, missing, downloaded, missingCount)
  {
    hide Tallied, Get, Put;
    ghost var all := RecheckedLengths(n, pieceLength, total, n);
    lengths, missing, downloaded, missingCount := [], Filled(|scanned|, 0), 0, 0;
    TallyNone(scanned, all);
    for p := 0 to n
      invariant lengths == RecheckedLengths(n, pieceLength, total, p)
      invariant Tallied(scanned, all, p, missing, downloaded, missingCount)
    {
      var length := RecheckedLength(n, pieceLength, total, p);
      TallyStep(scanned, all, p, missing, downloaded, missingCount);
      lengths := lengths + [length];
      if Get(scanned, p) {
        downloaded := downloaded + length;
      } else {
        missing := Put(missing, p, true);
        missingCount := missingCount + 1;
      }
    }
  }
}
