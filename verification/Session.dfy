/** Whole sessions: creation, recheck of what is on disk, and everything that happens afterwards. */
module Sessions {
  import opened Wrappers
  import opened Sizes
  import opened Bitfields
  import opened FileSelection
  import opened Scheduling
  import opened PieceStorage
  import opened Arrivals
  import opened Rechecking
  import opened Availability
  import opened TorrentContexts

  /**
    A session from its creation through any run.  Bytes downloaded never exceed
    the torrent and equal it exactly when every piece is local.  With synchronous
    verification every local piece is good in storage and the heap knows every
    wanted piece.  Peer counts are exact if the run is fair and nobody had three
    strikes.
   */
  method RunSession(n: nat, pieceLen: nat, total: nat, hashes: Bytes, digest: Sha1, files: seq<FileDetails>, async: bool, endgame: bool,
                    stored: Storage, scanned: Bits, events: seq<Event>) returns (c: TorrentContext, readmitted: set<nat>)
    requires HASH_LENGTH * n <= |hashes| && pieceLen > 0 && PieceCountFits(n, pieceLen, total) && |scanned| == ByteCount(n)
    requires AllGood(digest, hashes, pieceLen, stored, scanned, RecheckedLengths(n, pieceLen, total, n))
    ensures c.Valid() && c.numberOfPieces == n && BitsGrow(scanned, c.bitfield)
    ensures c.totalDownloaded <= total && (c.totalDownloaded == total <==> forall p :: 0 <= p < n ==> c.IsPieceLocal(p))
    ensures c.LostPieces() <= readmitted && (!async || (forall e :: e in events ==> !FailsLate(e)) ==> readmitted == {})
    ensures readmitted <= BlockPieces(events, n, |events|)
    ensures !async ==> AllGood(digest, hashes, pieceLen, c.storage, c.bitfield, RecheckedLengths(n, pieceLen, total, n))
    ensures Fair(events) && NobodyOut(c.badScores) ==> Exact(c.swarm, c.peerCount)
  {
    hide *;
    c := StartSession(n, pieceLen, total, hashes, digest, files, async, endgame, stored, scanned);
    NobodySilent(n);
    NoSuspects();
    readmitted := c.Run(events);
    SessionTotals(c);
    SessionBytes(c, n, pieceLen, total);
  }

  /** A session right after the recheck. */
  method StartSession(n: nat, pieceLen: nat, total: nat, hashes: Bytes, digest: Sha1, files: seq<FileDetails>, async: bool, endgame: bool,
                      stored: Storage, scanned: Bits) returns (c: TorrentContext)
    requires HASH_LENGTH * n <= |hashes| && pieceLen > 0 && |scanned| == ByteCount(n)
    requires AllGood(digest, hashes, pieceLen, stored, scanned, RecheckedLengths(n, pieceLen, total, n))
    ensures fresh(c) && c.Valid() && c.orderly && c.swarm == map[] && c.verifying == {} && c.jobs == [] && c.buffers == map[] && c.LostPieces() == {}
    ensures c.numberOfPieces == n && c.pieceLength == pieceLen && c.piecesInfoHash == hashes && c.sha1 == digest
    ensures c.asyncVerification == async && c.adaptiveEndgame == endgame
    ensures c.bitfield == scanned && c.storage == stored && c.lengthOf == RecheckedLengths(n, pieceLen, total, n)
  {
    hide TorrentContext.Valid, TorrentContext.LostPieces, AllGood, RecheckedLengths, Tallied, Get;
    c := new TorrentContext(n, pieceLen, total, hashes, digest, files, async, endgame, stored);
    ghost var before := c.bitfield;
    forall p: nat
      ensures !Get(before, p)
    {
      assert !c.IsPieceLocal(p);
    }
    c.RecheckPieces(scanned);
    assert Dropped(n, before, scanned) == {};
  }

  /**
    A synchronous session without adaptive endgame that receives only genuine
    blocks of the torrent's bytes, in any order, repeated and mixed with any other
    events.  At the end a piece is local exactly if the recheck found it or all its
    blocks were delivered, so when all blocks were delivered the download is complete.
   */
  method DownloadSession(n: nat, pieceLen: nat, total: nat, hashes: Bytes, digest: Sha1, files: seq<FileDetails>,
                         stored: Storage, scanned: Bits, ghost content: Bytes, events: seq<Event>) returns (c: TorrentContext)
    requires HASH_LENGTH * n <= |hashes| && 0 < pieceLen < U32_SIZE && PieceCountFits(n, pieceLen, total) && |scanned| == ByteCount(n)
    requires AllGood(digest, hashes, pieceLen, stored, scanned, RecheckedLengths(n, pieceLen, total, n))
    requires Describes(Layout(digest, hashes, pieceLen, RecheckedLengths(n, pieceLen, total, n)), content)
    requires forall k :: 0 <= k < |events| ==>
      Genuine(Layout(digest, hashes, pieceLen, RecheckedLengths(n, pieceLen, total, n)), content, events[k])
    ensures
      var l := Layout(digest, hashes, pieceLen, RecheckedLengths(n, pieceLen, total, n));
      var done := Deliveries(events, |events|);
      && (forall p :: 0 <= p < n ==> (c.IsPieceLocal(p) <==> Get(scanned, p) || AllDone(l, done, p)))
      && ((forall p :: 0 <= p < n ==> AllDone(l, done, p)) ==> c.totalDownloaded == total)
  {
    hide *;
    ghost var l := Layout(digest, hashes, pieceLen, RecheckedLengths(n, pieceLen, total, n));
    c := StartSession(n, pieceLen, total, hashes, digest, files, false, false, stored, scanned);
    ghost var d := c.DiskNow();
    StartDisk(c, l);
    RunIsSmooth(l, content, events);
    ProgressStarts(l, content, d);
    GenuineRun(l, content, d, events, |events|);
    var _ := c.Run(events);
    SessionTotals(c);
    SessionBytes(c, n, pieceLen, total);
    DownloadedExactly(c, l, content, scanned, Deliveries(events, |events|));
  }

  lemma {:induction false} StartDisk(c: TorrentContext, l: Layout)
    requires c.Valid() && c.buffers == map[] && l == Layout(c.sha1, c.piecesInfoHash, c.pieceLength, c.lengthOf)
    ensures c.LayoutNow() == l && c.DiskNow().bits == c.bitfield && c.DiskNow().buffers == map[] && BuffersFit(l, c.buffers)
    ensures |c.bitfield| == ByteCount(|l.lengths|)
  {
  }

  lemma {:induction false} RunIsSmooth(l: Layout, content: Bytes, events: seq<Event>)
    requires Describes(l, content) && forall k :: 0 <= k < |events| ==> Genuine(l, content, events[k])
    ensures forall e :: e in events ==> Smooth(l, e)
  {
    hide BlockCount;
  }

  lemma {:induction false} DownloadedExactly(c: TorrentContext, l: Layout, content: Bytes, first: Bits, done: set<(nat, nat)>)
    requires Describes(l, content) && Progress(l, content, first, done, c.DiskNow())
    ensures forall p :: 0 <= p < |l.lengths| ==> (c.IsPieceLocal(p) <==> Get(first, p) || AllDone(l, done, p))
  {
    hide Progress, AllDone, Get, Describes;
    forall p | 0 <= p < |l.lengths|
      ensures c.IsPieceLocal(p) <==> Get(first, p) || AllDone(l, done, p)
    {
      LocalExactly(l, content, first, done, c.DiskNow(), p);
    }
  }

  lemma {:induction false} NoSuspects()
    ensures Suspects({}, []) == {}
  {
  }

  lemma {:induction false} NobodySilent(n: nat)
    ensures Silent(map[], {}, n)
  {
  }

  lemma {:induction false} SessionBytes(c: TorrentContext, n: nat, pieceLen: nat, total: nat)
    requires pieceLen > 0 && PieceCountFits(n, pieceLen, total) && c.lengthOf == RecheckedLengths(n, pieceLen, total, n)
    requires c.totalDownloaded == SumBits(c.bitfield, c.lengthOf, n)
    ensures c.totalDownloaded <= total && (c.totalDownloaded == total <==> forall p :: 0 <= p < n ==> c.IsPieceLocal(p))
  {
    hide PieceCountFits, RecheckedLengths, SumBits, Get;
    DownloadedAllExactly(c.bitfield, n, pieceLen, total);
    assert forall p :: 0 <= p < n ==> (c.IsPieceLocal(p) <==> Get(c.bitfield, p));
  }

  lemma {:induction false} SessionTotals(c: TorrentContext)
    requires c.Valid()
    ensures |c.lengthOf| == c.numberOfPieces && c.totalDownloaded == SumBits(c.bitfield, c.lengthOf, c.numberOfPieces)
    ensures !c.asyncVerification ==> AllGood(c.sha1, c.piecesInfoHash, c.pieceLength, c.storage, c.bitfield, c.lengthOf)
  {
  }

  /**
    Agreement of heap and scan is lost with background verification.  The only
    piece arrives, a query runs while it is being verified and throws its entry
    away, the verification fails: the scan offers the piece again, the heap does not.
   */
  method FailedPieceVanishes() returns (scanned: Option<nat>, picked: Option<nat>)
    ensures scanned == Some(0) && picked == None
  {
    hide TorrentContext.Valid, TorrentContext.View, TorrentContext.LostPieces, Get, Put, BlameAll, Discard, PieceStart,
         IsFirstLive, IsRarest, CleanedUpTo, Counted, Exact;
    var c := OnlyPieceArrives();
    var seed := Peer([], true);
    ghost var b := c.View();
    OnlyPieceBoard(c);
    var nothing := c.PopRarestPiece(seed);
    NothingEligible(b, Offers(1, seed), nothing, c.pq);
    c.ApplyVerificationResult(0, false, map[]);
    OnlyPieceBoard(c);
    scanned := c.ScanRarestPiece(seed);
    b := c.View();
    picked := c.PopRarestPiece(seed);
    EmptyHeapMisses(b, Offers(1, seed), scanned, picked);
  }

  /** A session of one one-byte piece, whose byte has arrived and waits for its verdict. */
  method OnlyPieceArrives() returns (c: TorrentContext)
    ensures fresh(c) && c.Valid() && OnlyPiece(c)
    ensures c.verifying == {0} && |c.jobs| == 1 && c.jobs[0].piece == 0
  {
    hide TorrentContext.Valid, TorrentContext.LostPieces, StoredGood, Exact, BlameAll, SameOutside, Write, PieceStart, AllGood;
    c := new TorrentContext(1, 1, 1, seq(20, _ => 0), (_: Bytes) => [], [], true, false, map[]);
    assert SourcesWith(map[], 0, 1, 0, "peer") == [Some("peer")];
    var _ := c.ProcessPieceBlock(0, 0, [7], "peer", Environment(true, true, 1, true, map[]));
  }

  ghost predicate OnlyPiece(c: TorrentContext)
    reads c`files, c`bitfield, c`peerCount
  {
    && c.numberOfPieces == 1 && c.files == [] && c.peerCount == [0]
    && !c.IsPieceLocal(0)
  }

  lemma {:induction false} OnlyPieceBoard(c: TorrentContext)
    requires OnlyPiece(c) && c.Valid()
    ensures HeapFits(c.numberOfPieces, c.peerCount, c.pq) && c.View().WellFormed() && c.View().count == [0] && c.View().heap == c.pq
    ensures c.View().eligible == if 0 in c.verifying then {} else {0}
    ensures forall p :: 0 <= p < 1 ==> c.peerCount[p] < USIZE_MAX
  {
  }

  lemma {:induction false} NothingEligible(b: Board, offers: set<nat>, r: Option<nat>, after: Heap)
    requires b.WellFormed() && b.eligible == {} && IsFirstLive(b, offers, r) && CleanedUpTo(b, after, r)
    ensures after == multiset{}
  {
  }

  lemma {:induction false} EmptyHeapMisses(b: Board, offers: set<nat>, scanned: Option<nat>, picked: Option<nat>)
    requires b.WellFormed() && b.eligible == {0} && b.heap == multiset{} && 0 in offers
    requires IsRarest(b, offers, scanned) && IsFirstLive(b, offers, picked)
    ensures scanned == Some(0) && picked == None
  {
  }
}
