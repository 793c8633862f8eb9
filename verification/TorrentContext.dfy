/**
  The torrent session state of `library/src/core/torrent_context.rs` and
  `library/src/core/piece_accounting.rs`: bitfields, counters, piece buffers, block
  storage, the peer swarm and the rarity heap, with the operations that change
  them.  Locks are atomic steps; SHA-1 is a parameter.
 */
module TorrentContexts {
  import opened Wrappers
  import opened Sizes
  import opened Bitfields
  import opened FileSelection
  import opened Scheduling
  import opened PieceStorage
  import opened Arrivals
  import opened Rechecking
  import opened Availability

  const MAXIMUM_SWARM_SIZE: nat := 100
  const USIZE_MAX: nat := 0xFFFF_FFFF_FFFF_FFFF

  /** A piece handed to the background verification pool. */
  datatype Job = Job(piece: nat, length: nat, sources: seq<Option<string>>)

  /**
    What the surroundings do during one block arrival: the BEP 52 block check,
    the storage write (and how much of a failed write reaches storage), the
    verification pool, and what a discarded range reads as afterwards.
   */
  datatype Environment = Environment(blockAccepted: bool, writeOk: bool, written: nat, submitOk: bool, found: Storage)

  /** What `remove_peer` finds: both locks free, the swarm's taken, or the peer's own. */
  datatype Locks = BothFree | SwarmTaken | PeerTaken

  /** Everything that can happen to a session. */
  datatype Event =
    | Connect(ip: string)
    | Disconnect(ip: string, locks: Locks)
    | Have(ip: string, index: nat)
    | Bitfield(ip: string, bits: Bits)
    | HaveAll(ip: string)
    | HaveNone(ip: string)
    | Block(piece: nat, begin: nat, block: Bytes, ip: string, env: Environment)
    | Verified(job: nat, good: bool, found: Storage)
    | Prioritise(file: nat, priority: FilePriority)
    | Select(indices: seq<nat>)
    | Pick(peer: Peer)

  /** Background verification reports a bad piece, or the pool refuses a piece. */
  predicate FailsLate(e: Event) {
    (e.Verified? && !e.good) || (e.Block? && !e.env.submitOk)
  }

  /** What the heap query does with an entry. */
  datatype Verdict = Drop | Choose | SetAside

  // ---------------------------------------------------------------- accounting of one status update

  /** `set_piece_length` ignores lengths above the torrent's piece length. */
  function NewLength(pieceLength: nat, length: nat, bytes: nat): nat {
    if bytes <= pieceLength then bytes else length
  }

  /**
    One `update_bitfield_status` keeps "bytes downloaded = recorded lengths of
    local pieces" exactly if it does not shorten, lengthen or drop a piece that
    is already local and does not report a new piece longer than the limit.
   */
  lemma {:induction false} StatusConservesExactly(bits: Bits, lengths: seq<nat>, pieceLength: nat, p: nat, there: bool, bytes: nat, total: nat)
    requires p < |lengths| && p / 8 < |bits| && lengths[p] <= pieceLength
    requires total == SumBits(bits, lengths, |lengths|)
    ensures
      var total' := if there && !Get(bits, p) then total + bytes else total;
      var lengths' := lengths[p := NewLength(pieceLength, lengths[p], bytes)];
      total' == SumBits(Put(bits, p, there), lengths', |lengths|)
      <==> if Get(bits, p) then (if there then NewLength(pieceLength, lengths[p], bytes) == lengths[p] else lengths[p] == 0)
           else there ==> bytes <= pieceLength
  {
    SumPut(bits, lengths, p, there, NewLength(pieceLength, lengths[p], bytes), |lengths|);
  }

  /** The requests of one piece dropped. */
  function WithoutPiece(pairs: set<(nat, nat)>, piece: nat): set<(nat, nat)> {
    set x | x in pairs && x.0 != piece
  }

  // ---------------------------------------------------------------- parts of the invariant

  ghost predicate Shape(n: nat, pieceLength: nat, hashes: Bytes, bits: Bits, missing: Bits, lengths: seq<nat>) {
    && |bits| == |missing| == ByteCount(n)
    && |lengths| == n
    && (forall p :: 0 <= p < n ==> lengths[p] <= pieceLength)
    && HASH_LENGTH * n <= |hashes|
  }

  /** There is a count for every piece and the heap names only pieces. */
  ghost predicate HeapFits(n: nat, count: seq<nat>, heap: Heap) {
    |count| == n && forall r :: r in heap ==> r.pieceIndex < n
  }

  /** Bytes downloaded are the recorded lengths of local pieces; the missing counter counts the missing bits. */
  ghost predicate Balanced(bits: Bits, lengths: seq<nat>, total: nat, missing: Bits, missingCount: nat) {
    && total == SumBits(bits, lengths, |lengths|)
    && missingCount == CountBits(missing, 8 * |missing|)
  }

  /** Pending verification jobs carry the recorded length of their piece. */
  ghost predicate JobsMatch(jobs: seq<Job>, lengths: seq<nat>) {
    forall j :: j in jobs ==> j.piece < |lengths| && j.length == lengths[j.piece]
  }

  lemma {:induction false} JobAppended(jobs: seq<Job>, lengths: seq<nat>, job: Job)
    requires JobsMatch(jobs, lengths) && job.piece < |lengths| && job.length == lengths[job.piece]
    ensures JobsMatch(jobs + [job], lengths)
  {
  }

  lemma {:induction false} JobRemoved(jobs: seq<Job>, lengths: seq<nat>, k: nat)
    requires JobsMatch(jobs, lengths) && k < |jobs|
    ensures jobs[k].piece < |lengths| && jobs[k].length == lengths[jobs[k].piece]
    ensures JobsMatch(jobs[..k] + jobs[k + 1..], lengths)
  {
  }

  /** Every local piece is good in storage. */
  ghost predicate AllGood(sha1: Sha1, hashes: Bytes, pieceLength: nat, s: Storage, bits: Bits, lengths: seq<nat>) {
    forall p :: 0 <= p < |lengths| && Get(bits, p) ==> StoredGood(sha1, hashes, pieceLength, s, p, lengths[p])
  }

  /** Wanted, not local and not being verified. */
  ghost predicate Eligible(files: seq<FileDetails>, pieceLength: nat, total: nat, bits: Bits, verifying: set<nat>, p: nat) {
    Wanted(files, pieceLength, total, p) && !Get(bits, p) && p !in verifying
  }

  ghost function EligiblePieces(n: nat, files: seq<FileDetails>, pieceLength: nat, total: nat, bits: Bits, verifying: set<nat>)
      : (r: set<nat>)
    ensures forall p :: p in r <==> 0 <= p < n && Eligible(files, pieceLength, total, bits, verifying, p)
  {
    set p | 0 <= p < n && Eligible(files, pieceLength, total, bits, verifying, p)
  }

  /** The pieces a remote peer offers. */
  ghost function Offers(n: nat, peer: Peer): (r: set<nat>)
    ensures forall p :: p in r <==> 0 <= p < n && peer.Has(p)
  {
    set p | 0 <= p < n && peer.Has(p)
  }

  /** A fresh heap entry for every wanted, missing piece below m. */
  function Rebuilt(files: seq<FileDetails>, pieceLength: nat, total: nat, bits: Bits, count: seq<nat>, m: nat): Heap
    requires m <= |count|
  {
    if m == 0 then multiset{}
    else
      var r := Rebuilt(files, pieceLength, total, bits, count, m - 1);
      if Wanted(files, pieceLength, total, m - 1) && !Get(bits, m - 1) then r + multiset{PieceRarity(count[m - 1], m - 1)} else r
  }

  lemma {:induction false} RebuiltBounded(files: seq<FileDetails>, pieceLength: nat, total: nat, bits: Bits, count: seq<nat>, m: nat, e: PieceRarity)
    requires m <= |count| && e in Rebuilt(files, pieceLength, total, bits, count, m)
    ensures e.pieceIndex < m
    decreases m
  {
    hide Wanted, Get;
    if m > 0 && e in Rebuilt(files, pieceLength, total, bits, count, m - 1) {
      RebuiltBounded(files, pieceLength, total, bits, count, m - 1, e);
    }
  }

  lemma {:induction false} RebuiltHas(files: seq<FileDetails>, pieceLength: nat, total: nat, bits: Bits, count: seq<nat>, m: nat, p: nat)
    requires p < m <= |count| && Wanted(files, pieceLength, total, p) && !Get(bits, p)
    ensures PieceRarity(count[p], p) in Rebuilt(files, pieceLength, total, bits, count, m)
    decreases m
  {
    hide Wanted, Get;
    if p < m - 1 {
      RebuiltHas(files, pieceLength, total, bits, count, m - 1, p);
    }
  }

  lemma {:induction false} RebuiltCovers(files: seq<FileDetails>, pieceLength: nat, total: nat, bits: Bits, count: seq<nat>, verifying: set<nat>)
    ensures var heap := Rebuilt(files, pieceLength, total, bits, count, |count|);
      var b := Board(EligiblePieces(|count|, files, pieceLength, total, bits, verifying), count, heap);
      HeapFits(|count|, count, heap) && b.WellFormed() && b.Lost() == {}
  {
    hide Wanted, Get, Rebuilt;
    var b := Board(EligiblePieces(|count|, files, pieceLength, total, bits, verifying), count,
                   Rebuilt(files, pieceLength, total, bits, count, |count|));
    forall e | e in b.heap
      ensures e.pieceIndex < |count|
    {
      RebuiltBounded(files, pieceLength, total, bits, count, |count|, e);
    }
    forall p | p in b.eligible
      ensures b.Entry(p) in b.heap
    {
      RebuiltHas(files, pieceLength, total, bits, count, |count|, p);
    }
  }

  /** The heap rebuild of the selection and priority changes. */
  method RebuildHeap(files: seq<FileDetails>, pieceLength: nat, total: nat, bits: Bits, count: seq<nat>) returns (heap: Heap)
    ensures heap == Rebuilt(files, pieceLength, total, bits, count, |count|)
  {
    hide Wanted, Get;
    heap := multiset{};
    for p := 0 to |count|
      invariant heap == Rebuilt(files, pieceLength, total, bits, count, p)
    {
      if Wanted(files, pieceLength, total, p) && !Get(bits, p) {
        heap := heap + multiset{PieceRarity(count[p], p)};
      }
    }
  }

  lemma {:induction false} SkippingShrinksEligible(n: nat, files: seq<FileDetails>, i: nat, pieceLength: nat, total: nat, bits: Bits, verifying: set<nat>)
    requires i < |files|
    ensures EligiblePieces(n, files[i := files[i].(priority := Skip)], pieceLength, total, bits, verifying)
         <= EligiblePieces(n, files, pieceLength, total, bits, verifying)
  {
    hide Wanted, Get;
    forall p | p in EligiblePieces(n, files[i := files[i].(priority := Skip)], pieceLength, total, bits, verifying)
      ensures p in EligiblePieces(n, files, pieceLength, total, bits, verifying)
    {
      SkippingOnlyShrinks(files, pieceLength, total, i, p);
    }
  }

  /** Block reservations left after dropping those of unwanted pieces below m. */
  ghost function KeptRequests(files: seq<FileDetails>, pieceLength: nat, total: nat, reserved: set<(nat, nat)>, m: nat): set<(nat, nat)> {
    set x | x in reserved && (x.0 >= m || Wanted(files, pieceLength, total, x.0))
  }

  /** Marking a piece local or verifying makes no piece eligible; ending its verification at most that piece. */
  lemma {:induction false} EligibleAfter(n: nat, files: seq<FileDetails>, pieceLength: nat, total: nat,
                                         bits: Bits, bits': Bits, verifying: set<nat>, verifying': set<nat>, p: nat)
    requires bits' == bits || bits' == Put(bits, p, true)
    requires verifying - {p} <= verifying'
    ensures EligiblePieces(n, files, pieceLength, total, bits', verifying')
         <= EligiblePieces(n, files, pieceLength, total, bits, verifying) + {p}
    ensures verifying <= verifying' ==>
      EligiblePieces(n, files, pieceLength, total, bits', verifying') <= EligiblePieces(n, files, pieceLength, total, bits, verifying)
    ensures p / 8 < |bits| && bits' == Put(bits, p, true) ==>
      EligiblePieces(n, files, pieceLength, total, bits', verifying') <= EligiblePieces(n, files, pieceLength, total, bits, verifying)
  {
    hide Wanted, Get, Put;
    forall q: nat
      ensures Get(bits, q) ==> Get(bits', q)
      ensures p / 8 < |bits| && bits' == Put(bits, p, true) ==> Get(bits', p)
    {
      GetPut(bits, p, true, q);
      GetPut(bits, p, true, p);
    }
  }

  /** The same for the heap: a new local or verifying piece loses nothing, an ended verification at most its piece. */
  lemma {:induction false} LostAfter(n: nat, files: seq<FileDetails>, pieceLength: nat, total: nat, count: seq<nat>, heap: Heap,
                                     bits: Bits, bits': Bits, verifying: set<nat>, verifying': set<nat>, p: nat)
    requires HeapFits(n, count, heap)
    requires bits' == bits || bits' == Put(bits, p, true)
    requires verifying - {p} <= verifying'
    ensures
      var before := Board(EligiblePieces(n, files, pieceLength, total, bits, verifying), count, heap).Lost();
      var after := Board(EligiblePieces(n, files, pieceLength, total, bits', verifying'), count, heap).Lost();
      && after <= before + {p}
      && (verifying <= verifying' || (p / 8 < |bits| && bits' == Put(bits, p, true)) ==> after <= before)
  {
    hide EligiblePieces, Get, Put;
    var b := Board(EligiblePieces(n, files, pieceLength, total, bits, verifying), count, heap);
    var eligible := EligiblePieces(n, files, pieceLength, total, bits', verifying');
    EligibleAfter(n, files, pieceLength, total, bits, bits', verifying, verifying', p);
    OnlyNewcomersGetLost(b, eligible, if eligible <= b.eligible then {} else {p});
  }

  // ---------------------------------------------------------------- keeping the storage sound

  /** Writing inside one piece that is not local leaves every local piece good. */
  lemma {:induction false} WriteKeepsGood(sha1: Sha1, hashes: Bytes, pieceLength: nat, s: Storage, t: Storage, bits: Bits, lengths: seq<nat>,
                                          p: nat, start: nat, lo: nat, hi: nat)
    requires HASH_LENGTH * |lengths| <= |hashes| && AllGood(sha1, hashes, pieceLength, s, bits, lengths)
    requires forall q :: 0 <= q < |lengths| ==> lengths[q] <= pieceLength
    requires p < |lengths| && !Get(bits, p) && start == PieceStart(p, pieceLength)
    requires start <= lo && hi <= start + lengths[p] && SameOutside(s, t, lo, hi)
    ensures AllGood(sha1, hashes, pieceLength, t, bits, lengths)
  {
    hide Get, Read, SameOutside, PieceStart;
    forall q | 0 <= q < |lengths| && Get(bits, q)
      ensures StoredGood(sha1, hashes, pieceLength, t, q, lengths[q])
    {
      PiecesDisjoint(p, q, pieceLength, lengths[p], lengths[q]);
      ReadUntouched(s, t, lo, hi, PieceStart(q, pieceLength), lengths[q]);
      assert StoredGood(sha1, hashes, pieceLength, s, q, lengths[q]);
    }
  }

  /** Marking a piece whose stored bytes are good as local keeps every local piece good. */
  lemma {:induction false} MarkKeepsGood(sha1: Sha1, hashes: Bytes, pieceLength: nat, s: Storage, bits: Bits, lengths: seq<nat>, p: nat)
    requires HASH_LENGTH * |lengths| <= |hashes| && AllGood(sha1, hashes, pieceLength, s, bits, lengths)
    requires p < |lengths| && StoredGood(sha1, hashes, pieceLength, s, p, lengths[p])
    ensures AllGood(sha1, hashes, pieceLength, s, Put(bits, p, true), lengths)
  {
    hide Get, Put, StoredGood;
    forall q | 0 <= q < |lengths| && Get(Put(bits, p, true), q)
      ensures StoredGood(sha1, hashes, pieceLength, s, q, lengths[q])
    {
      GetPut(bits, p, true, q);
    }
  }

  /** The missing counter follows a change of one missing bit. */
  function MissingCountAfter(missing: Bits, missingCount: nat, p: nat, value: bool): nat {
    if p / 8 >= |missing| || Get(missing, p) == value then missingCount
    else if value then missingCount + 1
    else if missingCount == 0 then 0 else missingCount - 1
  }

  lemma {:induction false} MissingStaysCounted(missing: Bits, missingCount: nat, p: nat, value: bool)
    requires missingCount == CountBits(missing, 8 * |missing|)
    ensures MissingCountAfter(missing, missingCount, p, value) == CountBits(Put(missing, p, value), 8 * |missing|)
  {
    hide CountBits;
    if p / 8 < |missing| {
      CountPut(missing, p, value, 8 * |missing|);
    }
  }

  // ---------------------------------------------------------------- lengths and the recheck

  /** `init_pieces`: no peers, full length and a heap entry for every piece. */
  method InitPieces(n: nat, pieceLength: nat) returns (counts: seq<nat>, lengths: seq<nat>, heap: Heap)
    ensures |counts| == |lengths| == n
    ensures forall p :: 0 <= p < n ==> counts[p] == 0 && lengths[p] == pieceLength && PieceRarity(0, p) in heap
    ensures forall r :: r in heap ==> r.pieceIndex < n
  {
    counts, lengths, heap := [], [], multiset{};
    for i := 0 to n
      invariant |counts| == |lengths| == i
      invariant forall p :: 0 <= p < i ==> counts[p] == 0 && lengths[p] == pieceLength && PieceRarity(0, p) in heap
      invariant forall r :: r in heap ==> r.pieceIndex < i
    {
      counts, lengths := counts + [0], lengths + [pieceLength];
      heap := heap + multiset{PieceRarity(0, i)};
    }
  }

  /** Recording another length for a piece changes the downloaded bytes exactly if the piece is local. */
  lemma {:induction false} ResizeSum(bits: Bits, lengths: seq<nat>, p: nat, length: nat)
    requires p < |lengths| && p / 8 < |bits|
    ensures SumBits(bits, lengths[p := length], |lengths|) + (if Get(bits, p) then lengths[p] else 0)
         == SumBits(bits, lengths, |lengths|) + if Get(bits, p) then length else 0
  {
    hide SumBits;
    if Get(bits, p) {
      PutSet(bits, p);
    } else {
      PutClear(bits, p);
    }
    hide Get, Put;
    SumPut(bits, lengths, p, Get(bits, p), length, |lengths|);
  }

  /** The pieces that were local before a recheck and are not any more. */
  ghost function Dropped(n: nat, before: Bits, after: Bits): (r: set<nat>)
    ensures forall p :: p in r <==> 0 <= p < n && Get(before, p) && !Get(after, p)
  {
    set p | 0 <= p < n && Get(before, p) && !Get(after, p)
  }

  lemma {:induction false} RecheckEligible(n: nat, files: seq<FileDetails>, pieceLength: nat, total: nat, bits: Bits, scanned: Bits, verifying: set<nat>)
    ensures EligiblePieces(n, files, pieceLength, total, scanned, verifying)
         <= EligiblePieces(n, files, pieceLength, total, bits, verifying) + Dropped(n, bits, scanned)
  {
    hide Get, Wanted;
  }

  lemma {:induction false} RecheckedFit(n: nat, pieceLength: nat, total: nat)
    requires pieceLength > 0
    ensures forall p :: 0 <= p < n ==> RecheckedLengths(n, pieceLength, total, n)[p] <= pieceLength
  {
  }

  // ---------------------------------------------------------------- what a run preserves

  /** Local pieces stay local. */
  ghost predicate BitsGrow(bits: Bits, bits': Bits) {
    forall p: nat :: Get(bits, p) ==> Get(bits', p)
  }

  /** The stored bytes of the local pieces are the same. */
  ghost predicate BytesStay(pieceLength: nat, lengths: seq<nat>, bits: Bits, s: Storage, t: Storage) {
    forall p :: 0 <= p < |lengths| && Get(bits, p) ==>
      Read(t, PieceStart(p, pieceLength), lengths[p]) == Read(s, PieceStart(p, pieceLength), lengths[p])
  }

  /** Everything a message can tell about the pieces of a peer. */
  predicate Speaks(e: Event) {
    e.Have? || Announces(e)
  }

  /** A wholesale announcement. */
  predicate Announces(e: Event) {
    e.Bitfield? || e.HaveAll? || e.HaveNone?
  }

  /** The peers that have told about their pieces in the first i events and not been disconnected since. */
  ghost function Spoken(events: seq<Event>, i: nat): set<string>
    requires i <= |events|
  {
    if i == 0 then {}
    else
      var e, before := events[i - 1], Spoken(events, i - 1);
      if Speaks(e) then before + {e.ip} else if e.Disconnect? && e.locks != SwarmTaken then before - {e.ip} else before
  }

  /**
    Every wholesale announcement is the first thing its peer tells on a connection,
    and no peer that has told anything leaves while its own lock is taken.
   */
  ghost predicate Fair(events: seq<Event>) {
    forall i :: 0 <= i < |events| && (Announces(events[i]) || LeavesLocked(events[i])) ==> events[i].ip !in Spoken(events, i)
  }

  predicate LeavesLocked(e: Event) {
    e.Disconnect? && e.locks == PeerTaken
  }

  /** Peers that have not spoken hold nothing. */
  ghost predicate Silent(swarm: Swarm, spoken: set<string>, n: nat) {
    forall ip :: ip in swarm && ip !in spoken ==> HoldsNone(swarm[ip].remote, n)
  }

  /** What one event can do to the swarm: only a peer that speaks changes what it holds, newcomers hold nothing. */
  ghost predicate SwarmMoves(e: Event, before: Swarm, after: Swarm) {
    && (forall ip :: ip in after ==>
          || (ip in before && after[ip] == before[ip])
          || after[ip] == Peer([], false)
          || (Speaks(e) && e.ip == ip))
    && (e.Disconnect? && e.locks != SwarmTaken ==> e.ip !in after)
  }

  /** One step of a fair run in which nobody is thrown out. */
  lemma {:induction false} StaysSilent(events: seq<Event>, i: nat, before: Swarm, after: Swarm, n: nat)
    requires i < |events| && Fair(events) && Silent(before, Spoken(events, i), n)
    requires SwarmMoves(events[i], before, after)
    requires events[i].Block? || events[i].Verified? ==> after == before
    ensures Silent(after, Spoken(events, i + 1), n) && Polite(events[i], before, after, n)
  {
    forall ip | ip in after && ip !in Spoken(events, i + 1)
      ensures HoldsNone(after[ip].remote, n)
    {
      assert ip in before && after[ip] == before[ip] ==> ip !in Spoken(events, i);
    }
  }

  /**
    A peer announces all its pieces only while it holds none, and no peer is
    thrown out without its bitfield being unmerged.
   */
  ghost predicate Polite(e: Event, before: Swarm, after: Swarm, n: nat) {
    match e
    case Disconnect(ip, locks) => locks == PeerTaken && ip in before ==> HoldsNone(before[ip].remote, n)
    case Bitfield(ip, _) => ip in before ==> HoldsNone(before[ip].remote, n)
    case HaveAll(ip) => ip in before ==> HoldsNone(before[ip].remote, n)
    case HaveNone(ip) => ip in before ==> HoldsNone(before[ip].remote, n)
    case Block(_, _, _, _, _) => after == before
    case Verified(_, _, _) => after == before
    case _ => true
  }

  /** The pieces that an event's late failure makes eligible again. */
  function Readmits(e: Event, verifying: set<nat>, jobs: seq<Job>): set<nat> {
    match e
    case Block(piece, _, block, _, env) => if |block| < U32_SIZE && piece in verifying && !env.submitOk then {piece} else {}
    case Verified(k, good, _) => if k < |jobs| && !good then {jobs[k].piece} else {}
    case _ => {}
  }

  /** The pieces a late failure can concern. */
  ghost function Suspects(verifying: set<nat>, jobs: seq<Job>): (r: set<nat>)
    ensures verifying <= r && forall j :: j in jobs ==> j.piece in r
  {
    verifying + set j | j in jobs :: j.piece
  }

  /** The piece of the torrent whose block arrives. */
  function BlockPiece(e: Event, n: nat): set<nat> {
    if e.Block? && e.piece < n then {e.piece} else {}
  }

  function BlockPieces(events: seq<Event>, n: nat, i: nat): set<nat>
    requires i <= |events|
  {
    if i == 0 then {} else BlockPieces(events, n, i - 1) + BlockPiece(events[i - 1], n)
  }

  lemma {:induction false} ReadmitsSuspects(e: Event, verifying: set<nat>, jobs: seq<Job>)
    ensures Readmits(e, verifying, jobs) <= Suspects(verifying, jobs)
    ensures !FailsLate(e) ==> Readmits(e, verifying, jobs) == {}
  {
  }

  lemma {:induction false} SuspectsGrow(verifying: set<nat>, jobs: seq<Job>, verifying': set<nat>, jobs': seq<Job>, extra: set<nat>)
    requires verifying' <= verifying + extra && forall j :: j in jobs' ==> j in jobs || j.piece in extra
    ensures Suspects(verifying', jobs') <= Suspects(verifying, jobs) + extra
  {
  }

  // ---------------------------------------------------------------- downloads

  /** What an event does to buffers, storage and bitfield of a synchronous session without adaptive endgame. */
  ghost function DiskStep(l: Layout, d: Disk, e: Event): Disk {
    if e.Block? && Fits(l, e.piece, e.begin, |e.block|) && !Get(d.bits, e.piece)
    then Arrived(l, d, e.piece, e.begin, e.block, e.ip, false, e.env.found).0
    else d
  }

  ghost function DiskAfter(l: Layout, d: Disk, events: seq<Event>, i: nat): Disk
    requires i <= |events|
  {
    if i == 0 then d else DiskStep(l, DiskAfter(l, d, events, i - 1), events[i - 1])
  }

  /** A block that fits has a place in its piece and the surroundings accept and write it. */
  predicate Smooth(l: Layout, e: Event) {
    e.Block? && Fits(l, e.piece, e.begin, |e.block|) ==>
      e.begin / BLOCK_SIZE < BlockCount(l.lengths[e.piece]) && e.env.blockAccepted && e.env.writeOk
  }

  lemma {:induction false} StepFits(l: Layout, d: Disk, e: Event)
    requires BuffersFit(l, d.buffers)
    ensures BuffersFit(l, DiskStep(l, d, e).buffers)
  {
    hide BuffersFit, Get, Arrived;
    if e.Block? && Fits(l, e.piece, e.begin, |e.block|) {
      ArrivalFits(l, d, e.piece, e.begin, e.block, e.ip, e.env.found);
    }
  }

  lemma {:induction false} SmoothIsHeld(l: Layout, d: Disk, e: Event)
    requires BuffersFit(l, d.buffers) && Smooth(l, e) && e.Block? && Fits(l, e.piece, e.begin, |e.block|)
    ensures Held(d.buffers, e.piece, l.lengths[e.piece], e.begin, e.env.blockAccepted, e.env.writeOk)
  {
    hide BlockCount;
  }

  /** The genuine block of the torrent's bytes, accepted and written. */
  ghost predicate Genuine(l: Layout, content: Bytes, e: Event)
    requires Describes(l, content)
  {
    e.Block? ==>
      && e.piece < |l.lengths| && e.begin % BLOCK_SIZE == 0 && e.begin / BLOCK_SIZE < BlockCount(l.lengths[e.piece])
      && e.block == BlockOf(PieceOf(l, content, e.piece), e.begin / BLOCK_SIZE)
      && e.env.blockAccepted && e.env.writeOk
  }

  /** The blocks the first i events deliver. */
  function Deliveries(events: seq<Event>, i: nat): set<(nat, nat)>
    requires i <= |events|
  {
    if i == 0 then {}
    else
      var e, before := events[i - 1], Deliveries(events, i - 1);
      if e.Block? then before + {(e.piece, e.begin / BLOCK_SIZE)} else before
  }

  lemma {:induction false} GenuineStep(l: Layout, content: Bytes, first: Bits, done: set<(nat, nat)>, d: Disk, e: Event)
    requires Describes(l, content) && Genuine(l, content, e) && l.pieceLength < U32_SIZE && Progress(l, content, first, done, d)
    ensures Smooth(l, e)
    ensures Progress(l, content, first, if e.Block? then done + {(e.piece, e.begin / BLOCK_SIZE)} else done, DiskStep(l, d, e))
  {
    hide Progress, BlockCount, Get, Arrived;
    if e.Block? {
      var i, bytes := e.begin / BLOCK_SIZE, PieceOf(l, content, e.piece);
      assert e.begin == i * BLOCK_SIZE;
      BlockEnds(|bytes|, i);
      DeliveryProgress(l, content, first, done, d, e.piece, i, e.ip, e.env.found);
    }
  }

  /** Any run of genuine blocks, in any order and repeated, advances the download by exactly its deliveries. */
  lemma {:induction false} GenuineRun(l: Layout, content: Bytes, d: Disk, events: seq<Event>, i: nat)
    requires Describes(l, content) && l.pieceLength < U32_SIZE && Progress(l, content, d.bits, {}, d) && i <= |events|
    requires forall k :: 0 <= k < |events| ==> Genuine(l, content, events[k])
    ensures Progress(l, content, d.bits, Deliveries(events, i), DiskAfter(l, d, events, i))
  {
    hide Progress, Genuine, DiskStep, Describes;
    if i > 0 {
      GenuineRun(l, content, d, events, i - 1);
      GenuineStep(l, content, d.bits, Deliveries(events, i - 1), DiskAfter(l, d, events, i - 1), events[i - 1]);
    }
  }

  // ---------------------------------------------------------------- what a step judges

  /** What blame means for the swarm of a run. */
  lemma {:induction false} JudgedMoves(e: Event, scores: map<string, nat>, swarm: Swarm, scores': map<string, nat>, swarm': Swarm, n: nat)
    requires (e.Block? || e.Verified?) && Judged(scores, swarm, scores', swarm')
    ensures SwarmMoves(e, swarm, swarm') && ScoresGrow(scores, scores')
    ensures (NobodyOut(scores') ==> swarm' == swarm) && (Polite(e, swarm, swarm', n) ==> swarm' == swarm)
  {
  }

  /** Events that leave swarm, buffers and storage alone. */
  lemma {:induction false} IdleMoves(e: Event, swarm: Swarm, l: Layout, d: Disk)
    ensures !e.Disconnect? ==> SwarmMoves(e, swarm, swarm)
    ensures !e.Block? || |e.block| >= U32_SIZE ==> DiskStep(l, d, e) == d
  {
  }

  lemma {:induction false} NoneJudged(scores: map<string, nat>, swarm: Swarm)
    ensures ScoresGrow(scores, scores) && Judged(scores, swarm, scores, swarm)
  {
  }

  lemma {:induction false} NoneSpoken(events: seq<Event>)
    ensures Spoken(events, 0) == {}
  {
  }

  lemma {:induction false} NothingChanges(pieceLength: nat, lengths: seq<nat>, bits: Bits, s: Storage)
    ensures BitsGrow(bits, bits) && BytesStay(pieceLength, lengths, bits, s, s)
  {
  }

  lemma {:induction false} OneMoreBit(bits: Bits, bits': Bits, p: nat)
    requires bits' == bits || bits' == Put(bits, p, true)
    ensures BitsGrow(bits, bits')
  {
    hide Get, Put;
    forall q: nat
      ensures Get(bits, q) ==> Get(bits', q)
    {
      GetPut(bits, p, true, q);
    }
  }

  /** A change inside one piece, and only if that piece is not local, leaves all local bytes alone. */
  lemma {:induction false} OtherBytesStay(pieceLength: nat, lengths: seq<nat>, bits: Bits, s: Storage, t: Storage, p: nat)
    requires forall q :: 0 <= q < |lengths| ==> lengths[q] <= pieceLength
    requires p < |lengths| ==> SameOutside(s, t, PieceStart(p, pieceLength), PieceStart(p, pieceLength) + lengths[p])
    requires p >= |lengths| || Get(bits, p) ==> t == s
    ensures BytesStay(pieceLength, lengths, bits, s, t)
  {
    hide Get, Read, SameOutside, PieceStart;
    forall q | 0 <= q < |lengths| && Get(bits, q)
      ensures Read(t, PieceStart(q, pieceLength), lengths[q]) == Read(s, PieceStart(q, pieceLength), lengths[q])
    {
      if p < |lengths| && q != p {
        PiecesDisjoint(p, q, pieceLength, lengths[p], lengths[q]);
        ReadUntouched(s, t, PieceStart(p, pieceLength), PieceStart(p, pieceLength) + lengths[p], PieceStart(q, pieceLength), lengths[q]);
      }
    }
  }

  lemma {:induction false} GrowthChains(a: Bits, b: Bits, c: Bits)
    requires BitsGrow(a, b) && BitsGrow(b, c)
    ensures BitsGrow(a, c)
  {
    hide Get;
  }

  lemma {:induction false} StayingChains(pieceLength: nat, lengths: seq<nat>, a: Bits, b: Bits, s: Storage, t: Storage, u: Storage)
    requires BytesStay(pieceLength, lengths, a, s, t) && BytesStay(pieceLength, lengths, b, t, u) && BitsGrow(a, b)
    ensures BytesStay(pieceLength, lengths, a, s, u)
  {
    hide Get, Read, PieceStart;
  }

  // ---------------------------------------------------------------- the session object

  class TorrentContext {
    const numberOfPieces: nat
    const pieceLength: nat
    const totalBytes: nat
    const piecesInfoHash: Bytes
    const sha1: Sha1
    const asyncVerification: bool
    const adaptiveEndgame: bool

    var files: seq<FileDetails>
    var bitfield: Bits
    var piecesMissing: Bits
    var missingCount: nat
    var totalDownloaded: nat
    // The two columns of the source's per-piece records.
    var peerCount: seq<nat>
    var lengthOf: seq<nat>
    var pq: Heap
    var verifying: set<nat>
    var buffers: map<nat, PieceBuffer>
    var requested: set<(nat, nat)>
    var committed: set<(nat, nat)>
    var jobs: seq<Job>
    var storage: Storage
    var swarm: Swarm
    var badScores: map<string, nat>
    // No peer so far re-announced its pieces wholesale or vanished while holding some.
    ghost var orderly: bool

    // -------------------------------------------------------------- invariant

    /**
      Sizes fit, the accounts balance, pending jobs are current, peer counts are
      exact as long as the swarm has been orderly, and with synchronous
      verification every local piece is good in storage.
     */
    ghost predicate Valid()
      reads this`bitfield, this`piecesMissing, this`missingCount, this`totalDownloaded, this`peerCount, this`lengthOf,
            this`pq, this`jobs, this`storage, this`swarm, this`orderly
    {
      && Shape(numberOfPieces, pieceLength, piecesInfoHash, bitfield, piecesMissing, lengthOf)
      && HeapFits(numberOfPieces, peerCount, pq)
      && Balanced(bitfield, lengthOf, totalDownloaded, piecesMissing, missingCount)
      && JobsMatch(jobs, lengthOf)
      && (!asyncVerification ==> jobs == [])
      && |swarm| <= MAXIMUM_SWARM_SIZE
      && (orderly ==> Exact(swarm, peerCount))
      && (!asyncVerification ==> AllGood(sha1, piecesInfoHash, pieceLength, storage, bitfield, lengthOf))
    }

    // -------------------------------------------------------------- reading

    predicate IsPieceLocal(p: nat)
      reads this`bitfield
    {
      Get(bitfield, p)
    }

    predicate IsPieceWanted(p: nat)
      reads this`files
    {
      Wanted(files, pieceLength, totalBytes, p)
    }

    /** The scheduling view of the state. */
    ghost function View(): Board
      reads this`files, this`bitfield, this`verifying, this`peerCount, this`pq
    {
      Board(EligiblePieces(numberOfPieces, files, pieceLength, totalBytes, bitfield, verifying), peerCount, pq)
    }

    /** Wanted, missing, unverified pieces the heap has no current entry for. */
    ghost function LostPieces(): set<nat>
      reads this`files, this`bitfield, this`verifying, this`peerCount, this`pq
    {
      View().Lost()
    }

    /** What a block arrival depends on and what it changes. */
    ghost function LayoutNow(): Layout
      reads this`lengthOf
    {
      Layout(sha1, piecesInfoHash, pieceLength, lengthOf)
    }

    ghost function DiskNow(): Disk
      reads this`storage, this`buffers, this`bitfield
    {
      Disk(storage, buffers, bitfield)
    }

    // -------------------------------------------------------------- construction

    constructor (n: nat, pieceLen: nat, total: nat, hashes: Bytes, digest: Sha1, fileList: seq<FileDetails>,
                 async: bool, endgame: bool, stored: Storage)
      requires HASH_LENGTH * n <= |hashes|
      ensures numberOfPieces == n && pieceLength == pieceLen && totalBytes == total && files == fileList
      ensures piecesInfoHash == hashes && sha1 == digest && asyncVerification == async && adaptiveEndgame == endgame
      ensures Valid() && orderly && swarm == map[] && jobs == [] && storage == stored && buffers == map[] && badScores == map[]
      ensures LostPieces() == {} && verifying == {}
      ensures forall p :: !IsPieceLocal(p)
      ensures |peerCount| == |lengthOf| == n && forall p :: 0 <= p < n ==> peerCount[p] == 0 && lengthOf[p] == pieceLen
    {
      numberOfPieces, pieceLength, totalBytes, piecesInfoHash, sha1 := n, pieceLen, total, hashes, digest;
      asyncVerification, adaptiveEndgame := async, endgame;
      files, bitfield, piecesMissing := fileList, Filled(ByteCount(n), 0), Filled(ByteCount(n), 0);
      missingCount, totalDownloaded := 0, 0;
      var counts, lengths, heap := InitPieces(n, pieceLen);
      peerCount, lengthOf, pq := counts, lengths, heap;
      verifying, buffers, requested, committed, jobs := {}, map[], {}, {}, [];
      storage, swarm, badScores, orderly := stored, map[], map[], true;
      new;
      EmptyCounts(ByteCount(n), lengthOf, n, 8 * |piecesMissing|);
      assert forall p: nat :: !Get(bitfield, p);
    }

    // -------------------------------------------------------------- scheduling

    /** The default linear scan over all pieces; it never takes a piece whose count is the largest number there is. */
    method ScanRarestPiece(peer: Peer) returns (rarest: Option<nat>)
      requires HeapFits(numberOfPieces, peerCount, pq)
      ensures IsRarest(Counted(View(), USIZE_MAX), Offers(numberOfPieces, peer), rarest)
      ensures (forall p :: 0 <= p < numberOfPieces ==> peerCount[p] < USIZE_MAX) ==> IsRarest(View(), Offers(numberOfPieces, peer), rarest)
    {
      hide Get, Wanted;
      ghost var b, offers := Counted(View(), USIZE_MAX), Offers(numberOfPieces, peer);
      rarest := None;
      var minCount := USIZE_MAX;
      for piece := 0 to numberOfPieces
        invariant rarest.None? ==> minCount == USIZE_MAX && forall q :: q in b.eligible && q in offers ==> q >= piece
        invariant rarest.Some? ==>
          && rarest.value in b.eligible && rarest.value in offers && rarest.value < piece && peerCount[rarest.value] == minCount < USIZE_MAX
          && forall q :: q in b.eligible && q in offers && q < piece ==> Before(b.Entry(rarest.value), b.Entry(q))
      {
        if IsPieceWanted(piece) && !IsPieceLocal(piece) && piece !in verifying && peer.Has(piece) {
          var count := peerCount[piece];
          if count < minCount {
            minCount := count;
            rarest := Some(piece);
          }
        }
      }
    }

    /** What the query does with the top entry. */
    method Examine(top: PieceRarity, peer: Peer, ghost b: Board, ghost offers: set<nat>) returns (v: Verdict)
      requires HeapFits(numberOfPieces, peerCount, pq) && b == View() && offers == Offers(numberOfPieces, peer) && top.pieceIndex < |b.count|
      ensures v == Drop <==> !b.Live(top)
      ensures v == Choose <==> b.Live(top) && top.pieceIndex in offers
    {
      var piece := top.pieceIndex;
      if !IsPieceWanted(piece) {
        return Drop;
      }
      if IsPieceLocal(piece) || piece in verifying {
        return Drop;
      }
      if peerCount[piece] != top.peerCount {
        return Drop;
      }
      return if peer.Has(piece) then Choose else SetAside;
    }

    /** Sets live entries of pieces the peer lacks aside and drops dead ones until a live offered entry is on top. */
    method SearchHeap(peer: Peer)
        returns (selected: Option<nat>, rest: Heap, temporary: seq<PieceRarity>, ghost dropped: Heap)
      requires HeapFits(numberOfPieces, peerCount, pq)
      ensures SearchDone(View(), Offers(numberOfPieces, peer), rest, multiset(temporary), dropped, selected)
    {
      ghost var b, offers := View(), Offers(numberOfPieces, peer);
      selected, rest, temporary, dropped := None, pq, [], multiset{};
      ghost var kept: Heap := multiset{};
      assert Searching(b, offers, rest, kept, dropped);
      hide Searching, IsTop, Offers, View, HeapFits;
      while rest != multiset{}
        invariant Searching(b, offers, rest, kept, dropped)
        invariant kept == multiset(temporary)
        decreases |rest|
      {
        var top, others := PeekTop(rest);
        SearchRange(b, offers, rest, kept, dropped, top);
        var verdict := Examine(top, peer, b, offers);
        match verdict
        case Drop =>
          DropStep(b, offers, rest, kept, dropped, top, others);
          rest, dropped := others, dropped + multiset{top};
        case Choose =>
          selected := Some(top.pieceIndex);
          return;
        case SetAside =>
          KeepStep(b, offers, rest, kept, dropped, top, others);
          rest, temporary, kept := others, temporary + [top], kept + multiset{top};
      }
    }

    /**
      The heap query.  Its answer is the first live entry the peer offers; dead
      entries met on the way are dropped, all other entries are kept.
     */
    method PopRarestPiece(peer: Peer) returns (selected: Option<nat>)
      requires Valid()
      modifies this`pq
      ensures Valid()
      ensures IsFirstLive(old(View()), Offers(numberOfPieces, peer), selected)
      ensures old(LostPieces()) == {} ==> IsRarest(old(View()), Offers(numberOfPieces, peer), selected)
      ensures CleanedUpTo(old(View()), pq, selected)
      ensures LostPieces() == old(LostPieces())
    {
      hide SearchDone, IsFirstLive, IsRarest, CleanedUpTo, Offers, EligiblePieces, Shape, Balanced, JobsMatch, Exact, AllGood;
      ghost var b := View();
      var rest, temporary;
      ghost var dropped;
      selected, rest, temporary, dropped := SearchHeap(peer);
      SearchAnswers(b, Offers(numberOfPieces, peer), rest, multiset(temporary), dropped, selected);
      if b.Lost() == {} {
        HeapAgreesWithScan(b, Offers(numberOfPieces, peer), selected);
      }
      SearchCleans(b, Offers(numberOfPieces, peer), rest, multiset(temporary), dropped, selected);
      CleaningLosesNothing(b, rest + multiset(temporary), selected);
      pq := PushAll(rest, temporary);
      assert View() == Board(b.eligible, b.count, pq);
    }

    // -------------------------------------------------------------- availability

    lemma CountsFit()
      requires Valid()
      ensures |peerCount| == numberOfPieces
    {
    }

    /** Applies a peer's bitfield to the counts, byte by byte and bit by bit, pushing every changed count. */
    method UpdatePiecePeerCounts(remote: Bits, increment: bool)
      requires HeapFits(numberOfPieces, peerCount, pq)
      modifies this`peerCount, this`pq
      ensures HeapFits(numberOfPieces, peerCount, pq)
      ensures peerCount == Bumped(old(peerCount), remote, increment, numberOfPieces)
      ensures pq == old(pq) + Pushes(old(peerCount), remote, increment, numberOfPieces)
      ensures LostPieces() <= old(LostPieces())
    {
      ghost var b := View();
      BumpLosesNothing(b, remote, increment);
      var count, heap := BumpCounts(peerCount, pq, remote, increment);
      peerCount, pq := count, heap;
      assert View() == Board(b.eligible, peerCount, pq);
    }

    method IncrementPeerCount(p: nat)
      requires HeapFits(numberOfPieces, peerCount, pq)
      modifies this`peerCount, this`pq
      ensures HeapFits(numberOfPieces, peerCount, pq)
      ensures p < numberOfPieces ==>
        peerCount == old(peerCount)[p := old(peerCount)[p] + 1] && pq == old(pq) + multiset{PieceRarity(peerCount[p], p)}
      ensures p >= numberOfPieces ==> peerCount == old(peerCount) && pq == old(pq)
      ensures LostPieces() <= old(LostPieces())
    {
      if p < |peerCount| {
        ghost var b := View();
        PushOneLosesNothing(b, p, peerCount[p] + 1);
        peerCount := peerCount[p := peerCount[p] + 1];
        pq := pq + multiset{PieceRarity(peerCount[p], p)};
        assert View() == Board(b.eligible, peerCount, pq);
      }
    }

    /** Registers a fresh connection; refused for blacklisted, known or nameless peers and a full swarm. */
    method AddPeer(ip: string) returns (added: bool)
      requires Valid()
      modifies this`swarm
      ensures Valid() && LostPieces() == old(LostPieces())
      ensures added <==> !IsBlacklisted(ip) && ip != "" && ip !in old(swarm) && |old(swarm)| < MAXIMUM_SWARM_SIZE
      ensures swarm == if added then old(swarm)[ip := Peer([], false)] else old(swarm)
    {
      hide Shape, Balanced, JobsMatch, AllGood, EligiblePieces, Exact;
      if IsBlacklisted(ip) || ip == "" || ip in swarm || |swarm| >= MAXIMUM_SWARM_SIZE {
        return false;
      }
      if orderly {
        ConnectKeepsExact(swarm, peerCount, ip);
      }
      assert swarm[ip := Peer([], false)].Keys == swarm.Keys + {ip};
      swarm := swarm[ip := Peer([], false)];
      return true;
    }

    predicate IsBlacklisted(ip: string)
      reads this`badScores
    {
      ip in badScores && badScores[ip] >= 3
    }

    /**
      `remove_peer`: removes a peer and unmerges its bitfield.  It gives up if the
      swarm's lock is taken, and forgets to unmerge if the peer's own lock is.
     */
    method RemovePeer(ip: string, locks: Locks)
      requires Valid()
      modifies this`swarm, this`peerCount, this`pq, this`orderly
      ensures Valid() && LostPieces() <= old(LostPieces())
      ensures swarm == if ip in old(swarm) && locks != SwarmTaken then Without(old(swarm), ip) else old(swarm)
      ensures if ip in old(swarm) && locks == BothFree then peerCount == Bumped(old(peerCount), old(swarm)[ip].remote, false, numberOfPieces)
              else peerCount == old(peerCount) && pq == old(pq)
      ensures old(orderly) && ip in old(swarm) && locks == BothFree ==>
        forall p :: 0 <= p < numberOfPieces && Get(old(swarm)[ip].remote, p) ==> peerCount[p] + 1 == old(peerCount)[p]
      ensures orderly <==> old(orderly) && (locks == PeerTaken && ip in old(swarm) ==> HoldsNone(old(swarm)[ip].remote, numberOfPieces))
    {
      hide Shape, HeapFits, Balanced, JobsMatch, AllGood, EligiblePieces, Exact, Bumped, Pushes, Get, Without, HoldsNone;
      CountsFit();
      if ip in swarm && locks != SwarmTaken {
        var peer := swarm[ip];
        if orderly && locks == BothFree {
          RemoveKeepsExact(swarm, peerCount, ip);
        } else if orderly && HoldsNone(peer.remote, numberOfPieces) {
          ForgetKeepsExact(swarm, peerCount, ip);
        }
        WithoutSize(swarm, ip);
        swarm, orderly := Without(swarm, ip), orderly && (locks == PeerTaken ==> HoldsNone(peer.remote, numberOfPieces));
        if locks == BothFree {
          UpdatePiecePeerCounts(peer.remote, false);
        }
      }
    }

    /** `Have`: a piece not yet known to be there is recorded and counted. */
    method OnHave(ip: string, index: nat)
      requires Valid() && ip in swarm
      modifies this`swarm, this`peerCount, this`pq
      ensures Valid() && LostPieces() <= old(LostPieces())
      ensures swarm == old(swarm)[ip := WithPiece(old(swarm)[ip], index)]
      ensures if index < numberOfPieces && !old(swarm)[ip].Has(index)
              then peerCount == old(peerCount)[index := old(peerCount)[index] + 1] else peerCount == old(peerCount)
    {
      hide Board.Lost, Shape, Balanced, JobsMatch, AllGood, EligiblePieces, Exact, Filled;
      var peer := swarm[ip];
      var wasNew := !peer.Has(index);
      hide Get;
      var after := SetPiece(peer, index);
      WithPieceBits(peer, index);
      if orderly {
        HaveKeepsExact(swarm, peerCount, ip, after, index);
      }
      ReplaceSize(swarm, ip, after);
      hide WithPiece;
      swarm := swarm[ip := after];
      if wasNew {
        IncrementPeerCount(index);
      }
    }

    /** `Bitfield`: replaces what the peer announced and merges it. */
    method OnBitfield(ip: string, bits: Bits)
      requires Valid() && ip in swarm
      modifies this`swarm, this`peerCount, this`pq, this`orderly
      ensures Valid() && LostPieces() <= old(LostPieces())
      ensures swarm == old(swarm)[ip := old(swarm)[ip].(remote := bits)]
      ensures peerCount == Bumped(old(peerCount), bits, true, numberOfPieces)
      ensures orderly <==> old(orderly) && HoldsNone(old(swarm)[ip].remote, numberOfPieces)
    {
      Announce(ip, swarm[ip].(remote := bits));
    }

    /** `HaveAll`: every bit of a bitfield as long as ours is set and merged. */
    method OnHaveAll(ip: string)
      requires Valid() && ip in swarm
      modifies this`swarm, this`peerCount, this`pq, this`orderly
      ensures Valid() && LostPieces() <= old(LostPieces())
      ensures swarm == old(swarm)[ip := Peer(Filled(|bitfield|, 0xFF), true)]
      ensures peerCount == Bumped(old(peerCount), Filled(|bitfield|, 0xFF), true, numberOfPieces)
      ensures orderly <==> old(orderly) && HoldsNone(old(swarm)[ip].remote, numberOfPieces)
    {
      assert forall p :: 0 <= p < numberOfPieces ==> Get(Filled(|bitfield|, 0xFF), p);
      Announce(ip, Peer(Filled(|bitfield|, 0xFF), true));
    }

    /** The common part of wholesale announcements. */
    method Announce(ip: string, peer: Peer)
      requires Valid() && ip in swarm
      requires peer.isSeed ==> swarm[ip].isSeed || HoldsAll(peer.remote, numberOfPieces)
      modifies this`swarm, this`peerCount, this`pq, this`orderly
      ensures Valid() && LostPieces() <= old(LostPieces())
      ensures swarm == old(swarm)[ip := peer]
      ensures peerCount == Bumped(old(peerCount), peer.remote, true, numberOfPieces)
      ensures orderly <==> old(orderly) && HoldsNone(old(swarm)[ip].remote, numberOfPieces)
    {
      hide Board.Lost, HeapFits, Shape, Balanced, JobsMatch, AllGood, EligiblePieces, Exact, Bumped, Pushes, Get, HoldsAll, HoldsNone;
      CountsFit();
      ghost var first := orderly && HoldsNone(swarm[ip].remote, numberOfPieces);
      if first {
        AnnounceKeepsExact(swarm, peerCount, ip, peer);
      }
      ReplaceSize(swarm, ip, peer);
      orderly, swarm := first, swarm[ip := peer];
      UpdatePiecePeerCounts(peer.remote, true);
    }

    /** `HaveNone`: clears what the peer announced without touching the counts. */
    method OnHaveNone(ip: string)
      requires Valid() && ip in swarm
      modifies this`swarm, this`orderly
      ensures Valid() && LostPieces() == old(LostPieces())
      ensures swarm == old(swarm)[ip := Peer(Filled(|bitfield|, 0), false)]
      ensures orderly <==> old(orderly) && HoldsNone(old(swarm)[ip].remote, numberOfPieces)
    {
      hide Shape, Balanced, JobsMatch, AllGood, EligiblePieces, Exact, HoldsNone;
      assert forall p: nat :: !Get(Filled(|bitfield|, 0), p);
      if orderly && HoldsNone(swarm[ip].remote, numberOfPieces) {
        ClearKeepsExact(swarm, peerCount, ip, Filled(|bitfield|, 0));
      }
      ReplaceSize(swarm, ip, Peer(Filled(|bitfield|, 0), false));
      orderly := orderly && HoldsNone(swarm[ip].remote, numberOfPieces);
      swarm := swarm[ip := Peer(Filled(|bitfield|, 0), false)];
    }

    // -------------------------------------------------------------- priorities

    method ClearUnwantedRequests() returns (kept: set<(nat, nat)>)
      ensures kept == KeptRequests(files, pieceLength, totalBytes, requested, numberOfPieces)
    {
      hide Wanted;
      kept := requested;
      for p := 0 to numberOfPieces
        invariant kept == KeptRequests(files, pieceLength, totalBytes, requested, p)
      {
        if !IsPieceWanted(p) {
          kept := set x | x in kept && x.0 != p;
        }
      }
    }

    method SetFilePriority(i: nat, priority: FilePriority) returns (ok: bool)
      requires Valid()
      modifies this`files, this`pq, this`requested
      ensures Valid() && LostPieces() <= old(LostPieces())
      ensures ok <==> i < |old(files)|
      ensures files == if ok then old(files)[i := old(files)[i].(priority := priority)] else old(files)
      ensures pq == if ok && priority != Skip
                    then Rebuilt(files, pieceLength, totalBytes, bitfield, peerCount, numberOfPieces) else old(pq)
      ensures ok && priority != Skip ==> LostPieces() == {}
      ensures requested == if ok && priority == Skip
                           then KeptRequests(files, pieceLength, totalBytes, old(requested), numberOfPieces) else old(requested)
    {
      CountsFit();
      hide HeapFits, Board.Lost, Shape, Balanced, JobsMatch, AllGood, Exact, Wanted, Rebuilt, EligiblePieces, KeptRequests;
      if i >= |files| {
        return false;
      }
      files := files[i := files[i].(priority := priority)];
      if priority == Skip {
        SkippingShrinksEligible(numberOfPieces, old(files), i, pieceLength, totalBytes, bitfield, verifying);
        requested := ClearUnwantedRequests();
      } else {
        RebuiltCovers(files, pieceLength, totalBytes, bitfield, peerCount, verifying);
        pq := RebuildHeap(files, pieceLength, totalBytes, bitfield, peerCount);
      }
      return true;
    }

    method ApplyFileSelection(selected: seq<nat>)
      requires Valid()
      modifies this`files, this`pq, this`requested
      ensures Valid() && LostPieces() == {}
      ensures files == Apply(old(files), selected, |old(files)|)
      ensures pq == Rebuilt(files, pieceLength, totalBytes, bitfield, peerCount, numberOfPieces)
      ensures requested == KeptRequests(files, pieceLength, totalBytes, old(requested), numberOfPieces)
    {
      CountsFit();
      hide HeapFits, Shape, Balanced, JobsMatch, AllGood, Exact, Apply, Wanted, Rebuilt, EligiblePieces, KeptRequests;
      files := SelectFiles(files, selected);
      requested := ClearUnwantedRequests();
      RebuiltCovers(files, pieceLength, totalBytes, bitfield, peerCount, verifying);
      pq := RebuildHeap(files, pieceLength, totalBytes, bitfield, peerCount);
    }

    // -------------------------------------------------------------- accounting

    method MarkPieceMissing(p: nat, missing: bool)
      modifies this`piecesMissing, this`missingCount
      ensures piecesMissing == Put(old(piecesMissing), p, missing)
      ensures missingCount == MissingCountAfter(old(piecesMissing), old(missingCount), p, missing)
    {
      if p / 8 < |piecesMissing| {
        if missing {
          if !Get(piecesMissing, p) {
            piecesMissing := Put(piecesMissing, p, true);
            missingCount := missingCount + 1;
          } else {
            PutSet(piecesMissing, p);
          }
        } else if Get(piecesMissing, p) {
          piecesMissing := Put(piecesMissing, p, false);
          missingCount := if missingCount == 0 then 0 else missingCount - 1;
        } else {
          PutClear(piecesMissing, p);
        }
      }
    }

    /**
      `update_bitfield_status`.  The accounts stay balanced exactly under the
      condition of StatusConservesExactly.
     */
    method UpdateBitfieldStatus(p: nat, there: bool, bytes: nat)
      requires Shape(numberOfPieces, pieceLength, piecesInfoHash, bitfield, piecesMissing, lengthOf) && p < numberOfPieces
      requires Balanced(bitfield, lengthOf, totalDownloaded, piecesMissing, missingCount)
      modifies this`bitfield, this`piecesMissing, this`missingCount, this`totalDownloaded, this`lengthOf
      ensures Shape(numberOfPieces, pieceLength, piecesInfoHash, bitfield, piecesMissing, lengthOf)
      ensures bitfield == Put(old(bitfield), p, there) && piecesMissing == Put(old(piecesMissing), p, !there)
      ensures lengthOf == old(lengthOf)[p := NewLength(pieceLength, old(lengthOf)[p], bytes)]
      ensures totalDownloaded == old(totalDownloaded) + if there && !Get(old(bitfield), p) then bytes else 0
      ensures Balanced(bitfield, lengthOf, totalDownloaded, piecesMissing, missingCount) <==>
        if Get(old(bitfield), p) then (if there then lengthOf[p] == old(lengthOf)[p] else old(lengthOf)[p] == 0)
        else there ==> bytes <= pieceLength
    {
      StatusConservesExactly(bitfield, lengthOf, pieceLength, p, there, bytes, totalDownloaded);
      MissingStaysCounted(piecesMissing, missingCount, p, !there);
      hide SumBits, CountBits, Get, Put;
      if there && !Get(bitfield, p) {
        totalDownloaded := totalDownloaded + bytes;
      }
      if bytes <= pieceLength {
        lengthOf := lengthOf[p := bytes];
      }
      bitfield := Put(bitfield, p, there);
      MarkPieceMissing(p, !there);
    }

    // -------------------------------------------------------------- verification

    /** `set_piece_length`: safe for a piece that is neither local nor being verified. */
    method SetPieceLength(p: nat, length: nat)
      requires Valid()
      modifies this`lengthOf
      ensures lengthOf == if length <= pieceLength && p < numberOfPieces then old(lengthOf)[p := length] else old(lengthOf)
      ensures Balanced(bitfield, lengthOf, totalDownloaded, piecesMissing, missingCount) <==> IsPieceLocal(p) ==> lengthOf == old(lengthOf)
      ensures !IsPieceLocal(p) && (forall j :: j in jobs ==> j.piece != p) ==> Valid()
    {
      hide HeapFits, Exact, StoredGood, Get, SumBits, CountBits;
      if length <= pieceLength {
        if p < |lengthOf| {
          ResizeSum(bitfield, lengthOf, p, length);
          lengthOf := lengthOf[p := length];
        }
      }
    }

    /**
      `create_torrent_bitfield_parallel`: the pool's verdict `scanned` becomes the
      bitfield, and lengths, missing bits and counters are recomputed.  Only a
      piece that was local and no longer is can be without a heap entry.
     */
    method RecheckPieces(scanned: Bits)
      requires Valid() && pieceLength > 0 && |scanned| == ByteCount(numberOfPieces)
      requires AllGood(sha1, piecesInfoHash, pieceLength, storage, scanned, RecheckedLengths(numberOfPieces, pieceLength, totalBytes, numberOfPieces))
      modifies this`bitfield, this`piecesMissing, this`missingCount, this`totalDownloaded, this`lengthOf
      ensures jobs == [] ==> Valid()
      ensures bitfield == scanned && lengthOf == RecheckedLengths(numberOfPieces, pieceLength, totalBytes, numberOfPieces)
      ensures Tallied(scanned, lengthOf, numberOfPieces, piecesMissing, totalDownloaded, missingCount)
      ensures LostPieces() <= old(LostPieces()) + Dropped(numberOfPieces, old(bitfield), scanned)
    {
      hide Board.Lost, AllGood, EligiblePieces, Exact, RecheckedLengths, Get, SumBits, CountBits;
      ghost var b := View();
      RecheckEligible(numberOfPieces, files, pieceLength, totalBytes, bitfield, scanned, verifying);
      var lengths, missing, downloaded, count := TallyPieces(scanned, numberOfPieces, pieceLength, totalBytes);
      RecheckedFit(numberOfPieces, pieceLength, totalBytes);
      bitfield, piecesMissing, missingCount, totalDownloaded, lengthOf := scanned, missing, count, downloaded, lengths;
      OnlyNewcomersGetLost(b, View().eligible, Dropped(numberOfPieces, old(bitfield), scanned));
    }

    /** Hashes a piece block by block from storage and compares it with the torrent's hash. */
    method CheckPieceHashStreaming(p: nat, length: nat) returns (ok: bool)
      requires HASH_LENGTH * (p + 1) <= |piecesInfoHash|
      ensures ok <==> StoredGood(sha1, piecesInfoHash, pieceLength, storage, p, length)
    {
      var bytes := ReadInBlocks(storage, PieceStart(p, pieceLength), length, BLOCK_SIZE);
      ok := bytes.Some? && sha1(bytes.value) == ExpectedHash(piecesInfoHash, p);
    }

    /** `report_bad_peer`: the third strike removes the peer without unmerging its bitfield. */
    method ReportBadPeer(ip: string)
      requires |swarm| <= MAXIMUM_SWARM_SIZE && (orderly ==> Exact(swarm, peerCount))
      modifies this`badScores, this`swarm, this`orderly
      ensures |swarm| <= MAXIMUM_SWARM_SIZE && (orderly ==> Exact(swarm, peerCount))
      ensures badScores == Blamed(old(badScores), ip)
      ensures swarm == if badScores[ip] >= 3 then Without(old(swarm), ip) else old(swarm)
      ensures orderly <==> old(orderly) && (badScores[ip] >= 3 && ip in old(swarm) ==> HoldsNone(old(swarm)[ip].remote, |peerCount|))
    {
      hide Exact, HoldsNone;
      badScores := Blamed(badScores, ip);
      if badScores[ip] >= 3 {
        WithoutSize(swarm, ip);
        if ip in swarm {
          if orderly && HoldsNone(swarm[ip].remote, |peerCount|) {
            ForgetKeepsExact(swarm, peerCount, ip);
          }
          orderly := orderly && HoldsNone(swarm[ip].remote, |peerCount|);
        }
        hide Without;
        swarm := Without(swarm, ip);
      }
    }

    method ReportBadPeers(sources: seq<Option<string>>)
      requires |swarm| <= MAXIMUM_SWARM_SIZE && (orderly ==> Exact(swarm, peerCount))
      modifies this`badScores, this`swarm, this`orderly
      ensures |swarm| <= MAXIMUM_SWARM_SIZE && (orderly ==> old(orderly) && Exact(swarm, peerCount))
      ensures (badScores, swarm) == BlameAll(old(badScores), old(swarm), sources, |sources|)
      ensures swarm.Keys == old(swarm.Keys) ==> orderly == old(orderly)
    {
      hide Exact, HoldsNone, Without;
      for i := 0 to |sources|
        invariant |swarm| <= MAXIMUM_SWARM_SIZE && (orderly ==> old(orderly) && Exact(swarm, peerCount))
        invariant (badScores, swarm) == BlameAll(old(badScores), old(swarm), sources, i)
        invariant swarm.Keys <= old(swarm.Keys) && (swarm.Keys == old(swarm.Keys) ==> orderly == old(orderly))
      {
        if sources[i].Some? {
          ReportBadPeer(sources[i].value);
        }
      }
    }

    /** Records a piece whose stored bytes are known to be good. */
    method AcceptPiece(piece: nat, length: nat)
      requires Valid() && piece < numberOfPieces && length == lengthOf[piece]
      requires !asyncVerification ==> StoredGood(sha1, piecesInfoHash, pieceLength, storage, piece, length)
      modifies this`bitfield, this`piecesMissing, this`missingCount, this`totalDownloaded, this`lengthOf, this`requested
      ensures Valid() && LostPieces() <= old(LostPieces())
      ensures bitfield == Put(old(bitfield), piece, true) && piecesMissing == Put(old(piecesMissing), piece, false)
      ensures lengthOf == old(lengthOf) && requested == WithoutPiece(old(requested), piece)
      ensures totalDownloaded == old(totalDownloaded) + if Get(old(bitfield), piece) then 0 else length
    {
      hide Board.Lost, HeapFits, Balanced, JobsMatch, AllGood, Exact, EligiblePieces, StoredGood, Get, Put;
      if !asyncVerification {
        MarkKeepsGood(sha1, piecesInfoHash, pieceLength, storage, bitfield, lengthOf, piece);
      }
      LostAfter(numberOfPieces, files, pieceLength, totalBytes, peerCount, pq, bitfield, Put(bitfield, piece, true), verifying, verifying, piece);
      UpdateBitfieldStatus(piece, true, length);
      assert lengthOf == old(lengthOf);
      requested := WithoutPiece(requested, piece);
    }

    /** Drops a piece that failed its hash check and blames its sources. */
    method RejectPiece(piece: nat, length: nat, sources: seq<Option<string>>, found: Storage)
      requires Valid() && piece < numberOfPieces && length == lengthOf[piece]
      requires !asyncVerification ==> !IsPieceLocal(piece)
      modifies this`piecesMissing, this`missingCount, this`requested, this`storage, this`badScores, this`swarm, this`orderly
      ensures Valid()
      ensures storage == Discard(old(storage), PieceStart(piece, pieceLength), length, found)
      ensures piecesMissing == Put(old(piecesMissing), piece, true) && requested == WithoutPiece(old(requested), piece)
      ensures (badScores, swarm) == BlameAll(old(badScores), old(swarm), sources, |sources|)
      ensures (orderly ==> old(orderly)) && (swarm == old(swarm) ==> orderly == old(orderly))
    {
      hide Valid, PieceStart, Discard, BlameAll, Put, WithoutPiece;
      requested := WithoutPiece(requested, piece);
      DiscardPiece(piece, length, found);
      BlameSources(sources);
      MarkRejected(piece);
    }

    method DiscardPiece(piece: nat, length: nat, found: Storage)
      requires Valid() && piece < numberOfPieces && length == lengthOf[piece] && (!asyncVerification ==> !IsPieceLocal(piece))
      modifies this`storage
      ensures Valid() && storage == Discard(old(storage), PieceStart(piece, pieceLength), length, found)
    {
      hide HeapFits, Balanced, JobsMatch, AllGood, Exact, Get, Discard, SameOutside, PieceStart;
      var start := PieceStart(piece, pieceLength);
      var after := Discard(storage, start, length, found);
      if !asyncVerification {
        WriteKeepsGood(sha1, piecesInfoHash, pieceLength, storage, after, bitfield, lengthOf, piece, start, start, start + length);
      }
      storage := after;
    }

    method BlameSources(sources: seq<Option<string>>)
      requires Valid()
      modifies this`badScores, this`swarm, this`orderly
      ensures Valid() && (badScores, swarm) == BlameAll(old(badScores), old(swarm), sources, |sources|)
      ensures (orderly ==> old(orderly)) && (swarm == old(swarm) ==> orderly == old(orderly))
    {
      hide Shape, HeapFits, Balanced, JobsMatch, AllGood, Exact, BlameAll;
      ReportBadPeers(sources);
    }

    method MarkRejected(piece: nat)
      requires Valid()
      modifies this`piecesMissing, this`missingCount
      ensures Valid() && piecesMissing == Put(old(piecesMissing), piece, true)
    {
      hide HeapFits, JobsMatch, AllGood, Exact, SumBits, CountBits, Put;
      MissingStaysCounted(piecesMissing, missingCount, piece, true);
      MarkPieceMissing(piece, true);
    }

    /** Hands a completed piece to the background pool. */
    method SubmitPiece(piece: nat, length: nat, sources: seq<Option<string>>)
      requires Valid() && asyncVerification && piece < numberOfPieces && length == lengthOf[piece]
      modifies this`verifying, this`jobs
      ensures Valid() && LostPieces() <= old(LostPieces())
      ensures verifying == old(verifying) + {piece} && jobs == old(jobs) + [Job(piece, length, sources)]
    {
      hide Board.Lost, HeapFits, Balanced, JobsMatch, Exact, EligiblePieces, Get;
      LostAfter(numberOfPieces, files, pieceLength, totalBytes, peerCount, pq, bitfield, bitfield, verifying, verifying + {piece}, piece);
      JobAppended(jobs, lengthOf, Job(piece, length, sources));
      verifying := verifying + {piece};
      jobs := jobs + [Job(piece, length, sources)];
    }

    /** Takes a piece out of background verification: at most that piece loses its heap entry. */
    method EndVerification(piece: nat)
      requires Valid()
      modifies this`verifying
      ensures Valid() && LostPieces() <= old(LostPieces()) + if piece in old(verifying) then {piece} else {}
      ensures verifying == old(verifying) - {piece}
    {
      hide Board.Lost, HeapFits, Balanced, JobsMatch, AllGood, Exact, EligiblePieces, Get;
      LostAfter(numberOfPieces, files, pieceLength, totalBytes, peerCount, pq, bitfield, bitfield, verifying, verifying - {piece}, piece);
      verifying := verifying - {piece};
    }

    /** The verdict on a piece: recorded as local if good, otherwise discarded and its sources blamed. */
    method Conclude(piece: nat, length: nat, sources: seq<Option<string>>, found: Storage, good: bool)
      requires Valid() && piece < numberOfPieces && length == lengthOf[piece]
      requires !asyncVerification ==> !IsPieceLocal(piece) && (good <==> StoredGood(sha1, piecesInfoHash, pieceLength, storage, piece, length))
      modifies this`bitfield, this`piecesMissing, this`missingCount, this`totalDownloaded, this`lengthOf, this`requested,
               this`storage, this`badScores, this`swarm, this`orderly
      ensures Valid() && LostPieces() <= old(LostPieces()) && lengthOf == old(lengthOf)
      ensures requested == WithoutPiece(old(requested), piece) && piecesMissing == Put(old(piecesMissing), piece, !good)
      ensures bitfield == if good then Put(old(bitfield), piece, true) else old(bitfield)
      ensures storage == if good then old(storage) else Discard(old(storage), PieceStart(piece, pieceLength), length, found)
      ensures (badScores, swarm) == if good then (old(badScores), old(swarm)) else BlameAll(old(badScores), old(swarm), sources, |sources|)
      ensures (orderly ==> old(orderly)) && (swarm == old(swarm) ==> orderly == old(orderly))
    {
      hide Board.Lost, Shape, HeapFits, Balanced, JobsMatch, AllGood, Exact, EligiblePieces, StoredGood, Get, Put, Discard, BlameAll, WithoutPiece;
      if good {
        AcceptPiece(piece, length);
      } else {
        RejectPiece(piece, length, sources, found);
      }
    }

    /**
      `apply_piece_verification_result`: a piece that fails in the background becomes
      eligible again and is the only one whose heap entry may be missing.
     */
    method ApplyVerificationResult(k: nat, good: bool, found: Storage)
      requires Valid() && k < |jobs|
      modifies this`bitfield, this`piecesMissing, this`missingCount, this`totalDownloaded, this`lengthOf, this`requested,
               this`storage, this`badScores, this`swarm, this`orderly, this`verifying, this`jobs
      ensures Valid() && asyncVerification && lengthOf == old(lengthOf) && jobs == old(jobs[..k] + jobs[k + 1..])
      ensures verifying == old(verifying - {jobs[k].piece})
      ensures LostPieces() <= old(LostPieces()) + old({jobs[k].piece}) && (good ==> LostPieces() <= old(LostPieces()))
      ensures bitfield == if good then Put(old(bitfield), old(jobs[k].piece), true) else old(bitfield)
      ensures storage == if good then old(storage) else Discard(old(storage), PieceStart(old(jobs[k].piece), pieceLength), old(jobs[k].length), found)
      ensures (badScores, swarm) == if good then (old(badScores), old(swarm))
                                    else var sources := old(jobs[k].sources); BlameAll(old(badScores), old(swarm), sources, |sources|)
      ensures (orderly ==> old(orderly)) && (swarm == old(swarm) ==> orderly == old(orderly))
    {
      hide Board.Lost, HeapFits, Balanced, JobsMatch, AllGood, Exact, EligiblePieces, StoredGood, Get, Put, Discard, BlameAll, WithoutPiece;
      var job := jobs[k];
      JobRemoved(jobs, lengthOf, k);
      jobs := jobs[..k] + jobs[k + 1..];
      EndVerification(job.piece);
      Conclude(job.piece, job.length, job.sources, found, good);
      if good {
        LostAfter(numberOfPieces, files, pieceLength, totalBytes, peerCount, pq, old(bitfield), bitfield, old(verifying), verifying, job.piece);
      }
    }

    /** What happens once the last block of a piece is stored: hand it to the pool or verify it now. */
    method FinishPiece(piece: nat, length: nat, sources: seq<Option<string>>, env: Environment) returns (r: Outcome)
      requires Valid() && piece < numberOfPieces && length == lengthOf[piece] && !IsPieceLocal(piece)
      modifies this`bitfield, this`piecesMissing, this`missingCount, this`totalDownloaded, this`lengthOf, this`requested,
               this`storage, this`badScores, this`swarm, this`orderly, this`verifying, this`jobs
      ensures Valid() && lengthOf == old(lengthOf)
      ensures (orderly ==> old(orderly)) && (swarm == old(swarm) ==> orderly == old(orderly))
      ensures LostPieces() <= old(LostPieces()) + if piece in old(verifying) && !env.submitOk then {piece} else {}
      ensures var good := StoredGood(sha1, piecesInfoHash, pieceLength, old(storage), piece, length);
        if asyncVerification && env.submitOk then
          && r == Done(true) && jobs == old(jobs) + [Job(piece, length, sources)] && verifying == old(verifying) + {piece}
          && bitfield == old(bitfield) && storage == old(storage)
        else
          && jobs == old(jobs) && verifying == (if asyncVerification then old(verifying) - {piece} else old(verifying))
          && r == (if good then Done(true) else Rejected(PieceHashMismatch))
          && bitfield == (if good then Put(old(bitfield), piece, true) else old(bitfield))
          && storage == if good then old(storage) else Discard(old(storage), PieceStart(piece, pieceLength), length, env.found)
      ensures (badScores, swarm) == if r == Rejected(PieceHashMismatch) then BlameAll(old(badScores), old(swarm), sources, |sources|)
                                    else (old(badScores), old(swarm))
      ensures !(asyncVerification && env.submitOk) ==>
        requested == WithoutPiece(old(requested), piece) && piecesMissing == Put(old(piecesMissing), piece, r.Rejected?)
    {
      hide Board.Lost, HeapFits, Balanced, JobsMatch, AllGood, Exact, EligiblePieces, StoredGood, Get, Put, Discard, BlameAll, WithoutPiece;
      if asyncVerification {
        if env.submitOk {
          SubmitPiece(piece, length, sources);
          return Done(true);
        }
        EndVerification(piece);
      }
      var good := CheckPieceHashStreaming(piece, length);
      Conclude(piece, length, sources, env.found, good);
      return if good then Done(true) else Rejected(PieceHashMismatch);
    }

    /**
      Stores one block of a piece that is not local.  `None` means the buffer
      holds the block; otherwise the arrival ends here.
     */
    method StoreBlock(piece: nat, begin: nat, block: Bytes, ip: string, env: Environment) returns (r: Option<Outcome>)
      requires Valid() && piece < numberOfPieces && !IsPieceLocal(piece) && begin + |block| <= lengthOf[piece]
      modifies this`buffers, this`storage
      ensures Valid()
      ensures SameOutside(old(storage), storage, PieceStart(piece, pieceLength) + begin, PieceStart(piece, pieceLength) + begin + |block|)
      ensures piece in buffers && buffers == old(buffers)[piece := buffers[piece]]
      ensures
        var sources := BufferFor(old(buffers), piece, lengthOf[piece]).sources;
        var index := begin / BLOCK_SIZE;
        if index < |sources| && sources[index].Some? then
          r == None && buffers[piece].sources == sources && storage == old(storage)
        else if !env.blockAccepted then
          r == Some(Rejected(BlockHashMismatch)) && buffers[piece].sources == sources && storage == old(storage)
        else if !env.writeOk then
          r == Some(Rejected(WriteFailed)) && buffers[piece].sources == sources
        else
          && storage == Write(old(storage), PieceStart(piece, pieceLength) + begin, block)
          && if index >= |sources| then r == Some(Aborted)
             else r == None && buffers[piece].sources == sources[index := Some(ip)]
      ensures if Held(old(buffers), piece, lengthOf[piece], begin, env.blockAccepted, env.writeOk)
              then r == None && DiskNow() == Placed(LayoutNow(), old(DiskNow()), piece, begin, block, ip)
              else r == Some(Refusal(env.blockAccepted, env.writeOk))
    {
      hide Valid, Write, SameOutside, PieceStart, FreshBuffer;
      SameOutsideSelf(storage);
      LengthsFit();
      var index := begin / BLOCK_SIZE;
      var buffer := BufferFor(buffers, piece, lengthOf[piece]);
      buffers := buffers[piece := buffer];
      if index < |buffer.sources| && buffer.sources[index].Some? {
        return None;
      }
      if !env.blockAccepted {
        return Some(Rejected(BlockHashMismatch));
      }
      WriteBlock(piece, begin, |block|, if env.writeOk || env.written >= |block| then block else block[..env.written]);
      if !env.writeOk {
        return Some(Rejected(WriteFailed));
      }
      if index >= |buffer.sources| {
        return Some(Aborted);
      }
      buffers := buffers[piece := PieceBuffer(buffer.sources[index := Some(ip)])];
      return None;
    }

    /** Writes what reaches storage of a block of the given size. */
    method WriteBlock(piece: nat, begin: nat, size: nat, bytes: Bytes)
      requires Valid() && piece < numberOfPieces && !IsPieceLocal(piece) && |bytes| <= size && begin + size <= lengthOf[piece]
      modifies this`storage
      ensures Valid() && storage == Write(old(storage), PieceStart(piece, pieceLength) + begin, bytes)
      ensures SameOutside(old(storage), storage, PieceStart(piece, pieceLength) + begin, PieceStart(piece, pieceLength) + begin + size)
    {
      hide HeapFits, Balanced, JobsMatch, AllGood, Exact, Get, Write, SameOutside, PieceStart;
      var start := PieceStart(piece, pieceLength);
      var after := Write(storage, start + begin, bytes);
      WriteStaysInside(storage, start + begin, bytes, size);
      if !asyncVerification {
        WriteKeepsGood(sha1, piecesInfoHash, pieceLength, storage, after, bitfield, lengthOf, piece, start, start + begin, start + begin + size);
      }
      storage := after;
    }

    /** Takes a complete piece out of its buffer and has it verified. */
    method CollectPiece(piece: nat, length: nat, env: Environment) returns (r: Outcome)
      requires Valid() && piece < numberOfPieces && length == lengthOf[piece] && piece in buffers && !IsPieceLocal(piece)
      modifies this`bitfield, this`piecesMissing, this`missingCount, this`totalDownloaded, this`lengthOf, this`requested,
               this`storage, this`badScores, this`swarm, this`orderly, this`verifying, this`jobs, this`buffers, this`committed
      ensures Valid() && lengthOf == old(lengthOf)
      ensures (orderly ==> old(orderly)) && (swarm == old(swarm) ==> orderly == old(orderly))
      ensures verifying <= old(verifying) + {piece} && (!asyncVerification ==> verifying == old(verifying))
      ensures LostPieces() <= old(LostPieces()) + if piece in old(verifying) && !env.submitOk then {piece} else {}
      ensures (DiskNow(), r) == Collected(LayoutNow(), old(DiskNow()), piece, asyncVerification && env.submitOk, env.found)
      ensures SameOutside(old(storage), storage, PieceStart(piece, pieceLength), PieceStart(piece, pieceLength) + length)
      ensures if r == Done(true) && asyncVerification && env.submitOk
              then jobs == old(jobs + [Job(piece, length, buffers[piece].sources)]) && verifying == old(verifying) + {piece}
              else jobs == old(jobs)
      ensures (badScores, swarm) == if r == Rejected(PieceHashMismatch)
                                    then var sources := old(buffers[piece].sources); BlameAll(old(badScores), old(swarm), sources, |sources|)
                                    else (old(badScores), old(swarm))
    {
      hide Board.Lost, Valid, StoredGood, Get, Put, Discard, WithoutPiece, EligiblePieces, SameOutside, PieceStart;
      SameOutsideSelf(storage);
      var buffer := buffers[piece];
      if !buffer.Complete() {
        return Done(false);
      }
      buffers := buffers - {piece};
      if adaptiveEndgame {
        committed := WithoutPiece(committed, piece);
      }
      r := FinishPiece(piece, length, buffer.sources, env);
    }

    /** Stores a block and, if that completes its piece, has the piece verified. */
    method PlaceBlock(piece: nat, length: nat, begin: nat, block: Bytes, ip: string, env: Environment) returns (r: Outcome)
      requires Valid() && piece < numberOfPieces && length == lengthOf[piece]
      requires !IsPieceLocal(piece) && begin + |block| <= length
      modifies this`bitfield, this`piecesMissing, this`missingCount, this`totalDownloaded, this`lengthOf, this`requested,
               this`storage, this`badScores, this`swarm, this`orderly, this`verifying, this`jobs, this`buffers, this`committed
      ensures Valid() && lengthOf == old(lengthOf)
      ensures (orderly ==> old(orderly)) && (swarm == old(swarm) ==> orderly == old(orderly))
      ensures verifying <= old(verifying) + {piece} && (!asyncVerification ==> verifying == old(verifying))
      ensures LostPieces() <= old(LostPieces()) + if piece in old(verifying) && !env.submitOk then {piece} else {}
      ensures SameOutside(old(storage), storage, PieceStart(piece, pieceLength), PieceStart(piece, pieceLength) + length)
      ensures if Held(old(buffers), piece, length, begin, env.blockAccepted, env.writeOk)
              then (DiskNow(), r) == Arrived(LayoutNow(), old(DiskNow()), piece, begin, block, ip, asyncVerification && env.submitOk, env.found)
              else r == Refusal(env.blockAccepted, env.writeOk) && bitfield == old(bitfield)
      ensures
        var sources := SourcesWith(old(buffers), piece, length, begin / BLOCK_SIZE, ip);
        && (badScores, swarm) == (if r == Rejected(PieceHashMismatch) then BlameAll(old(badScores), old(swarm), sources, |sources|)
                                  else (old(badScores), old(swarm)))
        && if r == Done(true) && asyncVerification && env.submitOk
           then jobs == old(jobs) + [Job(piece, length, sources)] && verifying == old(verifying) + {piece}
           else jobs == old(jobs)
    {
      hide Valid, Board.Lost, EligiblePieces, SourcesWith, Collected, BlameAll, StoredGood, Get, Put, Write, SameOutside, PieceStart, FreshBuffer;
      ghost var before, start := storage, PieceStart(piece, pieceLength);
      SameOutsideSelf(storage);
      var early := StoreBlock(piece, begin, block, ip, env);
      ghost var stored := storage;
      SameOutsideChain(before, stored, stored, start + begin, start + begin + |block|, start, start + length);
      if early.Some? {
        return early.value;
      }
      r := CollectPiece(piece, length, env);
      SameOutsideChain(before, stored, storage, start, start + length, start, start + length);
    }

    /** Adaptive endgame has already committed this block. */
    predicate Absorbed(piece: nat, begin: nat)
      reads this`committed
    {
      adaptiveEndgame && (piece, begin / BLOCK_SIZE) in committed
    }

    /** `process_piece_block` after its argument checks, for a piece that is not local. */
    method TakeBlock(piece: nat, length: nat, begin: nat, block: Bytes, ip: string, env: Environment) returns (r: Outcome)
      requires Valid() && piece < numberOfPieces && length == lengthOf[piece]
      requires !IsPieceLocal(piece) && begin + |block| <= length
      modifies this`bitfield, this`piecesMissing, this`missingCount, this`totalDownloaded, this`lengthOf, this`requested,
               this`storage, this`badScores, this`swarm, this`orderly, this`verifying, this`jobs, this`buffers, this`committed
      ensures Valid() && lengthOf == old(lengthOf)
      ensures (orderly ==> old(orderly)) && (swarm == old(swarm) ==> orderly == old(orderly))
      ensures verifying <= old(verifying) + {piece} && (!asyncVerification ==> verifying == old(verifying))
      ensures LostPieces() <= old(LostPieces()) + if piece in old(verifying) && !env.submitOk then {piece} else {}
      ensures SameOutside(old(storage), storage, PieceStart(piece, pieceLength), PieceStart(piece, pieceLength) + length)
      ensures if old(Absorbed(piece, begin)) then r == Done(false) && DiskNow() == old(DiskNow())
              else if Held(old(buffers), piece, length, begin, env.blockAccepted, env.writeOk)
              then (DiskNow(), r) == Arrived(LayoutNow(), old(DiskNow()), piece, begin, block, ip, asyncVerification && env.submitOk, env.found)
              else r == Refusal(env.blockAccepted, env.writeOk) && bitfield == old(bitfield)
      ensures
        var sources := SourcesWith(old(buffers), piece, length, begin / BLOCK_SIZE, ip);
        && (badScores, swarm) == (if r == Rejected(PieceHashMismatch) then BlameAll(old(badScores), old(swarm), sources, |sources|)
                                  else (old(badScores), old(swarm)))
        && if r == Done(true) && asyncVerification && env.submitOk
           then jobs == old(jobs) + [Job(piece, length, sources)] && verifying == old(verifying) + {piece}
           else jobs == old(jobs)
    {
      hide Valid, LostPieces, Arrived, Held, SourcesWith, BlameAll, Get, SameOutside, PieceStart;
      SameOutsideSelf(storage);
      if adaptiveEndgame {
        if (piece, begin / BLOCK_SIZE) in committed {
          return Done(false);
        }
        committed := committed + {(piece, begin / BLOCK_SIZE)};
      }
      r := PlaceBlock(piece, length, begin, block, ip, env);
    }

    /**
      `process_piece_block`.  Whatever arrives, storage changes only inside the
      named piece and only if that piece is not local.  A held block does to
      buffers, storage and bitfield what Arrived says: outside the pool a completed
      piece becomes local exactly if its stored bytes hash to what the torrent
      promises, and is rejected otherwise.
     */
    method ProcessPieceBlock(piece: nat, begin: nat, block: Bytes, ip: string, env: Environment) returns (r: Outcome)
      requires Valid() && |block| < U32_SIZE
      modifies this`bitfield, this`piecesMissing, this`missingCount, this`totalDownloaded, this`lengthOf, this`requested,
               this`storage, this`badScores, this`swarm, this`orderly, this`verifying, this`jobs, this`buffers, this`committed
      ensures Valid() && lengthOf == old(lengthOf)
      ensures (orderly ==> old(orderly)) && (swarm == old(swarm) ==> orderly == old(orderly))
      ensures verifying <= old(verifying) + {piece} && (!asyncVerification ==> verifying == old(verifying))
      ensures LostPieces() <= old(LostPieces()) + if piece in old(verifying) && !env.submitOk then {piece} else {}
      ensures verifying <= old(verifying) + if piece < numberOfPieces then {piece} else {}
      ensures r == Rejected(InvalidPieceIndex) <==> piece >= numberOfPieces
      ensures r == Rejected(NotAligned) <==> piece < numberOfPieces && begin % BLOCK_SIZE != 0
      ensures r == Rejected(OutOfBounds) <==>
        piece < numberOfPieces && begin % BLOCK_SIZE == 0 && (begin + |block| >= U32_SIZE || begin + |block| > lengthOf[piece])
      ensures r in {Rejected(InvalidPieceIndex), Rejected(NotAligned), Rejected(OutOfBounds)} || old(IsPieceLocal(piece)) ==>
        DiskNow() == old(DiskNow()) && jobs == old(jobs) && committed == old(committed)
      ensures piece < numberOfPieces ==>
        SameOutside(old(storage), storage, PieceStart(piece, pieceLength), PieceStart(piece, pieceLength) + lengthOf[piece])
      ensures bitfield != old(bitfield) ==>
        && bitfield == Put(old(bitfield), piece, true) && r == Done(true) && piece < numberOfPieces
        && StoredGood(sha1, piecesInfoHash, pieceLength, storage, piece, lengthOf[piece])
      ensures r != Rejected(PieceHashMismatch) ==> badScores == old(badScores) && swarm == old(swarm)
      ensures r == Done(true) || r == Rejected(PieceHashMismatch) ==>
        && buffers == old(buffers) - {piece} && piece < numberOfPieces
        && var sources := SourcesWith(old(buffers), piece, lengthOf[piece], begin / BLOCK_SIZE, ip);
          && PieceBuffer(sources).Complete()
          && (r.Rejected? ==> (badScores, swarm) == BlameAll(old(badScores), old(swarm), sources, |sources|))
          && if r == Done(true) && asyncVerification && env.submitOk
             then jobs == old(jobs) + [Job(piece, lengthOf[piece], sources)] && verifying == old(verifying) + {piece} && bitfield == old(bitfield)
             else jobs == old(jobs)
      ensures r != Done(true) ==> jobs == old(jobs)
      ensures Fits(LayoutNow(), piece, begin, |block|) && !old(IsPieceLocal(piece)) ==>
        if old(Absorbed(piece, begin)) then r == Done(false) && DiskNow() == old(DiskNow())
        else if Held(old(buffers), piece, lengthOf[piece], begin, env.blockAccepted, env.writeOk)
        then (DiskNow(), r) == Arrived(LayoutNow(), old(DiskNow()), piece, begin, block, ip, asyncVerification && env.submitOk, env.found)
        else r == Refusal(env.blockAccepted, env.writeOk) && bitfield == old(bitfield)
    {
      hide Valid, LostPieces, Arrived, Held, SourcesWith, PieceBuffer.Complete, BlameAll, StoredGood, Get, Put, SameOutside, PieceStart, Absorbed;
      LengthsFit();
      SameOutsideSelf(storage);
      if piece >= numberOfPieces {
        return Rejected(InvalidPieceIndex);
      }
      if begin % BLOCK_SIZE != 0 {
        return Rejected(NotAligned);
      }
      var length := lengthOf[piece];
      if begin + |block| >= U32_SIZE || begin + |block| > length {
        return Rejected(OutOfBounds);
      }
      if IsPieceLocal(piece) {
        return Done(false);
      }
      ghost var l, d := LayoutNow(), DiskNow();
      ArrivedFacts(l, d, piece, begin, block, ip, asyncVerification && env.submitOk, env.found);
      r := TakeBlock(piece, length, begin, block, ip, env);
    }

    // -------------------------------------------------------------- whole runs

    method BlockArrives(piece: nat, begin: nat, block: Bytes, ip: string, env: Environment) returns (readmitted: set<nat>)
      requires Valid() && |block| < U32_SIZE
      modifies this
      ensures Valid() && (!asyncVerification ==> verifying == old(verifying))
      ensures LostPieces() <= old(LostPieces()) + readmitted
      ensures readmitted == if piece in old(verifying) && !env.submitOk then {piece} else {}
      ensures verifying <= old(verifying) + (if piece < numberOfPieces then {piece} else {})
      ensures forall j :: j in jobs ==> j in old(jobs) || (j.piece == piece && piece < numberOfPieces)
      ensures lengthOf == old(lengthOf) && BitsGrow(old(bitfield), bitfield)
      ensures BytesStay(pieceLength, lengthOf, old(bitfield), old(storage), storage)
      ensures (orderly ==> old(orderly)) && (swarm == old(swarm) ==> orderly == old(orderly))
      ensures Judged(old(badScores), old(swarm), badScores, swarm)
      ensures
        var e := Block(piece, begin, block, ip, env);
        !asyncVerification && !adaptiveEndgame && BuffersFit(LayoutNow(), old(buffers)) && Smooth(LayoutNow(), e) ==>
          DiskNow() == DiskStep(LayoutNow(), old(DiskNow()), e)
    {
      hide BuffersFit, Smooth, Arrived, Held, Valid, BitsGrow, BytesStay, PieceStart, Board.Lost, EligiblePieces, Get, Put, SameOutside, StoredGood, Judged, BlameAll, SourcesWith;
      readmitted := if piece in verifying && !env.submitOk then {piece} else {};
      LengthsFit();
      NoneJudged(badScores, swarm);
      ghost var e := Block(piece, begin, block, ip, env);
      if BuffersFit(LayoutNow(), buffers) && Smooth(LayoutNow(), e) && Fits(LayoutNow(), piece, begin, |block|) {
        SmoothIsHeld(LayoutNow(), DiskNow(), e);
      }
      var r := ProcessPieceBlock(piece, begin, block, ip, env);
      if r == Rejected(PieceHashMismatch) {
        ghost var sources := SourcesWith(old(buffers), piece, lengthOf[piece], begin / BLOCK_SIZE, ip);
        BlameJudges(old(badScores), old(swarm), sources, |sources|);
      }
      OneMoreBit(old(bitfield), bitfield, piece);
      OtherBytesStay(pieceLength, lengthOf, old(bitfield), old(storage), storage, piece);
    }

    method ResultArrives(k: nat, good: bool, found: Storage) returns (readmitted: set<nat>)
      requires Valid() && k < |jobs|
      modifies this
      ensures Valid() && asyncVerification
      ensures LostPieces() <= old(LostPieces()) + readmitted && readmitted == if good then {} else old({jobs[k].piece})
      ensures verifying <= old(verifying) && forall j :: j in jobs ==> j in old(jobs)
      ensures lengthOf == old(lengthOf) && BitsGrow(old(bitfield), bitfield)
      ensures (orderly ==> old(orderly)) && (swarm == old(swarm) ==> orderly == old(orderly))
      ensures Judged(old(badScores), old(swarm), badScores, swarm)
    {
      hide Valid, BitsGrow, Board.Lost, EligiblePieces, Get, Put, Discard, Judged, BlameAll;
      readmitted := if good then {} else {jobs[k].piece};
      ghost var piece, sources := jobs[k].piece, jobs[k].sources;
      NoneJudged(badScores, swarm);
      BlameJudges(badScores, swarm, sources, |sources|);
      ApplyVerificationResult(k, good, found);
      OneMoreBit(old(bitfield), bitfield, piece);
    }

    /** A peer comes, goes or tells about its pieces; messages of unknown peers are dropped. */
    method PeerStep(e: Event)
      requires Valid() && (e.Connect? || e.Disconnect? || Speaks(e))
      modifies this`swarm, this`peerCount, this`pq, this`orderly
      ensures Valid() && LostPieces() <= old(LostPieces())
      ensures (orderly ==> old(orderly)) && (old(orderly) && Polite(e, old(swarm), swarm, numberOfPieces) ==> orderly)
      ensures SwarmMoves(e, old(swarm), swarm)
    {
      hide Valid, LostPieces, EligiblePieces, HeapFits, Exact, HoldsNone, Get, Bumped, Filled, WithPiece;
      match e {
        case Connect(ip) => var _ := AddPeer(ip);
        case Disconnect(ip, locks) => RemovePeer(ip, locks);
        case Have(ip, index) => if ip in swarm { OnHave(ip, index); }
        case Bitfield(ip, bits) => if ip in swarm { OnBitfield(ip, bits); }
        case HaveAll(ip) => if ip in swarm { OnHaveAll(ip); }
        case HaveNone(ip) => if ip in swarm { OnHaveNone(ip); }
      }
    }

    /** Files change priority, are selected, or a peer is given a piece to fetch. */
    method QueueStep(e: Event)
      requires Valid() && (e.Prioritise? || e.Select? || e.Pick?)
      modifies this`files, this`requested, this`pq
      ensures Valid() && LostPieces() <= old(LostPieces())
    {
      hide Valid, LostPieces, IsFirstLive, IsRarest, CleanedUpTo, Rebuilt, KeptRequests, EligiblePieces;
      match e {
        case Prioritise(i, priority) => var _ := SetFilePriority(i, priority);
        case Select(indices) => ApplyFileSelection(indices);
        case Pick(peer) => var _ := PopRarestPiece(peer);
      }
    }

    /**
      One event.  `readmitted` are the pieces whose background verification ended
      without success: only they can be left without a heap entry.
     */
    method Step(e: Event) returns (readmitted: set<nat>)
      requires Valid() && (!asyncVerification ==> verifying == {})
      modifies this
      ensures Valid() && (!asyncVerification ==> verifying == {} && readmitted == {})
      ensures LostPieces() <= old(LostPieces()) + readmitted && readmitted == Readmits(e, old(verifying), old(jobs))
      ensures Suspects(verifying, jobs) <= Suspects(old(verifying), old(jobs)) + BlockPiece(e, numberOfPieces)
      ensures !asyncVerification && !adaptiveEndgame && BuffersFit(LayoutNow(), old(buffers)) && Smooth(LayoutNow(), e) ==>
        DiskNow() == DiskStep(LayoutNow(), old(DiskNow()), e)
      ensures lengthOf == old(lengthOf) && BitsGrow(old(bitfield), bitfield)
      ensures !asyncVerification ==> BytesStay(pieceLength, lengthOf, old(bitfield), old(storage), storage)
      ensures (orderly ==> old(orderly)) && (old(orderly) && Polite(e, old(swarm), swarm, numberOfPieces) ==> orderly)
      ensures SwarmMoves(e, old(swarm), swarm) && ScoresGrow(old(badScores), badScores)
      ensures if e.Block? || e.Verified? then NobodyOut(badScores) ==> swarm == old(swarm) else badScores == old(badScores)
    {
      hide BuffersFit, Smooth, DiskStep, Suspects, Judged, SwarmMoves, Polite, NobodyOut, ScoresGrow, Valid, BitsGrow, BytesStay, PieceStart, Board.Lost, EligiblePieces, HeapFits, Exact, HoldsNone, Get, Put, Discard, SameOutside, StoredGood, Bumped, Rebuilt, KeptRequests, IsFirstLive, IsRarest, CleanedUpTo;
      readmitted := {};
      NothingChanges(pieceLength, lengthOf, bitfield, storage);
      NoneJudged(badScores, swarm);
      IdleMoves(e, swarm, LayoutNow(), DiskNow());
      match e {
        case Block(piece, begin, block, ip, env) => if |block| < U32_SIZE { readmitted := BlockArrives(piece, begin, block, ip, env); }
        case Verified(k, good, found) => if k < |jobs| { readmitted := ResultArrives(k, good, found); }
        case Prioritise(_, _) => QueueStep(e);
        case Select(_) => QueueStep(e);
        case Pick(_) => QueueStep(e);
        case _ => PeerStep(e);
      }
      SuspectsGrow(old(verifying), old(jobs), verifying, jobs, BlockPiece(e, numberOfPieces));
      if e.Block? || e.Verified? {
        JudgedMoves(e, old(badScores), old(swarm), badScores, swarm, numberOfPieces);
      }
    }

    lemma LengthsFit()
      requires Valid()
      ensures |lengthOf| == numberOfPieces && forall p :: 0 <= p < numberOfPieces ==> lengthOf[p] <= pieceLength
    {
    }

    lemma OrderlyIsExact()
      requires Valid()
      ensures orderly ==> Exact(swarm, peerCount)
    {
    }

    /**
      Any run.  The invariant holds throughout, and the heap answers like the
      linear scan except for pieces re-admitted by background verification: with
      synchronous verification there are none.  Started with peers that hold
      nothing, peer counts are exact at the end if the run is fair, that is every
      wholesale announcement is the first thing its peer tells and no peer that
      has told anything leaves locked, and no peer has had three strikes.
     */
    method Run(events: seq<Event>) returns (readmitted: set<nat>)
      requires Valid() && (!asyncVerification ==> verifying == {})
      modifies this
      ensures Valid() && (!asyncVerification ==> verifying == {} && readmitted == {})
      ensures LostPieces() <= old(LostPieces()) + readmitted
      ensures (forall e :: e in events ==> !FailsLate(e)) ==> readmitted == {}
      ensures readmitted <= Suspects(old(verifying), old(jobs)) + BlockPieces(events, numberOfPieces, |events|)
      ensures !asyncVerification && !adaptiveEndgame && BuffersFit(LayoutNow(), old(buffers)) && (forall e :: e in events ==> Smooth(LayoutNow(), e)) ==>
        DiskNow() == DiskAfter(LayoutNow(), old(DiskNow()), events, |events|)
      ensures lengthOf == old(lengthOf) && BitsGrow(old(bitfield), bitfield)
      ensures !asyncVerification ==> BytesStay(pieceLength, lengthOf, old(bitfield), old(storage), storage)
      ensures ScoresGrow(old(badScores), badScores)
      ensures (forall e :: e in events ==> !e.Block? && !e.Verified?) ==> badScores == old(badScores)
      ensures old(orderly) && Silent(old(swarm), {}, numberOfPieces) && Fair(events) && NobodyOut(badScores) ==>
        orderly && Exact(swarm, peerCount)
    {
      hide BuffersFit, Smooth, DiskStep, Suspects, Readmits, BlockPiece, Valid, LostPieces, FailsLate, BitsGrow, BytesStay, Polite, Silent, Spoken, Fair, SwarmMoves, NobodyOut, ScoresGrow, Exact;
      readmitted := {};
      NothingChanges(pieceLength, lengthOf, bitfield, storage);
      NoneJudged(badScores, swarm);
      NoneSpoken(events);
      ghost var l := LayoutNow();
      ghost var smooth := !asyncVerification && !adaptiveEndgame && BuffersFit(l, buffers) && forall e :: e in events ==> Smooth(l, e);
      ghost var fair := orderly && Silent(swarm, {}, numberOfPieces) && Fair(events);
      for i := 0 to |events|
        invariant Valid() && (!asyncVerification ==> verifying == {} && readmitted == {})
        invariant LostPieces() <= old(LostPieces()) + readmitted
        invariant (forall e :: e in events ==> !FailsLate(e)) ==> readmitted == {}
        invariant readmitted <= Suspects(old(verifying), old(jobs)) + BlockPieces(events, numberOfPieces, i)
        invariant Suspects(verifying, jobs) <= Suspects(old(verifying), old(jobs)) + BlockPieces(events, numberOfPieces, i)
        invariant smooth ==> DiskNow() == DiskAfter(l, old(DiskNow()), events, i) && BuffersFit(l, DiskNow().buffers)
        invariant lengthOf == old(lengthOf) && BitsGrow(old(bitfield), bitfield)
        invariant !asyncVerification ==> BytesStay(pieceLength, lengthOf, old(bitfield), old(storage), storage)
        invariant ScoresGrow(old(badScores), badScores)
        invariant (forall e :: e in events ==> !e.Block? && !e.Verified?) ==> badScores == old(badScores)
        invariant fair && NobodyOut(badScores) ==> orderly && Silent(swarm, Spoken(events, i), numberOfPieces)
      {
        ghost var swarm0, scores0, bits0, storage0, disk0 := swarm, badScores, bitfield, storage, DiskNow();
        ReadmitsSuspects(events[i], verifying, jobs);
        if smooth {
          StepFits(l, disk0, events[i]);
        }
        var more := Step(events[i]);
        readmitted := readmitted + more;
        NobodyWasOut(scores0, badScores);
        ScoresChain(old(badScores), scores0, badScores);
        if fair && NobodyOut(badScores) {
          StaysSilent(events, i, swarm0, swarm, numberOfPieces);
        }
        GrowthChains(old(bitfield), bits0, bitfield);
        if !asyncVerification {
          StayingChains(pieceLength, lengthOf, old(bitfield), bits0, old(storage), storage0, storage);
        }
      }
      OrderlyIsExact();
    }
  }
}
