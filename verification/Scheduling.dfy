/**
  Rarest-first scheduling: what the linear scan of `library/src/core/views.rs`
  chooses, what the lazily cleaned heap of `library/src/core/torrent_context.rs`
  chooses, and exactly when they agree.
 */
module Scheduling {
  import opened Wrappers
  import opened Bitfields

  datatype PieceRarity = PieceRarity(peerCount: nat, pieceIndex: nat)

  /** The heap's order: fewer peers first, then the lower index. */
  predicate Before(a: PieceRarity, b: PieceRarity) {
    a.peerCount < b.peerCount || (a.peerCount == b.peerCount && a.pieceIndex <= b.pieceIndex)
  }

  type Heap = multiset<PieceRarity>

  ghost predicate IsTop(heap: Heap, t: PieceRarity) {
    t in heap && forall x :: x in heap ==> Before(t, x)
  }

  lemma {:induction false} TopExists(heap: Heap)
    requires heap != multiset{}
    ensures exists t :: IsTop(heap, t)
    decreases |heap|
  {
    var x :| x in heap;
    var rest := heap - multiset{x};
    assert heap == rest + multiset{x};
    if rest == multiset{} {
      assert IsTop(heap, x);
    } else {
      TopExists(rest);
      hide IsTop;
      var t :| IsTop(rest, t);
      TopJoins(heap, rest, x, t);
    }
  }

  lemma {:induction false} TopJoins(heap: Heap, rest: Heap, x: PieceRarity, t: PieceRarity)
    requires heap == rest + multiset{x} && IsTop(rest, t)
    ensures IsTop(heap, if Before(x, t) then x else t)
  {
    var best := if Before(x, t) then x else t;
    forall y | y in heap
      ensures Before(best, y)
    {
      assert y == x || y in rest;
    }
  }

  /**
    What scheduling depends on: the pieces that are wanted, not local and not
    being verified, the peer count of every piece, and the heap.
   */
  datatype Board = Board(eligible: set<nat>, count: seq<nat>, heap: Heap) {
    ghost predicate WellFormed() {
      && (forall p :: p in eligible ==> p < |count|)
      && (forall r :: r in heap ==> r.pieceIndex < |count|)
    }

    /** The up-to-date heap entry of a piece. */
    function Entry(p: nat): PieceRarity {
      PieceRarity(if p < |count| then count[p] else 0, p)
    }

    /** A heap entry is live if its piece is eligible and its count is current. */
    ghost predicate Live(r: PieceRarity) {
      r.pieceIndex in eligible && r.pieceIndex < |count| && count[r.pieceIndex] == r.peerCount
    }

    /** Eligible pieces without an up-to-date heap entry. */
    ghost function Lost(): set<nat> {
      set p | p in eligible && Entry(p) !in heap
    }
  }

  /** The scan's answer: the eligible piece of the peer with fewest peers, lowest index first. */
  ghost predicate IsRarest(b: Board, peer: set<nat>, r: Option<nat>)
    requires b.WellFormed()
  {
    match r
    case None => forall q :: q in b.eligible ==> q !in peer
    case Some(p) =>
      && p in b.eligible && p in peer
      && forall q :: q in b.eligible && q in peer ==> Before(b.Entry(p), b.Entry(q))
  }

  /** The board without the pieces whose count has reached the limit. */
  ghost function Counted(b: Board, limit: nat): (r: Board)
    requires b.WellFormed()
    ensures r.WellFormed() && ((forall p :: p in b.eligible ==> b.count[p] < limit) ==> r == b)
  {
    b.(eligible := set p | p in b.eligible && b.count[p] < limit)
  }

  /** The heap's answer: the first live entry whose piece the peer has. */
  ghost predicate IsFirstLive(b: Board, peer: set<nat>, r: Option<nat>)
    requires b.WellFormed()
  {
    match r
    case None => forall e :: e in b.heap && b.Live(e) ==> e.pieceIndex !in peer
    case Some(p) =>
      && p in b.eligible && p in peer && b.Entry(p) in b.heap
      && forall e :: e in b.heap && b.Live(e) && e.pieceIndex in peer ==> Before(b.Entry(p), e)
  }

  /** With nothing lost, the heap and the scan give the same answer for every peer. */
  lemma {:induction false} HeapAgreesWithScan(b: Board, peer: set<nat>, r: Option<nat>)
    requires b.WellFormed() && b.Lost() == {}
    ensures IsFirstLive(b, peer, r) <==> IsRarest(b, peer, r)
  {
    assert forall q :: q in b.eligible && b.Entry(q) !in b.heap ==> q in b.Lost();
    assert forall q :: q in b.eligible ==> b.Live(b.Entry(q));
    assert forall e :: b.Live(e) ==> e == b.Entry(e.pieceIndex);
  }

  /** The scan's answer is unique. */
  lemma {:induction false} RarestUnique(b: Board, peer: set<nat>, r: Option<nat>, s: Option<nat>)
    requires b.WellFormed() && IsRarest(b, peer, r) && IsRarest(b, peer, s)
    ensures r == s
  {
  }

  /** Exactness: heap and scan agree for all peers if and only if no piece is lost. */
  lemma {:induction false} AgreementIffNothingLost(b: Board)
    requires b.WellFormed()
    ensures (forall peer: set<nat>, r: Option<nat> :: IsFirstLive(b, peer, r) <==> IsRarest(b, peer, r)) <==> b.Lost() == {}
  {
    if b.Lost() == {} {
      forall peer: set<nat>, r: Option<nat>
        ensures IsFirstLive(b, peer, r) <==> IsRarest(b, peer, r)
      {
        HeapAgreesWithScan(b, peer, r);
      }
    } else {
      var p :| p in b.Lost();
      assert IsFirstLive(b, {p}, None) by {
        forall e | e in b.heap && b.Live(e)
          ensures e.pieceIndex !in {p}
        {
          assert e == b.Entry(e.pieceIndex);
        }
      }
      assert !IsRarest(b, {p}, None);
    }
  }

  // ---------------------------------------------------------------- peer counts

  /** One more peer, or one fewer without going below zero. */
  function Bump(c: nat, increment: bool): (r: nat) {
    if increment then c + 1 else if c == 0 then 0 else c - 1
  }

  /** The counts after a peer's bitfield has been applied to the first m pieces. */
  function Bumped(count: seq<nat>, remote: Bits, increment: bool, m: nat): (r: seq<nat>)
    requires m <= |count|
    ensures |r| == |count|
  {
    if m == 0 then count
    else
      var r := Bumped(count, remote, increment, m - 1);
      if Get(remote, m - 1) then r[m - 1 := Bump(count[m - 1], increment)] else r
  }

  /** The heap entries pushed while doing so. */
  function Pushes(count: seq<nat>, remote: Bits, increment: bool, m: nat): (r: Heap)
    requires m <= |count|
  {
    if m == 0 then multiset{}
    else
      var r := Pushes(count, remote, increment, m - 1);
      if Get(remote, m - 1) then r + multiset{PieceRarity(Bump(count[m - 1], increment), m - 1)} else r
  }

  /** Exactly the pieces the bitfield names change their count, each by one. */
  lemma {:induction false} BumpedValues(count: seq<nat>, remote: Bits, increment: bool, m: nat)
    requires m <= |count|
    ensures forall p :: 0 <= p < |count| ==>
      Bumped(count, remote, increment, m)[p] == if p < m && Get(remote, p) then Bump(count[p], increment) else count[p]
  {
    hide Get, Bump;
    if m > 0 {
      BumpedValues(count, remote, increment, m - 1);
    }
  }

  /** Every one of them gets an entry with its new count. */
  lemma {:induction false} PushedEntries(count: seq<nat>, remote: Bits, increment: bool, m: nat)
    requires m <= |count|
    ensures forall e :: e in Pushes(count, remote, increment, m) ==> e.pieceIndex < m
    ensures forall p :: 0 <= p < m && Get(remote, p) ==> PieceRarity(Bump(count[p], increment), p) in Pushes(count, remote, increment, m)
  {
    hide Get, Bump;
    if m > 0 {
      PushedEntries(count, remote, increment, m - 1);
    }
  }

  lemma {:induction false} CountStep(count: seq<nat>, remote: Bits, increment: bool, m: nat)
    requires m < |count|
    ensures Bumped(count, remote, increment, m)[m] == count[m]
    ensures Bumped(count, remote, increment, m + 1)
         == if Get(remote, m) then Bumped(count, remote, increment, m)[m := Bump(count[m], increment)]
            else Bumped(count, remote, increment, m)
    ensures Pushes(count, remote, increment, m + 1)
         == if Get(remote, m) then Pushes(count, remote, increment, m) + multiset{PieceRarity(Bump(count[m], increment), m)}
            else Pushes(count, remote, increment, m)
  {
    hide Get, Bump;
    BumpedValues(count, remote, increment, m);
  }

  /** One piece further, with the heap the entries are pushed onto. */
  lemma {:induction false} BumpStep(count: seq<nat>, remote: Bits, increment: bool, m: nat, heap: Heap)
    requires m < |count|
    ensures Bumped(count, remote, increment, m)[m] == count[m]
    ensures Bumped(count, remote, increment, m + 1)
         == if Get(remote, m) then Bumped(count, remote, increment, m)[m := Bump(count[m], increment)]
            else Bumped(count, remote, increment, m)
    ensures heap + Pushes(count, remote, increment, m + 1)
         == if Get(remote, m) then heap + Pushes(count, remote, increment, m) + multiset{PieceRarity(Bump(count[m], increment), m)}
            else heap + Pushes(count, remote, increment, m)
  {
    hide Bumped, Pushes, Get, Bump;
    CountStep(count, remote, increment, m);
  }

  /** Applying a bitfield to the counts and pushing what changed loses no piece. */
  lemma {:induction false} BumpLosesNothing(b: Board, remote: Bits, increment: bool)
    requires b.WellFormed()
    ensures var n := |b.count|;
      var after := Board(b.eligible, Bumped(b.count, remote, increment, n), b.heap + Pushes(b.count, remote, increment, n));
      after.WellFormed() && after.Lost() <= b.Lost()
  {
    hide Bumped, Pushes, Get, Bump;
    BumpedValues(b.count, remote, increment, |b.count|);
    PushedEntries(b.count, remote, increment, |b.count|);
  }

  lemma {:induction false} NothingPastEnd(remote: Bits, p: nat)
    requires 8 * |remote| <= p
    ensures !Get(remote, p)
  {
  }

  /** Pieces past the end of a bitfield are neither counted nor pushed. */
  lemma {:induction false} BumpPastEnd(count: seq<nat>, remote: Bits, increment: bool, m: nat, n: nat)
    requires m <= n <= |count| && 8 * |remote| <= m
    ensures Bumped(count, remote, increment, n) == Bumped(count, remote, increment, m)
    ensures Pushes(count, remote, increment, n) == Pushes(count, remote, increment, m)
    decreases n
  {
    if m < n {
      hide Bumped, Pushes, Get, Bump;
      NothingPastEnd(remote, n - 1);
      CountStep(count, remote, increment, n - 1);
      BumpPastEnd(count, remote, increment, m, n - 1);
    }
  }

  /** One count changes and its new entry is pushed: nothing is lost. */
  lemma {:induction false} PushOneLosesNothing(b: Board, p: nat, c: nat)
    requires b.WellFormed() && p < |b.count|
    ensures var after := Board(b.eligible, b.count[p := c], b.heap + multiset{PieceRarity(c, p)});
      after.WellFormed() && after.Lost() <= b.Lost()
  {
  }

  /** New eligible pieces are the only ones that can become lost. */
  lemma {:induction false} OnlyNewcomersGetLost(b: Board, eligible: set<nat>, extra: set<nat>)
    requires b.WellFormed() && eligible <= b.eligible + extra && forall p :: p in eligible ==> p < |b.count|
    ensures Board(eligible, b.count, b.heap).WellFormed()
    ensures Board(eligible, b.count, b.heap).Lost() <= b.Lost() + extra
  {
  }

  /**
    Re-admitting a piece, as a failed background verification does: nothing but
    that piece can get lost, and it is lost exactly if its current entry is no
    longer in the heap.
   */
  lemma {:induction false} ReadmissionExactly(b: Board, p: nat)
    requires b.WellFormed() && p < |b.count|
    ensures var after := Board(b.eligible + {p}, b.count, b.heap);
      after.WellFormed() && after.Lost() == if b.Entry(p) in b.heap then b.Lost() - {p} else b.Lost() + {p}
  {
  }

  // ---------------------------------------------------------------- the lazy query

  /**
    The state in which the query's search stops: `rest` is what is left of the
    heap, `kept` the live entries set aside because the peer lacks their piece,
    `dropped` the dead entries discarded.
   */
  ghost predicate Searching(b: Board, peer: set<nat>, rest: Heap, kept: Heap, dropped: Heap) {
    && b.heap == rest + kept + dropped
    && (forall e :: e in dropped ==> !b.Live(e))
    && (forall e :: e in kept ==> b.Live(e) && e.pieceIndex !in peer)
    && (forall e, x :: e in dropped && x in rest ==> Before(e, x))
  }

  ghost predicate SearchDone(b: Board, peer: set<nat>, rest: Heap, kept: Heap, dropped: Heap, r: Option<nat>)
    requires b.WellFormed()
  {
    && Searching(b, peer, rest, kept, dropped)
    && match r
       case None => rest == multiset{}
       case Some(p) => p in b.eligible && p in peer && IsTop(rest, b.Entry(p))
  }

  lemma {:induction false} SearchRange(b: Board, peer: set<nat>, rest: Heap, kept: Heap, dropped: Heap, top: PieceRarity)
    requires b.WellFormed() && Searching(b, peer, rest, kept, dropped) && IsTop(rest, top)
    ensures top.pieceIndex < |b.count|
  {
    assert top in b.heap;
  }

  lemma {:induction false} DropStep(b: Board, peer: set<nat>, rest: Heap, kept: Heap, dropped: Heap, top: PieceRarity, after: Heap)
    requires Searching(b, peer, rest, kept, dropped) && IsTop(rest, top) && !b.Live(top)
    requires rest == after + multiset{top}
    ensures Searching(b, peer, after, kept, dropped + multiset{top})
  {
  }

  lemma {:induction false} KeepStep(b: Board, peer: set<nat>, rest: Heap, kept: Heap, dropped: Heap, top: PieceRarity, after: Heap)
    requires Searching(b, peer, rest, kept, dropped) && IsTop(rest, top)
    requires b.Live(top) && top.pieceIndex !in peer
    requires rest == after + multiset{top}
    ensures Searching(b, peer, after, kept + multiset{top}, dropped)
  {
  }

  /** The heap after the query keeps all but the dead entries that precede the answer. */
  ghost predicate CleanedUpTo(b: Board, after: Heap, r: Option<nat>)
    requires b.WellFormed() && (r.Some? ==> r.value in b.eligible)
  {
    forall e :: after[e] == if b.Live(e) || (r.Some? && !Before(e, b.Entry(r.value))) then b.heap[e] else 0
  }

  lemma {:induction false} SearchAnswers(b: Board, peer: set<nat>, rest: Heap, kept: Heap, dropped: Heap, r: Option<nat>)
    requires b.WellFormed() && SearchDone(b, peer, rest, kept, dropped, r)
    ensures IsFirstLive(b, peer, r)
  {
    forall e | e in b.heap && b.Live(e) && e.pieceIndex in peer
      ensures e in rest
    {
      assert e in rest || e in kept || e in dropped;
    }
  }

  lemma {:induction false} SearchCleans(b: Board, peer: set<nat>, rest: Heap, kept: Heap, dropped: Heap, r: Option<nat>)
    requires b.WellFormed() && SearchDone(b, peer, rest, kept, dropped, r)
    ensures CleanedUpTo(b, rest + kept, r)
  {
    forall e
      ensures (rest + kept)[e] == if b.Live(e) || (r.Some? && !Before(e, b.Entry(r.value))) then b.heap[e] else 0
    {
      assert b.heap[e] == rest[e] + kept[e] + dropped[e];
      if b.Live(e) {
        assert e !in dropped;
      } else {
        assert e !in kept;
        if r.Some? {
          var t := b.Entry(r.value);
          assert b.Live(t);
          if Before(e, t) {
            assert e in rest ==> Before(t, e);
          } else {
            assert e in dropped ==> Before(e, t);
          }
        }
      }
    }
  }

  lemma {:induction false} CleaningLosesNothing(b: Board, after: Heap, r: Option<nat>)
    requires b.WellFormed() && (r.Some? ==> r.value in b.eligible) && CleanedUpTo(b, after, r)
    ensures Board(b.eligible, b.count, after).WellFormed()
    ensures Board(b.eligible, b.count, after).Lost() == b.Lost()
  {
    assert forall e :: after[e] <= b.heap[e];
    assert forall p :: p in b.eligible ==> b.Live(b.Entry(p));
  }

  /**
    A query that runs while piece p is being verified throws p's entry away, so
    that p is lost when its verification fails, exactly if the query found no
    piece or one that does not come before p.
   */
  lemma {:induction false} QueryDuringVerification(b: Board, after: Heap, r: Option<nat>, p: nat)
    requires b.WellFormed() && (r.Some? ==> r.value in b.eligible) && CleanedUpTo(b, after, r)
    requires p < |b.count| && p !in b.eligible && b.Entry(p) in b.heap
    ensures p in Board(b.eligible + {p}, b.count, after).Lost() <==> r == None || Before(b.Entry(p), b.Entry(r.value))
  {
    assert !b.Live(b.Entry(p));
    assert after[b.Entry(p)] == if r.Some? && !Before(b.Entry(p), b.Entry(r.value)) then b.heap[b.Entry(p)] else 0;
    assert Board(b.eligible + {p}, b.count, after).Entry(p) == b.Entry(p);
  }

  /** The smallest such run: the only piece fails its verification and the heap no longer offers it. */
  lemma {:induction false} FailedPieceCanVanish(after: Heap)
    requires CleanedUpTo(Board({}, [1], multiset{PieceRarity(1, 0)}), after, None)
    ensures IsRarest(Board({0}, [1], after), {0}, Some(0)) && IsFirstLive(Board({0}, [1], after), {0}, None)
  {
    var b := Board({}, [1], multiset{PieceRarity(1, 0)});
    QueryDuringVerification(b, after, None, 0);
    var c := Board({0}, [1], after);
    assert b.eligible + {0} == {0};
    assert c.Entry(0) !in c.heap;
  }

  /** Counts and heap once the first m bits of a bitfield are applied. */
  ghost predicate Applied(count: seq<nat>, heap: Heap, remote: Bits, increment: bool, m: nat, newCount: seq<nat>, newHeap: Heap) {
    && m <= |count|
    && newCount == Bumped(count, remote, increment, m)
    && newHeap == heap + Pushes(count, remote, increment, m)
  }

  lemma {:induction false} AppliedNone(count: seq<nat>, heap: Heap, remote: Bits, increment: bool)
    ensures Applied(count, heap, remote, increment, 0, count, heap)
  {
  }

  lemma {:induction false} AppliedWhole(count: seq<nat>, heap: Heap, remote: Bits, increment: bool, m: nat, newCount: seq<nat>, newHeap: Heap)
    requires Applied(count, heap, remote, increment, m, newCount, newHeap) && (m == |count| || 8 * |remote| <= m)
    ensures newCount == Bumped(count, remote, increment, |count|)
    ensures newHeap == heap + Pushes(count, remote, increment, |count|)
  {
    hide Bumped, Pushes;
    if m < |count| {
      BumpPastEnd(count, remote, increment, m, |count|);
    }
  }

  /** One bit of `update_piece_peer_counts`. */
  method BumpBit(count: seq<nat>, heap: Heap, remote: Bits, increment: bool, i: nat, k: nat, countSoFar: seq<nat>, heapSoFar: Heap)
      returns (newCount: seq<nat>, newHeap: Heap)
    requires i < |remote| && k < 8 && 8 * i + k < |count| == |countSoFar|
    requires Applied(count, heap, remote, increment, 8 * i + k, countSoFar, heapSoFar)
    ensures |newCount| == |count| && Applied(count, heap, remote, increment, 8 * i + k + 1, newCount, newHeap)
  {
    hide Bumped, Pushes, Bump, Get, Mask;
    var piece := 8 * i + k;
    newCount, newHeap := countSoFar, heapSoFar;
    BumpStep(count, remote, increment, piece, heap);
    GetAt(remote, i, k);
    if remote[i] & Mask(k) != 0 {
      newCount := newCount[piece := Bump(newCount[piece], increment)];
      newHeap := newHeap + multiset{PieceRarity(newCount[piece], piece)};
    }
  }

  /** `update_piece_peer_counts`: byte by byte and bit by bit, stopping at the last piece. */
  method BumpCounts(count: seq<nat>, heap: Heap, remote: Bits, increment: bool)
      returns (newCount: seq<nat>, newHeap: Heap)
    ensures newCount == Bumped(count, remote, increment, |count|)
    ensures newHeap == heap + Pushes(count, remote, increment, |count|)
  {
    hide Applied, Bumped, Pushes, Bump, Get;
    newCount, newHeap := count, heap;
    AppliedNone(count, heap, remote, increment);
    for i := 0 to |remote|
      invariant |newCount| == |count| && 8 * i <= |count|
      invariant Applied(count, heap, remote, increment, 8 * i, newCount, newHeap)
    {
      for k := 0 to 8
        invariant |newCount| == |count| && 8 * i + k <= |count|
        invariant Applied(count, heap, remote, increment, 8 * i + k, newCount, newHeap)
      {
        if 8 * i + k >= |count| {
          AppliedWhole(count, heap, remote, increment, 8 * i + k, newCount, newHeap);
          return;
        }
        newCount, newHeap := BumpBit(count, heap, remote, increment, i, k, newCount, newHeap);
      }
    }
    AppliedWhole(count, heap, remote, increment, 8 * |remote|, newCount, newHeap);
  }

  /** The top entry of the heap and what is left without it. */
  method PeekTop(heap: Heap) returns (t: PieceRarity, rest: Heap)
    requires heap != multiset{}
    ensures IsTop(heap, t) && heap == rest + multiset{t} && |rest| < |heap|
  {
    TopExists(heap);
    t :| t in heap && forall x | x in heap :: Before(t, x);
    rest := heap - multiset{t};
  }

  method PushAll(heap: Heap, items: seq<PieceRarity>) returns (r: Heap)
    ensures r == heap + multiset(items)
  {
    r := heap;
    for i := 0 to |items|
      invariant r == heap + multiset(items[..i])
    {
      assert items[..i + 1] == items[..i] + [items[i]];
      r := r + multiset{items[i]};
    }
    assert items[..|items|] == items;
  }
}
