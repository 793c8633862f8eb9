/**
  The pipelined metadata fetcher of `library/src/network/metadata_fetcher.rs`.  The
  clock is a parameter.
 */
module MetadataFetching {
  import opened Wrappers
  import opened Bencode
  import opened Manifests
  import opened MetadataPieces

  const MAX_METADATA_SIZE: nat := 50 * 1024 * 1024
  const PRIORITY_PIECES: seq<nat> := [0]

  /** A request under way: when it was sent and to whom. */
  datatype Flight = Flight(at: nat, peer: string)

  type Flights = map<nat, Flight>
  type Counts = map<string, nat>

  // ---------------------------------------------------------------- per-peer accounting

  function Count(c: Counts, ip: string): nat {
    if ip in c then c[ip] else 0
  }

  function Raised(c: Counts, ip: string): Counts {
    c[ip := Count(c, ip) + 1]
  }

  /** The saturating decrement of an existing counter. */
  function Lowered(c: Counts, ip: string): Counts {
    if ip in c then c[ip := if c[ip] == 0 then 0 else c[ip] - 1] else c
  }

  /** The pieces a peer actually has in flight. */
  function Held(f: Flights, ip: string): set<nat> {
    set p | p in f && f[p].peer == ip
  }

  /** The counter of every peer is its number of pieces in flight plus its own repeated requests. */
  ghost predicate Law(f: Flights, c: Counts, repeats: Counts) {
    forall ip :: Count(c, ip) == |Held(f, ip)| + Count(repeats, ip)
  }

  lemma {:induction false} ReleaseKeepsLaw(f: Flights, c: Counts, repeats: Counts, p: nat)
    requires Law(f, c, repeats) && p in f
    ensures Law(f - {p}, Lowered(c, f[p].peer), repeats)
    ensures forall ip :: Count(Lowered(c, f[p].peer), ip) <= Count(c, ip)
  {
    forall ip
      ensures Count(Lowered(c, f[p].peer), ip) == |Held(f - {p}, ip)| + Count(repeats, ip)
    {
      assert Count(c, ip) == |Held(f, ip)| + Count(repeats, ip);
      if ip == f[p].peer {
        assert p in Held(f, ip);
        assert Held(f - {p}, ip) == Held(f, ip) - {p};
      } else {
        assert Held(f - {p}, ip) == Held(f, ip);
      }
    }
  }

  lemma {:induction false} RequestKeepsLaw(f: Flights, c: Counts, repeats: Counts, p: nat, g: Flight)
    requires Law(f, c, repeats)
    ensures
      var freed := if p in f && f[p].peer != g.peer then Lowered(c, f[p].peer) else c;
      Law(f[p := g], Raised(freed, g.peer), if p in f && f[p].peer == g.peer then Raised(repeats, g.peer) else repeats)
  {
    var freed := if p in f && f[p].peer != g.peer then Lowered(c, f[p].peer) else c;
    var repeats' := if p in f && f[p].peer == g.peer then Raised(repeats, g.peer) else repeats;
    forall ip
      ensures Count(Raised(freed, g.peer), ip) == |Held(f[p := g], ip)| + Count(repeats', ip)
    {
      assert Count(c, ip) == |Held(f, ip)| + Count(repeats, ip);
      HeldAfter(f, p, g, ip);
    }
  }

  lemma {:induction false} HeldAfter(f: Flights, p: nat, g: Flight, ip: string)
    ensures |Held(f[p := g], ip)| + (if p in f && f[p].peer == ip then 1 else 0) == |Held(f, ip)| + (if g.peer == ip then 1 else 0)
  {
    var rest := Held(f, ip) - {p};
    assert Held(f[p := g], ip) == if g.peer == ip then rest + {p} else rest;
    assert p in Held(f, ip) <==> p in f && f[p].peer == ip;
    assert Held(f, ip) == if p in f && f[p].peer == ip then rest + {p} else rest;
  }

  ghost predicate AtMost(c: Counts, depth: nat) {
    forall ip :: Count(c, ip) <= depth
  }

  // ---------------------------------------------------------------- choosing requests

  /** Not received, and not in flight or timed out. */
  predicate Requestable(pieces: Pieces, f: Flights, timeout: nat, now: nat, p: nat) {
    p !in pieces && (p in f ==> (if now >= f[p].at then now - f[p].at else 0) >= timeout)
  }

  /**
    The clock readings of one call: at its start, when the priority piece is
    looked at, and when the scan looks at piece p.  Time does not go back.
   */
  datatype Readings = Readings(start: nat, early: nat, at: nat -> nat) {
    ghost predicate Forward() {
      start <= early && forall p :: early <= at(p)
    }
  }

  type Clock = c: Readings | c.Forward() witness Readings(0, 0, _ => 0)

  lemma {:induction false} StaysRequestable(pieces: Pieces, f: Flights, timeout: nat, now: nat, later: nat, p: nat)
    requires Requestable(pieces, f, timeout, now, p) && now <= later
    ensures Requestable(pieces, f, timeout, later, p)
  {
  }

  /** Piece p can be requested when it is looked at. */
  predicate Ready(pieces: Pieces, f: Flights, timeout: nat, at: nat -> nat, p: nat) {
    Requestable(pieces, f, timeout, at(p), p)
  }

  /** The first pieces, at most `allowed` of them, that can be requested when looked at, in increasing order. */
  ghost predicate FirstRequestable(pieces: Pieces, f: Flights, timeout: nat, at: nat -> nat, total: nat, allowed: nat, chosen: seq<nat>) {
    && |chosen| <= allowed
    && (forall i :: 0 <= i < |chosen| ==> chosen[i] < total && Ready(pieces, f, timeout, at, chosen[i]))
    && (forall i, j :: 0 <= i < j < |chosen| ==> chosen[i] < chosen[j])
    && (forall p :: 0 <= p < total && Ready(pieces, f, timeout, at, p) && p !in chosen ==>
          |chosen| == allowed && forall i :: 0 <= i < |chosen| ==> chosen[i] < p)
  }

  /** The choice once the scan has passed the pieces below p. */
  ghost predicate Scanned(pieces: Pieces, f: Flights, timeout: nat, at: nat -> nat, p: nat, chosen: seq<nat>) {
    && (forall i :: 0 <= i < |chosen| ==> chosen[i] < p && Ready(pieces, f, timeout, at, chosen[i]))
    && (forall i, j :: 0 <= i < j < |chosen| ==> chosen[i] < chosen[j])
    && (forall q :: 0 <= q < p && Ready(pieces, f, timeout, at, q) ==> q in chosen)
  }

  /** The choice before the scan: nothing, or piece 0 as a priority. */
  ghost predicate Prepared(pieces: Pieces, f: Flights, timeout: nat, at: nat -> nat, total: nat, chosen: seq<nat>) {
    chosen == [] || (chosen == [0] && 0 < total && Ready(pieces, f, timeout, at, 0))
  }

  lemma {:induction false} ScanStart(pieces: Pieces, f: Flights, timeout: nat, at: nat -> nat, total: nat, chosen: seq<nat>)
    requires Prepared(pieces, f, timeout, at, total, chosen)
    ensures chosen == [] ==> Scanned(pieces, f, timeout, at, 0, chosen)
    ensures chosen != [] ==> 0 in chosen && Scanned(pieces, f, timeout, at, 1, chosen)
  {
    hide Ready;
  }

  lemma {:induction false} ScanStep(pieces: Pieces, f: Flights, timeout: nat, at: nat -> nat, p: nat, chosen: seq<nat>)
    requires Scanned(pieces, f, timeout, at, p, chosen)
    ensures p !in chosen
    ensures Scanned(pieces, f, timeout, at, p + 1, if Ready(pieces, f, timeout, at, p) then chosen + [p] else chosen)
  {
    hide Ready;
    if Ready(pieces, f, timeout, at, p) {
      var more := chosen + [p];
      forall q | 0 <= q < p + 1 && Ready(pieces, f, timeout, at, q)
        ensures q in more
      {
        assert more[|chosen|] == p;
        assert q < p ==> q in chosen;
      }
    }
  }

  lemma {:induction false} ScanDone(pieces: Pieces, f: Flights, timeout: nat, at: nat -> nat, total: nat, p: nat, allowed: nat, chosen: seq<nat>)
    requires Scanned(pieces, f, timeout, at, p, chosen) && p <= total && |chosen| <= allowed && (p == total || |chosen| == allowed)
    ensures FirstRequestable(pieces, f, timeout, at, total, allowed, chosen)
  {
    hide Ready;
  }

  /** The priority pieces that can be requested; piece 0 is the only one there is. */
  method ChoosePriority(pieces: Pieces, f: Flights, timeout: nat, clock: Clock, total: nat) returns (chosen: seq<nat>)
    ensures Prepared(pieces, f, timeout, clock.at, total, chosen)
  {
    hide Requestable;
    chosen := [];
    for i := 0 to |PRIORITY_PIECES|
      invariant i == 0 ==> chosen == []
      invariant chosen == [] || (chosen == [0] && 0 < total && Requestable(pieces, f, timeout, clock.early, 0))
    {
      var p := PRIORITY_PIECES[i];
      if p < total && Requestable(pieces, f, timeout, clock.early, p) && p !in chosen {
        chosen := chosen + [p];
      }
    }
    if chosen != [] {
      StaysRequestable(pieces, f, timeout, clock.early, clock.at(0), 0);
    }
  }

  method ChooseRequests(pieces: Pieces, f: Flights, timeout: nat, clock: Clock, total: nat, allowed: nat) returns (chosen: seq<nat>)
    requires allowed > 0
    ensures FirstRequestable(pieces, f, timeout, clock.at, total, allowed, chosen)
  {
    hide Ready, Scanned, FirstRequestable;
    chosen := ChoosePriority(pieces, f, timeout, clock, total);
    var p := 0;
    while p < total && |chosen| < allowed
      invariant 0 <= p <= total && |chosen| <= allowed
      invariant p == 0 ==> Prepared(pieces, f, timeout, clock.at, total, chosen)
      invariant p > 0 ==> Scanned(pieces, f, timeout, clock.at, p, chosen)
    {
      if p == 0 {
        ScanStart(pieces, f, timeout, clock.at, total, chosen);
      }
      if p > 0 || chosen == [] {
        ScanStep(pieces, f, timeout, clock.at, p, chosen);
      }
      if p !in chosen && Ready(pieces, f, timeout, clock.at, p) {
        chosen := chosen + [p];
      }
      p := p + 1;
    }
    if p == 0 {
      ScanStart(pieces, f, timeout, clock.at, total, chosen);
    }
    ScanDone(pieces, f, timeout, clock.at, total, if p == 0 then |chosen| else p, allowed, chosen);
  }

  /** How many of the first n chosen pieces the peer itself already has in flight. */
  function Repeats(f: Flights, chosen: seq<nat>, ip: string, n: nat): nat
    requires n <= |chosen|
  {
    if n == 0 then 0
    else Repeats(f, chosen, ip, n - 1) + if chosen[n - 1] in f && f[chosen[n - 1]].peer == ip then 1 else 0
  }

  /** The requests under way after the first n chosen pieces went out. */
  function Moved(f: Flights, chosen: seq<nat>, g: Flight, n: nat): Flights
    requires n <= |chosen|
  {
    if n == 0 then f else Moved(f, chosen, g, n - 1)[chosen[n - 1] := g]
  }

  lemma {:induction false} MovedAt(f: Flights, chosen: seq<nat>, g: Flight, n: nat, p: nat)
    requires n <= |chosen|
    ensures p in Moved(f, chosen, g, n) <==> p in f || p in chosen[..n]
    ensures p in Moved(f, chosen, g, n) ==> Moved(f, chosen, g, n)[p] == if p in chosen[..n] then g else f[p]
  {
    if n > 0 {
      MovedAt(f, chosen, g, n - 1, p);
      assert chosen[..n] == chosen[..n - 1] + [chosen[n - 1]];
    }
  }

  /** Moves the chosen pieces to the peer. */
  method RecordRequests(f: Flights, c: Counts, ghost repeats: Counts, chosen: seq<nat>, ip: string, now: nat)
      returns (f': Flights, c': Counts, ghost repeats': Counts)
    requires Law(f, c, repeats) && forall i, j :: 0 <= i < j < |chosen| ==> chosen[i] != chosen[j]
    ensures Law(f', c', repeats')
    ensures f' == Moved(f, chosen, Flight(now, ip), |chosen|)
    ensures Count(c', ip) == Count(c, ip) + |chosen| && forall other :: other != ip ==> Count(c', other) <= Count(c, other)
    ensures Count(repeats', ip) == Count(repeats, ip) + Repeats(f, chosen, ip, |chosen|)
    ensures forall other :: other != ip ==> Count(repeats', other) == Count(repeats, other)
  {
    hide Law;
    f', c', repeats' := f, c, repeats;
    var g := Flight(now, ip);
    for i := 0 to |chosen|
      invariant Law(f', c', repeats')
      invariant f' == Moved(f, chosen, g, i)
      invariant Count(c', ip) == Count(c, ip) + i && forall other :: other != ip ==> Count(c', other) <= Count(c, other)
      invariant Count(repeats', ip) == Count(repeats, ip) + Repeats(f, chosen, ip, i)
      invariant forall other :: other != ip ==> Count(repeats', other) == Count(repeats, other)
    {
      var p := chosen[i];
      RequestKeepsLaw(f', c', repeats', p, g);
      MovedAt(f, chosen, g, i, p);
      repeats' := if p in f' && f'[p].peer == ip then Raised(repeats', ip) else repeats';
      if p in f' && f'[p].peer != ip {
        c' := Lowered(c', f'[p].peer);
      }
      f' := f'[p := g];
      c' := Raised(c', ip);
    }
  }

  // ---------------------------------------------------------------- the fetcher

  datatype FetchError = OutOfRange | TooLong

  datatype Event =
    | SizeKnown(size: nat)
    | Ask(ip: string, limit: nat, clock: Clock)
    | Data(piece: nat, total: Option<nat>, data: Bytes, ip: string)
    | Reject(piece: nat, ip: string)

  class MetadataRangeFetcher {
    const timeout: nat
    const maxDepth: nat
    var metadataSize: Option<nat>
    var totalPieces: Option<nat>
    var pieces: Pieces
    var inFlight: Flights
    var peerCount: Counts
    var contributing: set<string>
    var failed: map<nat, nat>
    var expedited: Option<Manifest>
    // Requests a peer repeated for a piece it already had in flight.
    ghost var repeats: Counts

    /**
      Received and requested pieces are disjoint, no counter exceeds the pipeline
      depth, and every counter is exact up to the peer's own repeated requests.
     */
    ghost predicate Valid()
      reads this
    {
      && Law(inFlight, peerCount, repeats) && AtMost(peerCount, maxDepth)
      && pieces.Keys !! inFlight.Keys
      && (forall p :: p in pieces ==> |pieces[p]| <= PIECE_SIZE)
      && totalPieces == (if metadataSize.Some? then Some(PieceTotal(metadataSize.value)) else None)
    }

    /** No peer ever has more than the pipeline depth in flight. */
    lemma DepthBound(ip: string)
      requires Valid()
      ensures |Held(inFlight, ip)| <= Count(peerCount, ip) <= maxDepth
    {
    }

    constructor (requestTimeout: nat, depth: nat)
      ensures Valid() && timeout == requestTimeout && maxDepth == (if depth < 1 then 1 else depth)
      ensures metadataSize == None && pieces == map[] && inFlight == map[] && repeats == map[] && expedited == None
    {
      timeout, maxDepth := requestTimeout, if depth < 1 then 1 else depth;
      metadataSize, totalPieces, pieces, inFlight, peerCount := None, None, map[], map[], map[];
      contributing, failed, expedited, repeats := {}, map[], None, map[];
    }

    method SetMetadataSize(size: nat)
      requires Valid()
      modifies this`metadataSize, this`totalPieces
      ensures Valid() && metadataSize == if size > MAX_METADATA_SIZE then old(metadataSize) else Some(size)
    {
      if size <= MAX_METADATA_SIZE {
        metadataSize, totalPieces := Some(size), Some(PieceTotal(size));
      }
    }

    predicate IsComplete()
      reads this`totalPieces, this`pieces
    {
      totalPieces.Some? && |pieces| == totalPieces.value && totalPieces.value > 0
    }

    /** `next_requests_for_peer`: the first requestable pieces, as many as the peer's free slots and the limit allow. */
    method NextRequestsForPeer(ip: string, limit: nat, clock: Clock) returns (requests: seq<nat>)
      requires Valid()
      modifies this`inFlight, this`peerCount, this`repeats
      ensures Valid()
      ensures
        var allowed := if maxDepth - old(Count(peerCount, ip)) < limit then maxDepth - old(Count(peerCount, ip)) else limit;
        if totalPieces == None || allowed == 0 then requests == []
        else FirstRequestable(pieces, old(inFlight), timeout, clock.at, totalPieces.value, allowed, requests)
      ensures inFlight == Moved(old(inFlight), requests, Flight(clock.start, ip), |requests|)
      ensures Count(repeats, ip) == old(Count(repeats, ip)) + Repeats(old(inFlight), requests, ip, |requests|)
      ensures forall other :: other != ip ==> Count(repeats, other) == Count(old(repeats), other)
    {
      hide Law, FirstRequestable, Moved;
      requests := [];
      if totalPieces == None {
        assert Moved(inFlight, [], Flight(clock.start, ip), 0) == inFlight by { NothingMoved(inFlight, Flight(clock.start, ip)); }
        return;
      }
      var depth := Count(peerCount, ip);
      var allowed := if maxDepth - depth < limit then maxDepth - depth else limit;
      if allowed == 0 {
        assert Moved(inFlight, [], Flight(clock.start, ip), 0) == inFlight by { NothingMoved(inFlight, Flight(clock.start, ip)); }
        return;
      }
      requests := ChooseRequests(pieces, inFlight, timeout, clock, totalPieces.value, allowed);
      Chosen(pieces, inFlight, timeout, clock.at, totalPieces.value, allowed, requests, Flight(clock.start, ip));
      inFlight, peerCount, repeats := RecordRequests(inFlight, peerCount, repeats, requests, ip, clock.start);
    }

    /** Ends the request of a piece, whoever it was sent to. */
    method Release(piece: nat)
      requires Valid()
      modifies this`inFlight, this`peerCount
      ensures Valid() && inFlight == old(inFlight) - {piece}
    {
      hide Law;
      if piece in inFlight {
        var peer := inFlight[piece].peer;
        ReleaseKeepsLaw(inFlight, peerCount, repeats, piece);
        inFlight := inFlight - {piece};
        peerCount := Lowered(peerCount, peer);
      } else {
        assert inFlight - {piece} == inFlight;
      }
    }

    /** `handle_reject`. */
    method HandleReject(piece: nat, ip: string)
      requires Valid()
      modifies this`inFlight, this`peerCount, this`failed
      ensures Valid() && inFlight == old(inFlight) - {piece}
      ensures failed == old(failed)[piece := (if piece in old(failed) then old(failed)[piece] else 0) + 1]
    {
      Release(piece);
      failed := failed[piece := (if piece in failed then failed[piece] else 0) + 1];
    }

    /** Early manifest resolution: the first manifest the leading pieces yield is kept. */
    method ResolveEarly()
      modifies this`expedited
      ensures expedited == if old(expedited).Some? then old(expedited) else Parsed(Leading(pieces, 0))
    {
      hide Parsed, Leading;
      if expedited == None {
        var prefix := JoinLeading(pieces);
        if prefix != "" {
          expedited := TryParsePartial(prefix);
        } else {
          NothingParsed(prefix);
        }
      }
    }

    /** `handle_data_piece`. */
    method HandleDataPiece(piece: nat, total: Option<nat>, data: Bytes, ip: string) returns (r: Result<bool, FetchError>)
      requires Valid()
      modifies this
      ensures Valid() && repeats == old(repeats)
      ensures metadataSize == if old(metadataSize) == None && total.Some? && total.value <= MAX_METADATA_SIZE then total else old(metadataSize)
      ensures r == if totalPieces.Some? && piece >= totalPieces.value then Err(OutOfRange)
                   else if |data| > PIECE_SIZE then Err(TooLong) else Ok(IsComplete())
      ensures if r.Err? then pieces == old(pieces) && inFlight == old(inFlight) && expedited == old(expedited)
              else pieces == old(pieces)[piece := data] && inFlight == old(inFlight) - {piece} && contributing == old(contributing) + {ip}
                   && expedited == if old(expedited).Some? then old(expedited) else Parsed(Leading(pieces, 0))
    {
      hide Law, AtMost, Parsed, Leading, PieceTotal;
      if total.Some? && metadataSize == None {
        SetMetadataSize(total.value);
      }
      if totalPieces.Some? && piece >= totalPieces.value {
        return Err(OutOfRange);
      }
      if |data| > PIECE_SIZE {
        return Err(TooLong);
      }
      Release(piece);
      pieces := pieces[piece := data];
      contributing := contributing + {ip};
      ResolveEarly();
      return Ok(IsComplete());
    }

    /** `assemble`. */
    method Assemble() returns (r: Option<Bytes>)
      requires Valid()
      ensures r == if metadataSize.None? then None else Assembled(pieces, metadataSize.value)
    {
      if totalPieces.None? || metadataSize.None? || |pieces| != totalPieces.value {
        return None;
      }
      var buffer := JoinAll(pieces, totalPieces.value);
      r := if buffer.None? then None else Some(Truncated(buffer.value, metadataSize.value));
    }

    /** `verify_and_assemble`: the metadata comes out only with the expected hash. */
    method VerifyAndAssemble(expected: Bytes, sha1: Bytes -> Bytes, sha256: Bytes -> Bytes) returns (r: Option<Bytes>)
      requires Valid()
      ensures r.Some? <==>
        && metadataSize.Some? && Assembled(pieces, metadataSize.value).Some?
        && var m := Assembled(pieces, metadataSize.value).value;
          (|expected| == 20 && sha1(m) == expected) || (|expected| == 32 && sha256(m) == expected)
      ensures r.Some? ==> r == Assembled(pieces, metadataSize.value)
    {
      hide Law, AtMost, Assembled;
      var assembled := Assemble();
      if assembled.None? {
        return None;
      }
      if |expected| == 20 {
        if sha1(assembled.value) != expected {
          return None;
        }
      } else if |expected| == 32 {
        if sha256(assembled.value) != expected {
          return None;
        }
      } else {
        return None;
      }
      return assembled;
    }

    // -------------------------------------------------------------- whole runs

    /** The size is known or not yet, only genuine slices were stored, and an early manifest is the final one. */
    ghost predicate Collecting(m: Bytes)
      reads this`metadataSize, this`pieces, this`expedited
    {
      && (metadataSize.Some? ==> metadataSize == Some(|m|)) && Honest(pieces, m)
      && (Settled(m) && expedited.Some? ==> expedited == Parsed(m))
    }

    ghost predicate Faithful(m: Bytes)
      reads this`metadataSize, this`pieces, this`expedited
    {
      metadataSize == Some(|m|) && Collecting(m)
    }

    lemma StartsCollecting(m: Bytes)
      requires metadataSize == None && pieces == map[] && expedited == None
      ensures Collecting(m)
    {
    }

    lemma StoresGenuine(m: Bytes)
      requires Collecting(m)
      ensures Honest(pieces, m) && (metadataSize.Some? ==> metadataSize.value == |m|)
    {
    }

    method Step(e: Event, ghost m: Bytes)
      requires Valid()
      modifies this
      ensures Valid()
      ensures old(Faithful(m)) && Genuine(e, m) ==> Faithful(m) && pieces.Keys == old(pieces.Keys) + Arriving(e, m)
      ensures old(Collecting(m)) && Candid(e, m) ==>
        && Collecting(m) && pieces.Keys == old(pieces.Keys) + Arriving(e, m)
        && (metadataSize.Some? <==> old(metadataSize).Some? || TellsSize(e))
    {
      hide Valid, Honest, Slice, Settled, Parsed, Leading, PieceTotal, FirstRequestable, Moved;
      match e
      case SizeKnown(size) => SetMetadataSize(size);
      case Ask(ip, limit, clock) => var _ := NextRequestsForPeer(ip, limit, clock);
      case Reject(piece, ip) => HandleReject(piece, ip);
      case Data(piece, total, data, ip) => TakeData(piece, total, data, ip, m);
    }

    method TakeData(piece: nat, total: Option<nat>, data: Bytes, ip: string, ghost m: Bytes)
      requires Valid()
      modifies this
      ensures Valid()
      ensures
        var e := Data(piece, total, data, ip);
        && (old(Faithful(m)) && Genuine(e, m) ==> Faithful(m) && pieces.Keys == old(pieces.Keys) + Arriving(e, m))
        && (old(Collecting(m)) && Candid(e, m) ==>
              && Collecting(m) && pieces.Keys == old(pieces.Keys) + Arriving(e, m)
              && (metadataSize.Some? <==> old(metadataSize).Some? || total.Some?))
    {
      hide Valid, Honest, Slice, Settled, Parsed, Leading, PieceTotal;
      ghost var before, early := pieces, expedited;
      var r := HandleDataPiece(piece, total, data, ip);
      TotalKnown();
      if old(Collecting(m)) && data == Slice(m, piece) && (metadataSize.Some? ==> metadataSize.value == |m|) {
        if piece < PieceTotal(|m|) {
          GenuineData(before, early, m, piece, data);
          assert r.Ok?;
          assert Collecting(m);
        }
      }
    }

    lemma TotalKnown()
      requires Valid()
      ensures totalPieces == if metadataSize.Some? then Some(PieceTotal(metadataSize.value)) else None
    {
    }

    /**
      Any run of genuine messages stores exactly the slices that arrived, and any
      early manifest is the final one.  Before the size is known this holds for
      messages that name pieces of the metadata and its true size; the size is
      known at the end exactly if it was or some message told it.
     */
    method Run(events: seq<Event>, ghost m: Bytes)
      requires Valid()
      modifies this
      ensures Valid()
      ensures old(Faithful(m)) && (forall e :: e in events ==> Genuine(e, m)) ==>
        Faithful(m) && pieces.Keys == old(pieces.Keys) + ArrivedBy(events, m, |events|)
      ensures old(Collecting(m)) && (forall e :: e in events ==> Candid(e, m)) ==>
        && Collecting(m) && pieces.Keys == old(pieces.Keys) + ArrivedBy(events, m, |events|)
        && (metadataSize.Some? <==> old(metadataSize).Some? || exists e :: e in events && TellsSize(e))
    {
      hide Valid, Faithful, Collecting, Genuine, Candid, Arriving, TellsSize;
      for i := 0 to |events|
        invariant Valid()
        invariant old(Faithful(m)) && (forall e :: e in events ==> Genuine(e, m)) ==>
          Faithful(m) && pieces.Keys == old(pieces.Keys) + ArrivedBy(events, m, i)
        invariant old(Collecting(m)) && (forall e :: e in events ==> Candid(e, m)) ==>
          && Collecting(m) && pieces.Keys == old(pieces.Keys) + ArrivedBy(events, m, i)
          && (metadataSize.Some? <==> old(metadataSize).Some? || exists e :: e in events[..i] && TellsSize(e))
      {
        assert events[..i + 1] == events[..i] + [events[i]];
        Step(events[i], m);
      }
      assert events[..|events|] == events;
    }
  }

  lemma {:induction false} CompleteByKeys(pieces: Pieces, m: Bytes, arrived: set<nat>)
    requires Honest(pieces, m) && pieces.Keys == arrived
    ensures Assembled(pieces, |m|) == if forall p :: 0 <= p < PieceTotal(|m|) ==> p in arrived then Some(m) else None
  {
    hide Assembled, PieceTotal, Honest;
    AssembledExactly(pieces, m);
    assert forall p :: p in pieces <==> p in arrived;
  }

  /**
    A fresh fetcher and any candid messages, in any order and repeated: the metadata
    comes out exactly if its size was told and every slice arrived.
   */
  method FetchMetadata(m: Bytes, timeout: nat, depth: nat, events: seq<Event>) returns (r: Option<Bytes>)
    requires forall e :: e in events ==> Candid(e, m)
    ensures r == if (exists e :: e in events && TellsSize(e)) && (forall p :: 0 <= p < PieceTotal(|m|) ==> p in ArrivedBy(events, m, |events|))
                 then Some(m) else None
  {
    hide Candid, TellsSize, ArrivedBy, Assembled, PieceTotal, Settled, Parsed, Genuine, Arriving, Honest;
    var fetcher := new MetadataRangeFetcher(timeout, depth);
    fetcher.StartsCollecting(m);
    fetcher.Run(events, m);
    fetcher.StoresGenuine(m);
    CompleteByKeys(fetcher.pieces, m, ArrivedBy(events, m, |events|));
    r := fetcher.Assemble();
  }

  /** The slices the first n messages deliver. */
  function ArrivedBy(events: seq<Event>, m: Bytes, n: nat): set<nat>
    requires n <= |events|
  {
    if n == 0 then {} else ArrivedBy(events, m, n - 1) + Arriving(events[n - 1], m)
  }

  predicate TellsSize(e: Event) {
    e.SizeKnown? || (e.Data? && e.total.Some?)
  }

  /** A genuine message that also names a piece of the metadata and, if any, its true and acceptable size. */
  ghost predicate Candid(e: Event, m: Bytes) {
    && Genuine(e, m) && (TellsSize(e) ==> |m| <= MAX_METADATA_SIZE)
    && (e.Data? ==> e.piece < PieceTotal(|m|) && (e.total.Some? ==> e.total.value == |m|))
  }

  /** A message an honest swarm can send about the metadata m. */
  ghost predicate Genuine(e: Event, m: Bytes) {
    match e
    case SizeKnown(size) => size == |m|
    case Ask(_, _, _) => true
    case Data(piece, _, data, _) => data == Slice(m, piece)
    case Reject(_, _) => true
  }

  /** The piece a message delivers. */
  function Arriving(e: Event, m: Bytes): set<nat> {
    if e.Data? && e.piece < PieceTotal(|m|) then {e.piece} else {}
  }

  /** A genuine slice keeps the store genuine, and a manifest resolved from it is the final one. */
  lemma {:induction false} GenuineData(pieces: Pieces, early: Option<Manifest>, m: Bytes, piece: nat, data: Bytes)
    requires Honest(pieces, m) && piece < PieceTotal(|m|) && data == Slice(m, piece)
    requires Settled(m) && early.Some? ==> early == Parsed(m)
    ensures |data| <= PIECE_SIZE && Honest(pieces[piece := data], m)
    ensures pieces[piece := data].Keys == pieces.Keys + {piece}
    ensures
      var resolved := if early.Some? then early else Parsed(Leading(pieces[piece := data], 0));
      Settled(m) && resolved.Some? ==> resolved == Parsed(m)
  {
    hide Parsed, Leading, Settled;
    if Settled(m) {
      EarlyManifestIsFinal(pieces[piece := data], m);
    }
  }

  lemma {:induction false} NothingParsed(prefix: Bytes)
    ensures prefix == "" ==> Parsed(prefix) == None
  {
  }

  lemma {:induction false} NothingMoved(f: Flights, g: Flight)
    ensures Moved(f, [], g, 0) == f
  {
  }

  lemma {:induction false} Chosen(pieces: Pieces, f: Flights, timeout: nat, at: nat -> nat, total: nat, allowed: nat, chosen: seq<nat>, g: Flight)
    requires FirstRequestable(pieces, f, timeout, at, total, allowed, chosen) && pieces.Keys !! f.Keys
    ensures |chosen| <= allowed && forall i, j :: 0 <= i < j < |chosen| ==> chosen[i] != chosen[j]
    ensures pieces.Keys !! Moved(f, chosen, g, |chosen|).Keys
  {
    forall p | p in Moved(f, chosen, g, |chosen|)
      ensures p !in pieces
    {
      MovedAt(f, chosen, g, |chosen|, p);
    }
  }
}
