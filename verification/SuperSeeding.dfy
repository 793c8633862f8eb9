/**
  Super-seeding (BEP 16): the record of `library/src/core/super_seeding.rs` and the
  protocol steps `library/src/core/torrent_context.rs` performs on it.  Whether the
  torrent is seeding, the local bitfield and the peers' bitfields are parameters.
 */
module SuperSeeding {
  import opened Wrappers
  import opened Bitfields

  /** What the protocol reads from the rest of the session when it takes a step. */
  datatype Surroundings = Surroundings(seeding: bool, pieces: nat, local: Bits, remote: map<string, Bits>)

  /** Pieces that can be offered: held locally and missing from the peer's bitfield. */
  ghost predicate Candidate(s: Surroundings, bits: Bits, p: nat) {
    p < s.pieces && Get(s.local, p) && !Get(bits, p)
  }

  function SwarmCount(swarmCount: map<nat, nat>, p: nat): nat {
    if p in swarmCount then swarmCount[p] else 0
  }

  /** The order in which candidates are offered: never-offered pieces, then rarely seen ones, then low indices. */
  predicate Precedes(offeredTo: map<nat, string>, swarmCount: map<nat, nat>, p: nat, q: nat) {
    if (p in offeredTo) != (q in offeredTo) then q in offeredTo
    else if SwarmCount(swarmCount, p) != SwarmCount(swarmCount, q) then SwarmCount(swarmCount, p) < SwarmCount(swarmCount, q)
    else p <= q
  }

  /** The candidate that precedes every other candidate below m. */
  ghost predicate IsBest(offeredTo: map<nat, string>, swarmCount: map<nat, nat>, s: Surroundings, bits: Bits, m: nat, best: Option<nat>) {
    match best
    case None => forall q :: 0 <= q < m ==> !Candidate(s, bits, q)
    case Some(p) => p < m && Candidate(s, bits, p) && forall q :: 0 <= q < m && Candidate(s, bits, q) ==> Precedes(offeredTo, swarmCount, p, q)
  }

  /** An already offered piece is chosen only if every candidate has been offered. */
  lemma {:induction false} FreshPiecesFirst(offeredTo: map<nat, string>, swarmCount: map<nat, nat>, s: Surroundings, bits: Bits, p: nat)
    requires IsBest(offeredTo, swarmCount, s, bits, s.pieces, Some(p))
    ensures p in offeredTo ==> forall q :: Candidate(s, bits, q) ==> q in offeredTo
  {
  }

  lemma {:induction false} BestUnique(offeredTo: map<nat, string>, swarmCount: map<nat, nat>, s: Surroundings, bits: Bits, a: Option<nat>, b: Option<nat>)
    requires IsBest(offeredTo, swarmCount, s, bits, s.pieces, a) && IsBest(offeredTo, swarmCount, s, bits, s.pieces, b)
    ensures a == b
  {
  }

  method ChoosePiece(offeredTo: map<nat, string>, swarmCount: map<nat, nat>, s: Surroundings, bits: Bits) returns (best: Option<nat>)
    ensures IsBest(offeredTo, swarmCount, s, bits, s.pieces, best)
  {
    hide Get, SwarmCount;
    best := None;
    for p := 0 to s.pieces
      invariant IsBest(offeredTo, swarmCount, s, bits, p, best)
    {
      if Get(s.local, p) && !Get(bits, p) && (best.None? || !Precedes(offeredTo, swarmCount, best.value, p)) {
        best := Some(p);
      }
    }
  }

  datatype Event =
    | Enable(on: bool)
    | Offer(ip: string, bits: Bits, around: Surroundings)
    | Have(ip: string, piece: nat, around: Surroundings)
    | Disconnect(ip: string)

  /** How many pending offers an event gives up. */
  ghost function Drops(e: Event, pending: map<string, nat>): nat {
    if e == Enable(false) then |pending|
    else if e.Disconnect? && e.ip in pending then 1
    else 0
  }

  ghost predicate KeepsOffers(e: Event) {
    e != Enable(false) && !e.Disconnect?
  }

  class SuperSeedingState {
    var enabled: bool
    var offeredTo: map<nat, string>
    var pending: map<string, nat>
    var swarmCount: map<nat, nat>
    var totalOffered: nat
    var totalPropagated: nat
    // Every offer ever made, every offer confirmed by another peer, and the number of offers given up.
    ghost var offers: set<(string, nat)>
    ghost var confirmed: set<(string, nat)>
    ghost var dropped: nat

    /**
      Offers are conserved: each one is confirmed, pending or dropped.  A piece
      recorded as offered to a peer is pending there or was confirmed, and every
      record goes back to an offer.
     */
    ghost predicate Valid()
      reads this`offeredTo, this`pending, this`totalOffered, this`totalPropagated, this`offers, this`confirmed, this`dropped
    {
      && totalOffered == totalPropagated + |pending| + dropped
      && (forall p :: p in offeredTo ==> (offeredTo[p] in pending && pending[offeredTo[p]] == p) || (offeredTo[p], p) in confirmed)
      && (forall ip :: ip in pending ==> (ip, pending[ip]) in offers)
      && confirmed <= offers
    }

    constructor ()
      ensures Valid() && !enabled && totalOffered == totalPropagated == dropped == 0 && pending == map[] && offers == {}
    {
      enabled, offeredTo, pending, swarmCount, totalOffered, totalPropagated := false, map[], map[], map[], 0, 0;
      offers, confirmed, dropped := {}, {}, 0;
    }

    predicate Active(seeding: bool)
      reads this`enabled
    {
      enabled && seeding
    }

    method SetSuperSeeding(on: bool)
      requires Valid()
      modifies this`enabled, this`offeredTo, this`pending, this`dropped
      ensures Valid() && enabled == on
      ensures on ==> offeredTo == old(offeredTo) && pending == old(pending) && dropped == old(dropped)
      ensures !on ==> offeredTo == map[] && pending == map[] && dropped == old(dropped) + |old(pending)|
    {
      enabled := on;
      if !on {
        dropped := dropped + |pending|;
        offeredTo, pending := map[], map[];
      }
    }

    /** `offer_super_seed_piece`: at most one pending piece per peer, the best candidate first. */
    method OfferPiece(ip: string, bits: Bits, s: Surroundings) returns (piece: Option<nat>)
      requires Valid()
      modifies this`offeredTo, this`pending, this`totalOffered, this`offers
      ensures Valid()
      ensures Active(s.seeding) && ip !in old(pending) ==> IsBest(old(offeredTo), swarmCount, s, bits, s.pieces, piece)
      ensures !(Active(s.seeding) && ip !in old(pending)) ==> piece == None
      ensures if piece.Some?
              then pending == old(pending)[ip := piece.value] && offeredTo == old(offeredTo)[piece.value := ip]
                   && totalOffered == old(totalOffered) + 1 && offers == old(offers) + {(ip, piece.value)}
              else pending == old(pending) && offeredTo == old(offeredTo)
                   && totalOffered == old(totalOffered) && offers == old(offers)
    {
      hide IsBest;
      if !Active(s.seeding) || ip in pending {
        return None;
      }
      piece := ChoosePiece(offeredTo, swarmCount, s, bits);
      if piece.Some? {
        offeredTo := offeredTo[piece.value := ip];
        pending := pending[ip := piece.value];
        totalOffered := totalOffered + 1;
        offers := offers + {(ip, piece.value)};
      }
    }

    /** The pending offer of a piece to a peer is confirmed. */
    method Confirm(holder: string, piece: nat)
      requires Valid() && holder in pending && pending[holder] == piece
      modifies this`pending, this`totalPropagated, this`confirmed
      ensures Valid() && pending == old(pending) - {holder}
      ensures totalPropagated == old(totalPropagated) + 1 && confirmed == old(confirmed) + {(holder, piece)}
    {
      pending := pending - {holder};
      totalPropagated := totalPropagated + 1;
      confirmed := confirmed + {(holder, piece)};
    }

    /**
      `on_peer_have`: a sighting by anyone but the peer the piece was offered to
      confirms that offer, frees that peer and tries to offer it another piece.
     */
    method OnPeerHave(reporter: string, piece: nat, s: Surroundings) returns (next: Option<(string, nat)>)
      requires Valid()
      modifies this`swarmCount, this`offeredTo, this`pending, this`totalOffered, this`totalPropagated, this`offers, this`confirmed
      ensures Valid() && old(offers) <= offers
      ensures !Active(s.seeding) ==> swarmCount == old(swarmCount) && pending == old(pending) && offeredTo == old(offeredTo) && next == None
      ensures Active(s.seeding) ==> swarmCount == old(swarmCount)[piece := SwarmCount(old(swarmCount), piece) + 1]
      ensures
        var credited := Active(s.seeding) && piece in old(offeredTo) && old(offeredTo)[piece] != reporter
                        && old(offeredTo)[piece] in old(pending) && old(pending)[old(offeredTo)[piece]] == piece;
        && totalPropagated == old(totalPropagated) + (if credited then 1 else 0)
        && confirmed == (if credited then old(confirmed) + {(old(offeredTo)[piece], piece)} else old(confirmed))
        && (!credited ==> pending == old(pending) && offeredTo == old(offeredTo) && offers == old(offers) && next == None)
        && (credited && next == None ==>
              pending == old(pending) - {old(offeredTo)[piece]} && offeredTo == old(offeredTo) && offers == old(offers))
        && (credited && next.Some? ==>
              && next.value.0 == old(offeredTo)[piece] && pending == old(pending)[next.value.0 := next.value.1]
              && offeredTo == old(offeredTo)[next.value.1 := next.value.0] && offers == old(offers) + {next.value})
        && (credited ==>
              if old(offeredTo)[piece] in s.remote
              then IsBest(old(offeredTo), swarmCount, s, s.remote[old(offeredTo)[piece]], s.pieces, if next.Some? then Some(next.value.1) else None)
              else next == None)
    {
      hide Valid, IsBest, SwarmCount;
      if !Active(s.seeding) {
        return None;
      }
      swarmCount := swarmCount[piece := SwarmCount(swarmCount, piece) + 1];
      if piece !in offeredTo || offeredTo[piece] == reporter {
        return None;
      }
      var holder := offeredTo[piece];
      if holder !in pending || pending[holder] != piece {
        return None;
      }
      ghost var before := pending;
      Confirm(holder, piece);
      if holder !in s.remote {
        return None;
      }
      var offer := OfferPiece(holder, s.remote[holder], s);
      if offer.None? {
        return None;
      }
      assert (before - {holder})[holder := offer.value] == before[holder := offer.value];
      return Some((holder, offer.value));
    }

    method OnPeerDisconnect(ip: string)
      requires Valid()
      modifies this`offeredTo, this`pending, this`dropped
      ensures Valid() && pending == old(pending) - {ip}
      ensures dropped == old(dropped) + if ip in old(pending) then 1 else 0
      ensures offeredTo == if ip in old(pending) && old(pending)[ip] in old(offeredTo) && old(offeredTo)[old(pending)[ip]] == ip
                           then old(offeredTo) - {old(pending)[ip]} else old(offeredTo)
    {
      if ip in pending {
        var piece := pending[ip];
        pending := pending - {ip};
        dropped := dropped + 1;
        if piece in offeredTo && offeredTo[piece] == ip {
          offeredTo := offeredTo - {piece};
        }
      }
    }

    /** `can_upload_piece_to_peer`. */
    predicate CanUpload(ip: string, piece: nat, seeding: bool)
      reads this`enabled, this`pending, this`offeredTo
    {
      !Active(seeding)
      || (ip in pending && pending[ip] == piece)
      || (piece in offeredTo && offeredTo[piece] == ip)
    }

    /** While super-seeding, only a piece once offered to that peer is uploaded to it. */
    lemma UploadNeedsOffer(ip: string, piece: nat, seeding: bool)
      requires Valid() && Active(seeding) && CanUpload(ip, piece, seeding)
      ensures (ip, piece) in offers
    {
    }

    method Step(e: Event)
      requires Valid()
      modifies this
      ensures Valid() && old(offers) <= offers && old(confirmed) <= confirmed
      ensures dropped == old(dropped) + Drops(e, old(pending))
    {
      match e {
        case Enable(on) => SetSuperSeeding(on);
        case Offer(ip, bits, around) => var _ := OfferPiece(ip, bits, around);
        case Have(ip, piece, around) => var _ := OnPeerHave(ip, piece, around);
        case Disconnect(ip) => OnPeerDisconnect(ip);
      }
    }

    /**
      Any run keeps the conservation law; offers and confirmations are never
      forgotten, and only disconnects and disabling drop an offer: without them
      every piece offered during the run is propagated or still pending.
     */
    method Run(events: seq<Event>)
      requires Valid()
      modifies this
      ensures Valid() && totalOffered == totalPropagated + |pending| + dropped
      ensures old(offers) <= offers && old(confirmed) <= confirmed && old(dropped) <= dropped
      ensures (forall k :: 0 <= k < |events| ==> KeepsOffers(events[k])) ==>
        && dropped == old(dropped)
        && totalOffered - old(totalOffered) == (totalPropagated - old(totalPropagated)) + (|pending| - |old(pending)|)
    {
      for i := 0 to |events|
        invariant Valid() && old(offers) <= offers && old(confirmed) <= confirmed && old(dropped) <= dropped
        invariant (forall k :: 0 <= k < i ==> KeepsOffers(events[k])) ==> dropped == old(dropped)
      {
        Step(events[i]);
      }
    }
  }
}
