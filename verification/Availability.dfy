/** How many connected peers hold a piece. */
module Availability {
  import opened Wrappers
  import opened Bitfields
  import opened Collections
  import opened Scheduling

  /** A remote peer: its announced bitfield and the seed flag `HaveAll` sets. */
  datatype Peer = Peer(remote: Bits, isSeed: bool) {
    /** `is_piece_on_remote_peer`. */
    predicate Has(p: nat) {
      isSeed || Get(remote, p)
    }
  }

  type Swarm = map<string, Peer>

  ghost function HolderSet(swarm: Swarm, p: nat): set<string> {
    set ip | ip in swarm && Get(swarm[ip].remote, p)
  }

  ghost function Holders(swarm: Swarm, p: nat): nat {
    |HolderSet(swarm, p)|
  }

  /** Replacing one peer's record moves only that peer in or out of the holders. */
  lemma {:induction false} HoldersUpdate(swarm: Swarm, ip: string, peer: Peer, p: nat)
    ensures Holders(swarm[ip := peer], p) + (if ip in swarm && Get(swarm[ip].remote, p) then 1 else 0)
         == Holders(swarm, p) + (if Get(peer.remote, p) then 1 else 0)
  {
    hide Get;
    var others := HolderSet(swarm, p) - {ip};
    assert HolderSet(swarm[ip := peer], p) == if Get(peer.remote, p) then others + {ip} else others;
    assert HolderSet(swarm, p) == if ip in swarm && Get(swarm[ip].remote, p) then others + {ip} else others;
  }

  function Without(swarm: Swarm, ip: string): (r: Swarm)
    ensures r.Keys == swarm.Keys - {ip}
  {
    swarm - {ip}
  }

  /** Removing a peer removes only that peer from the holders. */
  lemma {:induction false} HoldersRemove(swarm: Swarm, ip: string, p: nat)
    ensures Holders(swarm - {ip}, p) + (if ip in swarm && Get(swarm[ip].remote, p) then 1 else 0) == Holders(swarm, p)
  {
    hide Get;
    var others := HolderSet(swarm, p) - {ip};
    assert HolderSet(swarm - {ip}, p) == others;
    assert HolderSet(swarm, p) == if ip in swarm && Get(swarm[ip].remote, p) then others + {ip} else others;
  }

  /** Every piece's count is the number of connected peers that hold it. */
  ghost predicate CountsMatch(swarm: Swarm, count: seq<nat>) {
    forall p :: 0 <= p < |count| ==> count[p] == Holders(swarm, p)
  }

  /** The bitfield holds none of the first n pieces. */
  ghost predicate HoldsNone(remote: Bits, n: nat) {
    forall p :: 0 <= p < n ==> !Get(remote, p)
  }

  /**
    Merging a whole bitfield keeps the counts right exactly if the peer held no
    piece before: what it held earlier is never unmerged.
   */
  lemma {:induction false} MergeConservesExactly(swarm: Swarm, count: seq<nat>, ip: string, peer: Peer, after: seq<nat>)
    requires ip in swarm && CountsMatch(swarm, count) && |after| == |count|
    requires forall p :: 0 <= p < |count| ==> after[p] == count[p] + (if Get(peer.remote, p) then 1 else 0)
    ensures CountsMatch(swarm[ip := peer], after) <==> HoldsNone(swarm[ip].remote, |count|)
  {
    hide Get, Holders;
    forall p | 0 <= p < |count|
      ensures after[p] == Holders(swarm[ip := peer], p) <==> !Get(swarm[ip].remote, p)
    {
      HoldersUpdate(swarm, ip, peer, p);
    }
  }

  /** Forgetting a peer without unmerging keeps the counts right exactly if it held no piece. */
  lemma {:induction false} ForgetConservesExactly(swarm: Swarm, count: seq<nat>, ip: string)
    requires ip in swarm && CountsMatch(swarm, count)
    ensures CountsMatch(swarm - {ip}, count) <==> HoldsNone(swarm[ip].remote, |count|)
  {
    hide Get, Holders;
    forall p | 0 <= p < |count|
      ensures count[p] == Holders(swarm - {ip}, p) <==> !Get(swarm[ip].remote, p)
    {
      HoldersRemove(swarm, ip, p);
    }
  }

  /** Removing a peer and unmerging its bitfield keeps the counts right, and no decrement saturates. */
  lemma {:induction false} UnmergeConserves(swarm: Swarm, count: seq<nat>, ip: string)
    requires ip in swarm && CountsMatch(swarm, count)
    ensures forall p :: 0 <= p < |count| && Get(swarm[ip].remote, p) ==> count[p] >= 1
    ensures CountsMatch(swarm - {ip}, Bumped(count, swarm[ip].remote, false, |count|))
  {
    hide Get, Holders, Bumped;
    BumpedValues(count, swarm[ip].remote, false, |count|);
    forall p | 0 <= p < |count|
      ensures Get(swarm[ip].remote, p) ==> count[p] >= 1
      ensures Bumped(count, swarm[ip].remote, false, |count|)[p] == Holders(swarm - {ip}, p)
    {
      HoldersRemove(swarm, ip, p);
    }
  }

  /** A first `Have` for a piece keeps the counts right. */
  lemma {:induction false} HaveConserves(swarm: Swarm, count: seq<nat>, ip: string, peer: Peer, p: nat)
    requires ip in swarm && CountsMatch(swarm, count)
    requires forall q :: Get(peer.remote, q) == (q == p || Get(swarm[ip].remote, q))
    ensures p < |count| && !Get(swarm[ip].remote, p) ==> CountsMatch(swarm[ip := peer], count[p := count[p] + 1])
    ensures p >= |count| || Get(swarm[ip].remote, p) ==> CountsMatch(swarm[ip := peer], count)
  {
    hide Get, Holders;
    forall q | 0 <= q < |count|
      ensures Holders(swarm[ip := peer], q) == Holders(swarm, q) + (if q == p && !Get(swarm[ip].remote, p) then 1 else 0)
    {
      HoldersUpdate(swarm, ip, peer, q);
    }
  }

  // ---------------------------------------------------------------- steps of an orderly swarm

  /** Counts are right and every peer flagged as a seed has announced every piece. */
  ghost predicate Exact(swarm: Swarm, count: seq<nat>) {
    && CountsMatch(swarm, count)
    && forall ip :: ip in swarm && swarm[ip].isSeed ==> HoldsAll(swarm[ip].remote, |count|)
  }

  ghost predicate HoldsAll(remote: Bits, n: nat) {
    forall p :: 0 <= p < n ==> Get(remote, p)
  }

  lemma {:induction false} ReplaceSize(swarm: Swarm, ip: string, peer: Peer)
    requires ip in swarm
    ensures |swarm[ip := peer]| == |swarm|
  {
  }

  lemma {:induction false} WithoutSize(swarm: Swarm, ip: string)
    ensures |Without(swarm, ip)| <= |swarm|
    ensures ip !in swarm ==> Without(swarm, ip) == swarm
  {
    SubsetSize(Without(swarm, ip).Keys, swarm.Keys);
  }

  lemma {:induction false} ConnectKeepsExact(swarm: Swarm, count: seq<nat>, ip: string)
    requires Exact(swarm, count) && ip !in swarm
    ensures Exact(swarm[ip := Peer([], false)], count) && |swarm[ip := Peer([], false)]| == |swarm| + 1
  {
    hide Holders, HoldsAll;
    forall p | 0 <= p < |count|
      ensures count[p] == Holders(swarm[ip := Peer([], false)], p)
    {
      HoldersUpdate(swarm, ip, Peer([], false), p);
    }
    assert swarm[ip := Peer([], false)].Keys == swarm.Keys + {ip};
  }

  lemma {:induction false} NoneAndAll(remote: Bits, n: nat)
    requires HoldsNone(remote, n) && HoldsAll(remote, n)
    ensures n == 0
  {
    var first := Get(remote, 0);
    if n > 0 {
      assert false;
    }
  }

  lemma {:induction false} AnnounceKeepsExact(swarm: Swarm, count: seq<nat>, ip: string, peer: Peer)
    requires Exact(swarm, count) && ip in swarm && HoldsNone(swarm[ip].remote, |count|)
    requires peer.isSeed ==> swarm[ip].isSeed || HoldsAll(peer.remote, |count|)
    ensures Exact(swarm[ip := peer], Bumped(count, peer.remote, true, |count|))
  {
    hide Holders, Get, CountsMatch, Bumped;
    BumpedValues(count, peer.remote, true, |count|);
    MergeConservesExactly(swarm, count, ip, peer, Bumped(count, peer.remote, true, |count|));
    if swarm[ip].isSeed {
      NoneAndAll(swarm[ip].remote, |count|);
    }
  }

  lemma {:induction false} ClearKeepsExact(swarm: Swarm, count: seq<nat>, ip: string, bits: Bits)
    requires Exact(swarm, count) && ip in swarm && HoldsNone(swarm[ip].remote, |count|)
    requires forall p: nat :: !Get(bits, p)
    ensures Exact(swarm[ip := Peer(bits, false)], count)
  {
    hide Holders, CountsMatch;
    MergeConservesExactly(swarm, count, ip, Peer(bits, false), count);
  }

  lemma {:induction false} RemoveKeepsExact(swarm: Swarm, count: seq<nat>, ip: string)
    requires Exact(swarm, count) && ip in swarm
    ensures Exact(Without(swarm, ip), Bumped(count, swarm[ip].remote, false, |count|))
    ensures forall p :: 0 <= p < |count| && Get(swarm[ip].remote, p) ==>
                          Bumped(count, swarm[ip].remote, false, |count|)[p] + 1 == count[p]
  {
    hide Holders, Get, CountsMatch, Bumped;
    BumpedValues(count, swarm[ip].remote, false, |count|);
    UnmergeConserves(swarm, count, ip);
  }

  lemma {:induction false} ForgetKeepsExact(swarm: Swarm, count: seq<nat>, ip: string)
    requires Exact(swarm, count) && ip in swarm && HoldsNone(swarm[ip].remote, |count|)
    ensures Exact(Without(swarm, ip), count)
  {
    hide Holders, Get, CountsMatch;
    ForgetConservesExactly(swarm, count, ip);
  }

  lemma {:induction false} HaveKeepsExact(swarm: Swarm, count: seq<nat>, ip: string, peer: Peer, p: nat)
    requires Exact(swarm, count) && ip in swarm && peer.isSeed == swarm[ip].isSeed
    requires forall q: nat :: Get(peer.remote, q) == (q == p || Get(swarm[ip].remote, q))
    ensures Exact(swarm[ip := peer], if p < |count| && !swarm[ip].Has(p) then count[p := count[p] + 1] else count)
  {
    hide Holders, CountsMatch, Get;
    HaveConserves(swarm, count, ip, peer, p);
    if swarm[ip].isSeed {
      assert HoldsAll(swarm[ip].remote, |count|);
    }
  }

  // ---------------------------------------------------------------- remote bitfields

  /** A bitfield grown with zero bytes. */
  function Resized(b: Bits, n: nat): (r: Bits)
    requires |b| <= n
    ensures |r| == n
  {
    b + Filled(n - |b|, 0)
  }

  /** `set_piece_on_remote_peer`. */
  function WithPiece(peer: Peer, p: nat): (r: Peer) {
    var remote := if p / 8 >= |peer.remote| then Resized(peer.remote, p / 8 + 1) else peer.remote;
    peer.(remote := Put(remote, p, true))
  }

  lemma {:induction false} WithPieceBits(peer: Peer, p: nat)
    ensures forall q: nat :: Get(WithPiece(peer, p).remote, q) == (q == p || Get(peer.remote, q))
  {
    var remote := if p / 8 >= |peer.remote| then Resized(peer.remote, p / 8 + 1) else peer.remote;
    forall q: nat
      ensures Get(WithPiece(peer, p).remote, q) == (q == p || Get(peer.remote, q))
    {
      GetPut(remote, p, true, q);
      assert remote == Resized(peer.remote, |remote|);
    }
  }

  method SetPiece(peer: Peer, index: nat) returns (r: Peer)
    ensures r == WithPiece(peer, index)
  {
    var byteIndex := index / 8;
    var remote := if byteIndex >= |peer.remote| then Resized(peer.remote, byteIndex + 1) else peer.remote;
    hide Get, Put, Resized;
    if !Get(remote, index) {
      remote := Put(remote, index, true);
    } else {
      PutSet(remote, index);
    }
    r := peer.(remote := remote);
  }

  // ---------------------------------------------------------------- blame

  /** The scores after one more bad block from `ip`. */
  function Blamed(scores: map<string, nat>, ip: string): (r: map<string, nat>) {
    scores[ip := (if ip in scores then scores[ip] else 0) + 1]
  }

  /** Scores and swarm after blaming the first n block sources in turn; three strikes remove a peer. */
  function BlameAll(scores: map<string, nat>, swarm: Swarm, sources: seq<Option<string>>, n: nat): (r: (map<string, nat>, Swarm))
    requires n <= |sources|
  {
    if n == 0 then (scores, swarm)
    else
      var (c, w) := BlameAll(scores, swarm, sources, n - 1);
      match sources[n - 1]
      case None => (c, w)
      case Some(ip) =>
        var c' := Blamed(c, ip);
        (c', if c'[ip] >= 3 then Without(w, ip) else w)
  }

  ghost predicate ScoresGrow(before: map<string, nat>, after: map<string, nat>) {
    forall ip :: ip in before ==> ip in after && before[ip] <= after[ip]
  }

  /** Nobody has had three strikes. */
  ghost predicate NobodyOut(scores: map<string, nat>) {
    forall ip :: ip in scores ==> scores[ip] < 3
  }

  /** Blame only raises scores and only removes peers, and removes none while nobody has three strikes. */
  ghost predicate Judged(scores: map<string, nat>, swarm: Swarm, scores': map<string, nat>, swarm': Swarm) {
    && ScoresGrow(scores, scores')
    && (forall ip :: ip in swarm' ==> ip in swarm && swarm'[ip] == swarm[ip])
    && (NobodyOut(scores') ==> swarm' == swarm)
  }

  lemma {:induction false} BlameJudges(scores: map<string, nat>, swarm: Swarm, sources: seq<Option<string>>, n: nat)
    requires n <= |sources|
    ensures var (c, w) := BlameAll(scores, swarm, sources, n); Judged(scores, swarm, c, w)
  {
    if n > 0 {
      BlameJudges(scores, swarm, sources, n - 1);
      var (c, w) := BlameAll(scores, swarm, sources, n - 1);
      if sources[n - 1].Some? {
        var c' := Blamed(c, sources[n - 1].value);
        assert ScoresGrow(c, c');
        NobodyWasOut(c, c');
      }
    }
  }

  lemma {:induction false} NobodyWasOut(before: map<string, nat>, after: map<string, nat>)
    requires ScoresGrow(before, after)
    ensures NobodyOut(after) ==> NobodyOut(before)
  {
    if NobodyOut(after) {
      forall ip | ip in before
        ensures before[ip] < 3
      {
        assert after[ip] < 3;
      }
    }
  }

  lemma {:induction false} ScoresChain(a: map<string, nat>, b: map<string, nat>, c: map<string, nat>)
    requires ScoresGrow(a, b) && ScoresGrow(b, c)
    ensures ScoresGrow(a, c)
  {
    forall ip | ip in a
      ensures ip in c && a[ip] <= c[ip]
    {
      assert ip in b && a[ip] <= b[ip];
    }
  }
}
