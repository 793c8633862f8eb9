/** The routing table object, its k-closest query and the peer lookup. */
module Routing {
  import opened Wrappers
  import opened Octets
  import opened Dht

  // ---------------------------------------------------------------- buckets as values

  ghost predicate DistinctIds(nodes: seq<DhtNode>) {
    forall i, j :: 0 <= i < j < |nodes| ==> nodes[i].id != nodes[j].id
  }

  /** What bucket i may hold: at most 8 ids, each sharing exactly i leading bits with the owner. */
  ghost predicate GoodBucket(localId: NodeId, bucket: seq<DhtNode>, i: nat) {
    && |bucket| <= BUCKET_SIZE
    && DistinctIds(bucket)
    && forall n :: n in bucket ==> SharedPrefix(localId, n.id) == i
  }

  ghost predicate GoodTable(localId: NodeId, buckets: seq<seq<DhtNode>>) {
    |buckets| == BUCKETS && forall i :: 0 <= i < BUCKETS ==> GoodBucket(localId, buckets[i], i)
  }

  ghost predicate HasId(bucket: seq<DhtNode>, id: NodeId) {
    exists n :: n in bucket && n.id == id
  }

  /** Every node of the table, bucket by bucket. */
  function AllNodes(buckets: seq<seq<DhtNode>>): (r: seq<DhtNode>)
    ensures forall n :: n in r <==> exists i :: 0 <= i < |buckets| && n in buckets[i]
  {
    if buckets == [] then []
    else
      var rest := AllNodes(buckets[1..]);
      assert forall n, i :: 0 < i < |buckets| && n in buckets[i] ==> n in buckets[1..][i - 1];
      assert forall n, i :: 0 <= i < |buckets| - 1 && n in buckets[1..][i] ==> n in buckets[i + 1];
      assert forall n :: n in buckets[0] ==> 0 <= 0 < |buckets| && n in buckets[0];
      buckets[0] + rest
  }

  // ---------------------------------------------------------------- sorting by distance

  /** a is at most as far from the target as b. */
  predicate NoFarther(a: DhtNode, b: DhtNode, target: NodeId) {
    !Less(XorSeq(b.id, target), XorSeq(a.id, target))
  }

  ghost predicate SortedByDistance(s: seq<DhtNode>, target: NodeId) {
    forall i, j :: 0 <= i < j < |s| ==> NoFarther(s[i], s[j], target)
  }

  lemma {:induction false} NoFartherTransitive(a: DhtNode, b: DhtNode, c: DhtNode, target: NodeId)
    requires NoFarther(a, b, target) && NoFarther(b, c, target)
    ensures NoFarther(a, c, target)
  {
    var x, y, z := XorSeq(a.id, target), XorSeq(b.id, target), XorSeq(c.id, target);
    LessTotal(x, y);
    LessTotal(y, z);
    if Less(z, x) && Less(x, y) {
      LessTransitive(z, x, y);
    }
  }

  /** Stable insertion before the first strictly farther or equal element. */
  function Inserted(n: DhtNode, s: seq<DhtNode>, target: NodeId): (r: seq<DhtNode>)
    ensures |r| == |s| + 1
  {
    if s == [] || NoFarther(n, s[0], target) then [n] + s
    else [s[0]] + Inserted(n, s[1..], target)
  }

  /** A stable sort by distance to the target. */
  function SortNodes(s: seq<DhtNode>, target: NodeId): (r: seq<DhtNode>)
    ensures |r| == |s|
  {
    if s == [] then [] else Inserted(s[0], SortNodes(s[1..], target), target)
  }

  lemma {:induction false} InsertedContents(n: DhtNode, s: seq<DhtNode>, target: NodeId)
    ensures multiset(Inserted(n, s, target)) == multiset{n} + multiset(s)
    decreases |s|
  {
    if s != [] && !NoFarther(n, s[0], target) {
      InsertedContents(n, s[1..], target);
      assert s == [s[0]] + s[1..];
    }
  }

  lemma {:induction false} InsertedSorted(n: DhtNode, s: seq<DhtNode>, target: NodeId)
    requires SortedByDistance(s, target)
    ensures SortedByDistance(Inserted(n, s, target), target)
    decreases |s|
  {
    if s == [] {
    } else if NoFarther(n, s[0], target) {
      forall j | 0 <= j < |s|
        ensures NoFarther(n, s[j], target)
      {
        if j > 0 {
          NoFartherTransitive(n, s[0], s[j], target);
        }
      }
    } else {
      var rest := Inserted(n, s[1..], target);
      InsertedSorted(n, s[1..], target);
      InsertedContents(n, s[1..], target);
      LessTotal(XorSeq(n.id, target), XorSeq(s[0].id, target));
      forall m | m in rest
        ensures NoFarther(s[0], m, target)
      {
        assert m in multiset(rest);
      }
    }
  }

  /** Sorting rearranges the nodes into order of distance. */
  lemma {:induction false} SortNodesCorrect(s: seq<DhtNode>, target: NodeId)
    ensures multiset(SortNodes(s, target)) == multiset(s)
    ensures SortedByDistance(SortNodes(s, target), target)
    decreases |s|
  {
    if s != [] {
      SortNodesCorrect(s[1..], target);
      InsertedSorted(s[0], SortNodes(s[1..], target), target);
      InsertedContents(s[0], SortNodes(s[1..], target), target);
      assert s == [s[0]] + s[1..];
    }
  }

  /**
    `r` is the k nearest nodes: as many as asked for or all there are, all from
    the table, nearest first, and everything left out is strictly farther.
   */
  ghost predicate NearestNodes(all: seq<DhtNode>, r: seq<DhtNode>, target: NodeId, count: nat) {
    && |r| == (if count < |all| then count else |all|)
    && multiset(r) <= multiset(all)
    && SortedByDistance(r, target)
    && forall n, m :: n in r && m in all && m !in r ==> Less(XorSeq(n.id, target), XorSeq(m.id, target))
  }

  lemma {:induction false} TruncatedSortIsNearest(all: seq<DhtNode>, target: NodeId, count: nat)
    requires DistinctIds(all)
    ensures var k := if count < |all| then count else |all|;
      NearestNodes(all, SortNodes(all, target)[..k], target, count)
  {
    hide SortNodes, Less, XorSeq, DistinctIds;
    var s := SortNodes(all, target);
    var k := if count < |all| then count else |all|;
    SortNodesCorrect(all, target);
    assert s == s[..k] + s[k..];
    forall n, m | n in s[..k] && m in all && m !in s[..k]
      ensures Less(XorSeq(n.id, target), XorSeq(m.id, target))
    {
      LeftOutIsFarther(all, s, target, k, n, m);
    }
  }

  lemma {:induction false} LeftOutIsFarther(all: seq<DhtNode>, s: seq<DhtNode>, target: NodeId, k: nat, n: DhtNode, m: DhtNode)
    requires DistinctIds(all) && multiset(s) == multiset(all) && SortedByDistance(s, target) && k <= |s|
    requires n in s[..k] && m in all && m !in s[..k]
    ensures Less(XorSeq(n.id, target), XorSeq(m.id, target))
  {
    hide Less, XorSeq;
    assert m in multiset(s);
    var i :| 0 <= i < k && s[i] == n;
    var j :| 0 <= j < |s| && s[j] == m;
    assert forall x :: 0 <= x < k ==> s[x] in s[..k];
    assert NoFarther(s[i], s[j], target);
    assert n in multiset(s) && n in all;
    LessTotal(XorSeq(n.id, target), XorSeq(m.id, target));
    if XorSeq(n.id, target) == XorSeq(m.id, target) {
      DistanceInjective(n.id, m.id, target);
      SameIdSameNode(all, n, m);
    }
  }

  lemma {:induction false} SameIdSameNode(nodes: seq<DhtNode>, a: DhtNode, b: DhtNode)
    requires DistinctIds(nodes) && a in nodes && b in nodes && a.id == b.id
    ensures a == b
  {
    var i :| 0 <= i < |nodes| && nodes[i] == a;
    var j :| 0 <= j < |nodes| && nodes[j] == b;
  }

  // ---------------------------------------------------------------- table-wide facts

  /** Ids are distinct across the whole table. */
  lemma {:induction false} TableIdsDistinct(localId: NodeId, buckets: seq<seq<DhtNode>>, from: nat)
    requires from <= |buckets|
    requires forall i :: 0 <= i < |buckets| ==> GoodBucket(localId, buckets[i], i)
    ensures DistinctIds(AllNodes(buckets[from..]))
    decreases |buckets| - from
  {
    hide DistinctIds, SharedPrefix;
    if from == |buckets| {
      NoIds();
    } else {
      var rest := buckets[from..];
      TableIdsDistinct(localId, buckets, from + 1);
      assert rest[1..] == buckets[from + 1..];
      var later := AllNodes(buckets[from + 1..]);
      forall n, m | n in buckets[from] && m in later
        ensures n.id != m.id
      {
        DifferentBuckets(localId, buckets, from, n, m);
      }
      assert AllNodes(rest) == buckets[from] + later;
      assert GoodBucket(localId, buckets[from], from);
      JoinDistinct(buckets[from], later);
    }
  }

  lemma {:induction false} NoIds()
    ensures DistinctIds([])
  {
  }

  lemma {:induction false} JoinDistinct(a: seq<DhtNode>, b: seq<DhtNode>)
    requires DistinctIds(a) && DistinctIds(b) && forall n, m :: n in a && m in b ==> n.id != m.id
    ensures DistinctIds(a + b)
  {
    forall i, j | 0 <= i < j < |a + b|
      ensures (a + b)[i].id != (a + b)[j].id
    {
      assert i < |a| ==> (a + b)[i] == a[i] && a[i] in a;
      assert j >= |a| ==> (a + b)[j] == b[j - |a|] && b[j - |a|] in b;
      assert i >= |a| ==> (a + b)[i] == b[i - |a|];
      assert j < |a| ==> (a + b)[j] == a[j];
    }
  }

  lemma {:induction false} DifferentBuckets(localId: NodeId, buckets: seq<seq<DhtNode>>, from: nat, n: DhtNode, m: DhtNode)
    requires from < |buckets| && forall i :: 0 <= i < |buckets| ==> GoodBucket(localId, buckets[i], i)
    requires n in buckets[from] && m in AllNodes(buckets[from + 1..])
    ensures n.id != m.id
  {
    hide DistinctIds, SharedPrefix;
    var i :| 0 <= i < |buckets[from + 1..]| && m in buckets[from + 1..][i];
    assert m in buckets[from + 1 + i];
    assert GoodBucket(localId, buckets[from], from) && GoodBucket(localId, buckets[from + 1 + i], from + 1 + i);
    assert SharedPrefix(localId, n.id) == from && SharedPrefix(localId, m.id) == from + 1 + i;
  }

  /** Deeper buckets hold strictly closer nodes, and no bucket holds the owner. */
  lemma {:induction false} DeeperBucketsCloser(localId: NodeId, buckets: seq<seq<DhtNode>>, i: nat, j: nat, n: DhtNode, m: DhtNode)
    requires GoodTable(localId, buckets) && i < j < BUCKETS
    requires n in buckets[i] && m in buckets[j]
    ensures Less(XorSeq(localId, m.id), XorSeq(localId, n.id))
    ensures n.id != localId && m.id != localId
  {
    DeeperIsCloser(XorSeq(localId, m.id), XorSeq(localId, n.id));
    FullPrefixIsEqual(localId, n.id);
    FullPrefixIsEqual(localId, m.id);
  }

  // ---------------------------------------------------------------- the table object

  class RoutingTable {
    const localId: NodeId
    var buckets: seq<seq<DhtNode>>

    ghost predicate Valid()
      reads this
    {
      GoodTable(localId, buckets)
    }

    constructor (id: NodeId)
      ensures Valid() && localId == id
      ensures forall i :: 0 <= i < BUCKETS ==> buckets[i] == []
    {
      localId := id;
      var bs: seq<seq<DhtNode>> := [];
      while |bs| < BUCKETS
        invariant |bs| <= BUCKETS
        invariant forall i :: 0 <= i < |bs| ==> bs[i] == []
      {
        bs := bs + [[]];
      }
      buckets := bs;
    }

    /**
      A known node moves to the end of its bucket; a new one is appended if its
      bucket has room; the owner's own id and everything else leave the table alone.
     */
    method AddNode(node: DhtNode)
      requires Valid()
      modifies this`buckets
      ensures Valid()
      ensures buckets == Added(localId, old(buckets), node)
    {
      if node.id == localId {
        return;
      }
      var zeros := CountLeadingZeros(localId, node.id);
      FullPrefixIsEqual(localId, node.id);
      var k := if zeros < 159 then zeros else 159;
      var bucket := buckets[k];
      assert GoodBucket(localId, bucket, k);
      var pos := 0;
      while pos < |bucket| && bucket[pos].id != node.id
        invariant 0 <= pos <= |bucket|
        invariant BucketAfter(bucket, node) == AfterSearch(bucket, node, pos)
      {
        pos := pos + 1;
      }
      AddedGood(localId, buckets, node);
      if pos < |bucket| {
        var active := bucket[pos];
        bucket := bucket[..pos] + bucket[pos + 1..];
        bucket := bucket + [active];
      } else if |bucket| < BUCKET_SIZE {
        bucket := bucket + [node];
      }
      buckets := buckets[k := bucket];
    }

    method ClosestNodes(target: NodeId, count: nat) returns (r: seq<DhtNode>)
      requires Valid()
      ensures NearestNodes(AllNodes(buckets), r, target, count)
    {
      hide SortNodes, Less, XorSeq, GoodBucket, SortedByDistance;
      var all: seq<DhtNode> := [];
      for i := 0 to |buckets|
        invariant all + AllNodes(buckets[i..]) == AllNodes(buckets)
      {
        assert buckets[i..][1..] == buckets[i + 1..];
        all := all + buckets[i];
      }
      assert buckets[|buckets|..] == [] && all == AllNodes(buckets);
      TableIdsDistinct(localId, buckets, 0);
      assert buckets[0..] == buckets;
      TruncatedSortIsNearest(all, target, count);
      var sorted := SortNodes(all, target);
      r := sorted[..if count < |all| then count else |all|];
    }
  }

  /** The bucket after a search that has passed `pos` entries without a match. */
  function AfterSearch(bucket: seq<DhtNode>, node: DhtNode, pos: nat): (r: seq<DhtNode>)
    requires pos <= |bucket|
    decreases |bucket| - pos
  {
    if pos == |bucket| then (if |bucket| < BUCKET_SIZE then bucket + [node] else bucket)
    else if bucket[pos].id == node.id then MovedToEnd(bucket, pos)
    else AfterSearch(bucket, node, pos + 1)
  }

  function BucketAfter(bucket: seq<DhtNode>, node: DhtNode): (r: seq<DhtNode>) {
    AfterSearch(bucket, node, 0)
  }

  /** A bucket step keeps the bucket good, keeps all old ids and adds at most the new one. */
  lemma {:induction false} AfterSearchGood(localId: NodeId, bucket: seq<DhtNode>, node: DhtNode, k: nat, pos: nat)
    requires pos <= |bucket| && GoodBucket(localId, bucket, k) && SharedPrefix(localId, node.id) == k
    requires forall i :: 0 <= i < pos ==> bucket[i].id != node.id
    ensures var r := AfterSearch(bucket, node, pos);
      && GoodBucket(localId, r, k)
      && (forall n :: n in bucket ==> n in r)
      && (forall n :: n in r ==> n in bucket || n == node)
      && (HasId(r, node.id) <==> HasId(bucket, node.id) || |bucket| < BUCKET_SIZE)
    decreases |bucket| - pos
  {
    if pos == |bucket| {
      if |bucket| < BUCKET_SIZE {
        assert (bucket + [node])[|bucket|] == node;
      }
    } else if bucket[pos].id == node.id {
      MoveToEndKeeps(bucket, pos);
      assert bucket[pos] in bucket;
    } else {
      AfterSearchGood(localId, bucket, node, k, pos + 1);
    }
  }

  function MovedToEnd(bucket: seq<DhtNode>, pos: nat): (r: seq<DhtNode>)
    requires pos < |bucket|
    ensures |r| == |bucket|
  {
    bucket[..pos] + bucket[pos + 1..] + [bucket[pos]]
  }

  /** Where the entry now at position i was before. */
  function OldPosition(pos: nat, n: nat, i: nat): (r: nat)
    requires pos < n && i < n
    ensures r < n
  {
    if i < pos then i else if i == n - 1 then pos else i + 1
  }

  lemma {:induction false} MovedAt(bucket: seq<DhtNode>, pos: nat, i: nat)
    requires pos < |bucket| && i < |bucket|
    ensures MovedToEnd(bucket, pos)[i] == bucket[OldPosition(pos, |bucket|, i)]
  {
  }

  /** Moving one entry to the end keeps the entries and their distinctness. */
  lemma {:induction false} MoveToEndKeeps(bucket: seq<DhtNode>, pos: nat)
    requires pos < |bucket| && DistinctIds(bucket)
    ensures DistinctIds(MovedToEnd(bucket, pos))
    ensures forall n :: n in MovedToEnd(bucket, pos) <==> n in bucket
  {
    var r := MovedToEnd(bucket, pos);
    forall i, j | 0 <= i < j < |r|
      ensures r[i].id != r[j].id
    {
      hide MovedToEnd;
      MovedAt(bucket, pos, i);
      MovedAt(bucket, pos, j);
      var a, b := OldPosition(pos, |bucket|, i), OldPosition(pos, |bucket|, j);
      assert a != b;
      assert a < b || b < a;
    }
    forall n
      ensures n in r <==> n in bucket
    {
      assert bucket == bucket[..pos] + [bucket[pos]] + bucket[pos + 1..];
    }
  }

  lemma {:induction false} BucketAfterGood(localId: NodeId, bucket: seq<DhtNode>, node: DhtNode, k: nat)
    requires GoodBucket(localId, bucket, k) && SharedPrefix(localId, node.id) == k
    ensures GoodBucket(localId, BucketAfter(bucket, node), k)
    ensures forall n :: n in bucket ==> n in BucketAfter(bucket, node)
    ensures forall n :: n in BucketAfter(bucket, node) ==> n in bucket || n == node
    ensures HasId(BucketAfter(bucket, node), node.id) <==> HasId(bucket, node.id) || |bucket| < BUCKET_SIZE
  {
    AfterSearchGood(localId, bucket, node, k, 0);
  }

  /** The table after one `add_node`. */
  function Added(localId: NodeId, buckets: seq<seq<DhtNode>>, node: DhtNode): (r: seq<seq<DhtNode>>)
    requires |buckets| == BUCKETS
    ensures |r| == BUCKETS
  {
    if node.id == localId then buckets
    else
      var z := SharedPrefix(localId, node.id);
      var k := if z < 159 then z else 159;
      buckets[k := BucketAfter(buckets[k], node)]
  }

  /** One `add_node` keeps the table good, forgets nobody and adds at most the given node. */
  lemma {:induction false} AddedGood(localId: NodeId, buckets: seq<seq<DhtNode>>, node: DhtNode)
    requires GoodTable(localId, buckets)
    ensures GoodTable(localId, Added(localId, buckets, node))
    ensures forall i, n :: 0 <= i < BUCKETS && n in buckets[i] ==> n in Added(localId, buckets, node)[i]
    ensures forall i, n :: 0 <= i < BUCKETS && n in Added(localId, buckets, node)[i] ==> n in buckets[i] || n == node
  {
    if node.id != localId {
      FullPrefixIsEqual(localId, node.id);
      var k := SharedPrefix(localId, node.id);
      assert GoodBucket(localId, buckets[k], k);
      BucketAfterGood(localId, buckets[k], node, k);
    }
  }

  function AddedAll(localId: NodeId, buckets: seq<seq<DhtNode>>, nodes: seq<DhtNode>): (r: seq<seq<DhtNode>>)
    requires |buckets| == BUCKETS
    ensures |r| == BUCKETS
    decreases |nodes|
  {
    if nodes == [] then buckets
    else AddedAll(localId, Added(localId, buckets, nodes[0]), nodes[1..])
  }

  /**
    Any sequence of `add_node` calls on an empty table: bucket i holds at most 8
    distinct ids sharing exactly i leading bits with the owner, all ids of the
    table are distinct, and every entry is a node that was added.
   */
  lemma {:induction false} TableAfterAnyAdditions(localId: NodeId, start: seq<seq<DhtNode>>, nodes: seq<DhtNode>)
    requires GoodTable(localId, start)
    ensures GoodTable(localId, AddedAll(localId, start, nodes))
    ensures DistinctIds(AllNodes(AddedAll(localId, start, nodes)))
    ensures forall i, n :: 0 <= i < BUCKETS && n in AddedAll(localId, start, nodes)[i] ==> n in start[i] || n in nodes
    decreases |nodes|
  {
    hide Added, DistinctIds, AllNodes;
    if nodes == [] {
      TableIdsDistinct(localId, start, 0);
      assert start[0..] == start;
    } else {
      AddedGood(localId, start, nodes[0]);
      TableAfterAnyAdditions(localId, Added(localId, start, nodes[0]), nodes[1..]);
      assert nodes == [nodes[0]] + nodes[1..];
    }
  }

  // ---------------------------------------------------------------- lookup

  /** A peer as the replies name it: its address bytes and its port. */
  datatype PeerAddress = PeerAddress(ip: seq<Octet>, port: nat)

  /** What a reply says: the compact peers under `values`, then the nodes of `nodes` followed by those of `nodes6`. */
  datatype Answer = Answer(values: seq<seq<Octet>>, nodes: seq<DhtNode>)

  /** What a query got back: nothing usable, or an answer. */
  type Reply = Option<Answer>

  /** A compact peer: 4 or 16 address bytes and a big-endian port; anything else is skipped. */
  function CompactPeer(v: seq<Octet>): (r: Option<PeerAddress>)
    ensures r.Some? <==> |v| == 6 || |v| == 18
  {
    if |v| == 6 || |v| == 18 then
      var high: nat, low: nat := v[|v| - 2], v[|v| - 1];
      Some(PeerAddress(v[..|v| - 2], 256 * high + low))
    else None
  }

  function PeersIn(values: seq<seq<Octet>>, n: nat): seq<PeerAddress>
    requires n <= |values|
  {
    if n == 0 then []
    else
      var before := PeersIn(values, n - 1);
      match CompactPeer(values[n - 1])
      case None => before
      case Some(peer) => before + [peer]
  }

  /** The peers named by the first n replies, in the order they are handed on. */
  function PeersOf(replies: seq<Reply>, n: nat): seq<PeerAddress> {
    if n == 0 then []
    else
      var before := PeersOf(replies, n - 1);
      if n <= |replies| && replies[n - 1].Some? then
        var values := replies[n - 1].value.values;
        before + PeersIn(values, |values|)
      else before
  }

  /** Hands on every peer of one reply. */
  method SendPeers(values: seq<seq<Octet>>) returns (sent: seq<PeerAddress>)
    ensures sent == PeersIn(values, |values|)
  {
    sent := [];
    for i := 0 to |values|
      invariant sent == PeersIn(values, i)
    {
      var peer := CompactPeer(values[i]);
      if peer.Some? {
        sent := sent + [peer.value];
      }
    }
  }

  /** The buckets after the first r waits, each adding what arrives during it. */
  ghost function Waited(localId: NodeId, buckets: seq<seq<DhtNode>>, arrivals: seq<seq<DhtNode>>, r: nat): (b: seq<seq<DhtNode>>)
    requires |buckets| == BUCKETS
    ensures |b| == BUCKETS
  {
    if r == 0 then buckets
    else
      var before := Waited(localId, buckets, arrivals, r - 1);
      if r <= |arrivals| then AddedAll(localId, before, arrivals[r - 1]) else before
  }

  /** The table was empty before each of the first n waits. */
  ghost predicate StayedEmpty(localId: NodeId, buckets: seq<seq<DhtNode>>, arrivals: seq<seq<DhtNode>>, n: nat)
    requires |buckets| == BUCKETS
  {
    forall k :: 0 <= k < n ==> AllNodes(Waited(localId, buckets, arrivals, k)) == []
  }

  ghost predicate Known(queried: seq<NodeId>, candidates: seq<DhtNode>, id: NodeId) {
    id in queried || exists c :: c in candidates && c.id == id
  }

  /** `r` is the candidate list after offering it the nodes of one reply. */
  method OfferCandidates(queried: seq<NodeId>, candidates: seq<DhtNode>, closer: seq<DhtNode>) returns (r: seq<DhtNode>)
    ensures candidates <= r
    ensures forall c :: c in r ==> c in candidates || c in closer
    ensures AllKnown(queried, r, closer)
  {
    r := candidates;
    for i := 0 to |closer|
      invariant candidates <= r
      invariant forall c :: c in r ==> c in candidates || c in closer
      invariant forall k :: 0 <= k < i ==> Known(queried, r, closer[k].id)
    {
      var node := closer[i];
      ghost var before := r;
      var present := ContainsId(r, node.id);
      if node.id !in queried && !present {
        r := r + [node];
        assert node in r;
      }
      assert forall c :: c in before ==> c in r;
    }
  }

  method ContainsId(nodes: seq<DhtNode>, id: NodeId) returns (found: bool)
    ensures found <==> HasId(nodes, id)
  {
    found := false;
    for i := 0 to |nodes|
      invariant found <==> exists k :: 0 <= k < i && nodes[k].id == id
    {
      if nodes[i].id == id {
        found := true;
      }
    }
  }

  /**
    The lookup loop.  `arrivals[k]` are the nodes the listener adds while the
    loop waits for the k-th time on an empty table; `replies[k]` is whatever the
    k-th queried node answers.  For all of these the loop ends, having waited
    `waits` times, each time on an empty table.  It queries at most 20 ids and none
    twice, every queried id was among the 8 nearest of the table so reached or
    named by an earlier reply, and if it stops before 20 queries nothing that any
    reply named is left unqueried.  The peers handed on are exactly those the
    replies to these queries name.  An empty table without arrivals is not queried
    from at all.
   */
  method LookupPeers(table: RoutingTable, infoHash: NodeId, arrivals: seq<seq<DhtNode>>, replies: seq<Reply>)
      returns (queried: seq<NodeId>, peers: seq<PeerAddress>, ghost waits: nat, ghost initial: seq<DhtNode>)
    requires table.Valid()
    modifies table`buckets
    ensures table.Valid()
    ensures waits <= MAX_WAITS && (waits < MAX_WAITS ==> initial != [])
    ensures StayedEmpty(table.localId, old(table.buckets), arrivals, waits)
    ensures NearestNodes(AllNodes(Waited(table.localId, old(table.buckets), arrivals, waits)), initial, infoHash, 8)
    ensures |queried| <= MAX_QUERIES
    ensures forall i, j :: 0 <= i < j < |queried| ==> queried[i] != queried[j]
    ensures forall i :: 0 <= i < |queried| ==> Sourced(initial, replies, i, queried[i])
    ensures |queried| < MAX_QUERIES ==>
      && (forall n :: n in initial ==> n.id in queried)
      && (forall k, n :: 0 <= k < |queried| && k < |replies| && replies[k].Some? && n in replies[k].value.nodes ==> n.id in queried)
    ensures peers == PeersOf(replies, |queried|)
    ensures arrivals == [] && AllNodes(old(table.buckets)) == [] ==> queried == []
  {
    hide RoutingTable.Valid, AllNodes, NearestNodes, Sourced, Waited, StayedEmpty;
    BucketCount(table);
    var candidates;
    candidates, waits := WaitForNodes(table, infoHash, arrivals);
    initial := candidates;
    queried, peers := QueryCandidates(table, candidates, replies);
    if arrivals == [] {
      NothingArrives(table.localId, old(table.buckets), waits);
    }
    NobodyNamed(AllNodes(old(table.buckets)), initial, infoHash, replies, queried);
  }

  lemma {:induction false} NobodyNamed(nodes: seq<DhtNode>, initial: seq<DhtNode>, target: NodeId, replies: seq<Reply>, queried: seq<NodeId>)
    requires forall i :: 0 <= i < |queried| ==> Sourced(initial, replies, i, queried[i])
    ensures NearestNodes(nodes, initial, target, 8) && nodes == [] ==> queried == []
  {
    if queried != [] {
      assert Sourced(initial, replies, 0, queried[0]);
    }
  }

  /** Asks the table for the nearest nodes, at most 10 times more while it has none. */
  method WaitForNodes(table: RoutingTable, infoHash: NodeId, arrivals: seq<seq<DhtNode>>) returns (candidates: seq<DhtNode>, ghost waits: nat)
    requires table.Valid()
    modifies table`buckets
    ensures table.Valid() && waits <= MAX_WAITS && (waits < MAX_WAITS ==> candidates != [])
    ensures StayedEmpty(table.localId, old(table.buckets), arrivals, waits)
    ensures NearestNodes(AllNodes(Waited(table.localId, old(table.buckets), arrivals, waits)), candidates, infoHash, 8)
  {
    ghost var start := table.buckets;
    hide RoutingTable.Valid, GoodTable, AllNodes, NearestNodes, Added, AddedAll, Waited, StayedEmpty;
    BucketCount(table);
    NoWait(table.localId, start, arrivals);
    candidates := table.ClosestNodes(infoHash, 8);
    var retries := 0;
    while |candidates| == 0 && retries < MAX_WAITS
      invariant table.Valid() && retries <= MAX_WAITS
      invariant table.buckets == Waited(table.localId, start, arrivals, retries)
      invariant StayedEmpty(table.localId, start, arrivals, retries)
      invariant NearestNodes(AllNodes(table.buckets), candidates, infoHash, 8)
    {
      NoneNearest(AllNodes(table.buckets), candidates, infoHash, 8);
      WaitStep(table.localId, start, arrivals, retries);
      StillEmpty(table.localId, start, arrivals, retries);
      BucketCount(table);
      if retries < |arrivals| {
        AddNodes(table, arrivals[retries]);
      }
      candidates := table.ClosestNodes(infoHash, 8);
      retries := retries + 1;
    }
    waits := retries;
  }

  lemma {:induction false} BucketCount(table: RoutingTable)
    requires table.Valid()
    ensures |table.buckets| == BUCKETS
  {
  }

  lemma {:induction false} NoWait(localId: NodeId, buckets: seq<seq<DhtNode>>, arrivals: seq<seq<DhtNode>>)
    requires |buckets| == BUCKETS
    ensures Waited(localId, buckets, arrivals, 0) == buckets && StayedEmpty(localId, buckets, arrivals, 0)
  {
  }

  lemma {:induction false} WaitStep(localId: NodeId, buckets: seq<seq<DhtNode>>, arrivals: seq<seq<DhtNode>>, r: nat)
    requires |buckets| == BUCKETS
    ensures Waited(localId, buckets, arrivals, r + 1)
         == if r < |arrivals| then AddedAll(localId, Waited(localId, buckets, arrivals, r), arrivals[r])
            else Waited(localId, buckets, arrivals, r)
  {
    hide AddedAll;
  }

  /** Without arrivals the table stays as it is. */
  lemma {:induction false} NothingArrives(localId: NodeId, buckets: seq<seq<DhtNode>>, r: nat)
    requires |buckets| == BUCKETS
    ensures Waited(localId, buckets, [], r) == buckets
  {
    if r > 0 {
      NothingArrives(localId, buckets, r - 1);
    }
  }

  lemma {:induction false} StillEmpty(localId: NodeId, buckets: seq<seq<DhtNode>>, arrivals: seq<seq<DhtNode>>, r: nat)
    requires |buckets| == BUCKETS && StayedEmpty(localId, buckets, arrivals, r) && AllNodes(Waited(localId, buckets, arrivals, r)) == []
    ensures StayedEmpty(localId, buckets, arrivals, r + 1)
  {
    hide Waited, AllNodes;
  }

  lemma {:induction false} NoneNearest(nodes: seq<DhtNode>, nearest: seq<DhtNode>, target: NodeId, limit: nat)
    requires NearestNodes(nodes, nearest, target, limit) && nearest == [] && limit > 0
    ensures nodes == []
  {
  }

  /** The id belongs to the initial candidates or to one of the first n replies. */
  ghost predicate Sourced(initial: seq<DhtNode>, replies: seq<Reply>, n: nat, id: NodeId) {
    HasId(initial, id) || NamedBy(replies, n, id)
  }

  ghost predicate AllKnown(queried: seq<NodeId>, candidates: seq<DhtNode>, nodes: seq<DhtNode>) {
    forall n :: n in nodes ==> Known(queried, candidates, n.id)
  }

  /** Everything the replies received so far named is queried or waiting. */
  ghost predicate RepliesKnown(queried: seq<NodeId>, candidates: seq<DhtNode>, replies: seq<Reply>) {
    forall k :: 0 <= k < |queried| && k < |replies| && replies[k].Some? ==> AllKnown(queried, candidates, replies[k].value.nodes)
  }

  lemma {:induction false} StartKnown(initial: seq<DhtNode>, replies: seq<Reply>)
    ensures AllKnown([], initial, initial) && RepliesKnown([], initial, replies)
    ensures forall c :: c in initial ==> Sourced(initial, replies, 0, c.id)
  {
  }

  lemma {:induction false} SourcedLater(initial: seq<DhtNode>, replies: seq<Reply>, k: nat, c: DhtNode)
    requires Sourced(initial, replies, k, c.id) || (k < |replies| && replies[k].Some? && c in replies[k].value.nodes)
    ensures Sourced(initial, replies, k + 1, c.id)
  {
  }

  /** A candidate queried before can be dropped. */
  lemma {:induction false} SkipKnown(queried: seq<NodeId>, before: seq<DhtNode>, initial: seq<DhtNode>, replies: seq<Reply>)
    requires before != [] && before[0].id in queried
    requires AllKnown(queried, before, initial) && RepliesKnown(queried, before, replies)
    ensures AllKnown(queried, before[1..], initial) && RepliesKnown(queried, before[1..], replies)
  {
    assert forall c :: c in before ==> c == before[0] || c in before[1..];
    assert forall id :: Known(queried, before, id) ==> Known(queried, before[1..], id);
  }

  /** A queried candidate stays known, and so does everything else. */
  lemma {:induction false} VisitKnown(queried: seq<NodeId>, before: seq<DhtNode>, initial: seq<DhtNode>, replies: seq<Reply>, candidates: seq<DhtNode>)
    requires before != [] && before[1..] <= candidates
    requires AllKnown(queried, before, initial) && RepliesKnown(queried, before, replies)
    requires var k := |queried|;
      k < |replies| && replies[k].Some? ==> AllKnown(queried + [before[0].id], candidates, replies[k].value.nodes)
    ensures var after := queried + [before[0].id]; AllKnown(after, candidates, initial) && RepliesKnown(after, candidates, replies)
  {
    var after := queried + [before[0].id];
    forall id | Known(queried, before, id)
      ensures Known(after, candidates, id)
    {
      KnownLater(queried, before, candidates, id);
    }
    hide Known;
  }

  lemma {:induction false} KnownLater(queried: seq<NodeId>, before: seq<DhtNode>, candidates: seq<DhtNode>, id: NodeId)
    requires before != [] && before[1..] <= candidates && Known(queried, before, id)
    ensures Known(queried + [before[0].id], candidates, id)
  {
    if id !in queried {
      var c :| c in before && c.id == id;
      if c != before[0] {
        assert c in before[1..];
        var i :| 0 <= i < |before[1..]| && before[1..][i] == c;
        assert candidates[i] == c;
      }
    }
  }

  lemma {:induction false} QueriesDone(queried: seq<NodeId>, candidates: seq<DhtNode>, initial: seq<DhtNode>, replies: seq<Reply>)
    requires AllKnown(queried, candidates, initial) && RepliesKnown(queried, candidates, replies)
    ensures candidates == [] ==>
      && (forall n :: n in initial ==> n.id in queried)
      && (forall k, n :: 0 <= k < |queried| && k < |replies| && replies[k].Some? && n in replies[k].value.nodes ==> n.id in queried)
  {
  }

  method QueryCandidates(table: RoutingTable, initial: seq<DhtNode>, replies: seq<Reply>)
      returns (queried: seq<NodeId>, peers: seq<PeerAddress>)
    requires table.Valid()
    modifies table`buckets
    ensures table.Valid()
    ensures |queried| <= MAX_QUERIES
    ensures forall i, j :: 0 <= i < j < |queried| ==> queried[i] != queried[j]
    ensures forall i :: 0 <= i < |queried| ==> Sourced(initial, replies, i, queried[i])
    ensures |queried| < MAX_QUERIES ==>
      && (forall n :: n in initial ==> n.id in queried)
      && (forall k, n :: 0 <= k < |queried| && k < |replies| && replies[k].Some? && n in replies[k].value.nodes ==> n.id in queried)
    ensures peers == PeersOf(replies, |queried|)
  {
    hide RoutingTable.Valid, Known, Sourced;
    queried, peers := [], [];
    var candidates := initial;
    StartKnown(initial, replies);
    while |candidates| > 0 && |queried| < MAX_QUERIES
      invariant table.Valid() && |queried| <= MAX_QUERIES
      invariant forall i, j :: 0 <= i < j < |queried| ==> queried[i] != queried[j]
      invariant forall i :: 0 <= i < |queried| ==> Sourced(initial, replies, i, queried[i])
      invariant forall c :: c in candidates ==> Sourced(initial, replies, |queried|, c.id)
      invariant AllKnown(queried, candidates, initial) && RepliesKnown(queried, candidates, replies)
      invariant peers == PeersOf(replies, |queried|)
      decreases MAX_QUERIES - |queried|, |candidates|
    {
      if candidates[0].id in queried {
        SkipKnown(queried, candidates, initial, replies);
        candidates := candidates[1..];
        continue;
      }
      var more;
      queried, candidates, more := Visit(table, queried, candidates, initial, replies);
      peers := peers + more;
    }
    QueriesDone(queried, candidates, initial, replies);
  }

  /** Queries the first candidate and takes in what it answers. */
  method Visit(table: RoutingTable, queried: seq<NodeId>, before: seq<DhtNode>, initial: seq<DhtNode>, replies: seq<Reply>)
      returns (after: seq<NodeId>, candidates: seq<DhtNode>, more: seq<PeerAddress>)
    requires table.Valid() && before != [] && before[0].id !in queried
    requires forall c :: c in before ==> Sourced(initial, replies, |queried|, c.id)
    requires AllKnown(queried, before, initial) && RepliesKnown(queried, before, replies)
    modifies table`buckets
    ensures table.Valid() && after == queried + [before[0].id]
    ensures forall c :: c in candidates ==> Sourced(initial, replies, |after|, c.id)
    ensures AllKnown(after, candidates, initial) && RepliesKnown(after, candidates, replies)
    ensures PeersOf(replies, |after|) == PeersOf(replies, |queried|) + more
  {
    hide RoutingTable.Valid, Known, Sourced, AllKnown, RepliesKnown, PeersIn;
    var node, rest := before[0], before[1..];
    after := queried + [node.id];
    var k := |queried|;
    if k < |replies| && replies[k].Some? {
      table.AddNode(node);
      more := SendPeers(replies[k].value.values);
      candidates := OfferCandidates(after, rest, replies[k].value.nodes);
    } else {
      candidates, more := rest, [];
    }
    VisitKnown(queried, before, initial, replies, candidates);
    forall c | c in candidates
      ensures Sourced(initial, replies, |after|, c.id)
    {
      assert c in before || (k < |replies| && replies[k].Some? && c in replies[k].value.nodes);
      SourcedLater(initial, replies, k, c);
    }
  }

  method AddNodes(table: RoutingTable, nodes: seq<DhtNode>)
    requires table.Valid()
    modifies table`buckets
    ensures table.Valid()
    ensures table.buckets == AddedAll(table.localId, old(table.buckets), nodes)
  {
    for i := 0 to |nodes|
      invariant table.Valid()
      invariant AddedAll(table.localId, table.buckets, nodes[i..]) == AddedAll(table.localId, old(table.buckets), nodes)
    {
      assert nodes[i..][1..] == nodes[i + 1..];
      table.AddNode(nodes[i]);
    }
  }

  /** One of the first n replies named the id. */
  ghost predicate NamedBy(replies: seq<Reply>, n: nat, id: NodeId) {
    exists k, c :: 0 <= k < n && k < |replies| && replies[k].Some? && c in replies[k].value.nodes && c.id == id
  }
}
