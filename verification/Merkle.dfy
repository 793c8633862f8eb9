/**
  BEP 52 Merkle trees: specification level.

  SHA-256 is a parameter `sha`, an arbitrary function from byte strings to
  32-byte hashes, so every theorem holds for every hash function.  Soundness is
  stated as "the data is the tree's own, or here are two inputs that collide".
 */
module Merkle {
  import opened PowersOfTwo

  type Bytes = seq<bv8>
  type Hash = h: Bytes | |h| == 32 witness seq(32, _ => 0)
  type Sha = Bytes -> Hash

  /** The 32-byte zero hash used as padding. */
  function ZeroHash(): Hash {
    seq(32, _ => 0)
  }

  /** Two different byte strings with the same hash. */
  ghost predicate Collision(sha: Sha, x: Bytes, y: Bytes) {
    x != y && sha(x) == sha(y)
  }

  /** The 64 bytes hashed for a parent node. */
  function Pair(left: Hash, right: Hash): (r: Bytes)
    ensures |r| == 64
  {
    var l: Bytes, r: Bytes := left, right;
    l + r
  }

  // ---------------------------------------------------------------- layers

  /** The layer above `layer`: one parent hash per complete pair. */
  function Up(sha: Sha, layer: seq<Hash>): (r: seq<Hash>)
    ensures |r| == |layer| / 2
  {
    if |layer| < 2 then [] else [sha(Pair(layer[0], layer[1]))] + Up(sha, layer[2..])
  }

  lemma {:induction false} UpAt(sha: Sha, layer: seq<Hash>, i: nat)
    requires i < |layer| / 2
    ensures Up(sha, layer)[i] == sha(Pair(layer[2 * i], layer[2 * i + 1]))
    decreases i
  {
    if i > 0 {
      UpAt(sha, layer[2..], i - 1);
    }
  }

  lemma {:induction false} UpDrop(sha: Sha, layer: seq<Hash>, lo: nat)
    requires 2 * lo <= |layer|
    ensures Up(sha, layer[2 * lo..]) == Up(sha, layer)[lo..]
    decreases lo
  {
    if lo > 0 {
      UpDrop(sha, layer[2..], lo - 1);
      assert layer[2..][2 * (lo - 1)..] == layer[2 * lo..];
    } else {
      assert layer[0..] == layer;
    }
  }

  lemma {:induction false} UpTake(sha: Sha, layer: seq<Hash>, hi: nat)
    requires 2 * hi <= |layer|
    ensures Up(sha, layer[..2 * hi]) == Up(sha, layer)[..hi]
    decreases hi
  {
    if hi > 0 {
      UpTake(sha, layer[2..], hi - 1);
      assert layer[2..][..2 * (hi - 1)] == layer[..2 * hi][2..];
    }
  }

  /** Hashing a slice up gives the slice of the layer above. */
  lemma {:induction false} UpOfSlice(sha: Sha, layer: seq<Hash>, lo: nat, hi: nat)
    requires lo <= hi && 2 * hi <= |layer|
    ensures Up(sha, layer[2 * lo..2 * hi]) == Up(sha, layer)[lo..hi]
  {
    UpTake(sha, layer, hi);
    UpDrop(sha, layer[..2 * hi], lo);
    assert layer[..2 * hi][2 * lo..] == layer[2 * lo..2 * hi];
    assert Up(sha, layer)[..hi][lo..] == Up(sha, layer)[lo..hi];
  }

  /** The k-th layer above `leaves`. */
  function Level(sha: Sha, leaves: seq<Hash>, k: nat): (r: seq<Hash>) {
    if k == 0 then leaves else Up(sha, Level(sha, leaves, k - 1))
  }

  /** The root of a complete binary tree, defined top-down by halves. */
  function Root(sha: Sha, leaves: seq<Hash>): (r: Hash) {
    if |leaves| == 0 then ZeroHash()
    else if |leaves| == 1 then leaves[0]
    else sha(Pair(Root(sha, leaves[..|leaves| / 2]), Root(sha, leaves[|leaves| / 2..])))
  }

  /** Hash a layer up pairwise until one hash is left. */
  function FoldUp(sha: Sha, layer: seq<Hash>): (r: Hash)
    requires layer != []
    decreases |layer|
  {
    if |layer| == 1 then layer[0] else FoldUp(sha, Up(sha, layer))
  }

  lemma {:induction false} FoldStep(sha: Sha, layer: seq<Hash>)
    requires |layer| >= 2
    ensures FoldUp(sha, layer) == FoldUp(sha, Up(sha, layer))
  {
  }

  lemma {:induction false} RootSplit(sha: Sha, leaves: seq<Hash>, half: nat)
    requires half >= 1 && |leaves| == 2 * half
    ensures Root(sha, leaves) == sha(Pair(Root(sha, leaves[..half]), Root(sha, leaves[half..])))
  {
  }

  /** Hashing one layer up does not change the top-down root. */
  lemma {:induction false} RootOfUp(sha: Sha, layer: seq<Hash>, k: nat)
    requires k >= 1 && |layer| == Pow2(k)
    ensures Root(sha, Up(sha, layer)) == Root(sha, layer)
    decreases k
  {
    if k == 1 {
      UpAt(sha, layer, 0);
    } else {
      var half, quarter := Pow2(k - 1), Pow2(k - 2);
      assert |layer| == 2 * half && half == 2 * quarter;
      hide Root, Up, Pow2;
      UpTake(sha, layer, quarter);
      UpDrop(sha, layer, quarter);
      RootOfUp(sha, layer[..half], k - 1);
      RootOfUp(sha, layer[half..], k - 1);
      RootSplit(sha, layer, half);
      RootSplit(sha, Up(sha, layer), quarter);
    }
  }

  /** The bottom-up fold computes the top-down root. */
  lemma {:induction false} FoldIsRoot(sha: Sha, layer: seq<Hash>, k: nat)
    requires |layer| == Pow2(k)
    ensures FoldUp(sha, layer) == Root(sha, layer)
    decreases k
  {
    if k > 0 {
      assert |layer| == 2 * Pow2(k - 1);
      FoldIsRoot(sha, Up(sha, layer), k - 1);
      RootOfUp(sha, layer, k);
    }
  }

  lemma {:induction false} LevelShift(sha: Sha, layer: seq<Hash>, k: nat)
    ensures Level(sha, Up(sha, layer), k) == Level(sha, layer, k + 1)
  {
    if k > 0 {
      LevelShift(sha, layer, k - 1);
    }
  }

  lemma {:induction false} BlockOfOne(sha: Sha, layer: seq<Hash>, j: nat)
    requires Scale(j, 0) + Pow2(0) <= |layer|
    ensures Scale(j, 0) == j && Pow2(0) == 1 && Level(sha, layer, 0) == layer && layer[j] == FoldUp(sha, layer[j..j + 1])
  {
  }

  lemma {:induction false} DoubleBlock(j: nat, k: nat)
    requires k > 0
    ensures Scale(j, k) == 2 * Scale(j, k - 1) && Pow2(k) == 2 * Pow2(k - 1)
  {
  }

  /** Node j of layer k is the fold of the j-th block of 2^k hashes, which starts at lo. */
  lemma {:induction false} LevelIsBlockFold(sha: Sha, layer: seq<Hash>, k: nat, j: nat, lo: nat)
    requires lo == Scale(j, k) && lo + Pow2(k) <= |layer|
    ensures j < |Level(sha, layer, k)|
    ensures Level(sha, layer, k)[j] == FoldUp(sha, layer[lo..lo + Pow2(k)])
    decreases k
  {
    hide Up, Level, Scale, Pow2, FoldUp;
    if k == 0 {
      BlockOfOne(sha, layer, j);
    } else {
      var half := Scale(j, k - 1);
      DoubleBlock(j, k);
      FoldStep(sha, layer[lo..lo + Pow2(k)]);
      LevelIsBlockFold(sha, Up(sha, layer), k - 1, j, half);
      LevelShift(sha, layer, k - 1);
      UpOfSlice(sha, layer, half, half + Pow2(k - 1));
    }
  }

  /** Every node of the layer-by-layer tree is the root of its own block of leaves. */
  lemma {:induction false} LevelIsBlockRoot(sha: Sha, layer: seq<Hash>, k: nat, j: nat, lo: nat)
    requires lo == Scale(j, k) && lo + Pow2(k) <= |layer|
    ensures j < |Level(sha, layer, k)|
    ensures Level(sha, layer, k)[j] == Root(sha, layer[lo..lo + Pow2(k)])
  {
    LevelIsBlockFold(sha, layer, k, j, lo);
    FoldIsRoot(sha, layer[lo..lo + Pow2(k)], k);
  }

  // ---------------------------------------------------------------- trees

  datatype MerkleTree = MerkleTree(
    fileLength: nat,
    numBlocks: nat,
    layers: seq<seq<Hash>>,
    root: Hash)
  {
    function Height(): nat
      requires layers != []
    {
      |layers| - 1
    }
  }

  ghost predicate IsParentLayer(sha: Sha, lower: seq<Hash>, upper: seq<Hash>) {
    |lower| == 2 * |upper| && upper == Up(sha, lower)
  }

  /** `t` is a complete Merkle tree over a leaf layer of 2^height hashes. */
  ghost predicate IsTree(sha: Sha, t: MerkleTree) {
    && t.layers != []
    && |t.layers[0]| == Pow2(t.Height())
    && (forall k :: 0 <= k < t.Height() ==> IsParentLayer(sha, t.layers[k], t.layers[k + 1]))
    && t.layers[t.Height()] == [t.root]
    && t.numBlocks <= |t.layers[0]|
  }

  function Zeros(n: nat): (r: seq<Hash>)
    ensures |r| == n && forall i :: 0 <= i < n ==> r[i] == ZeroHash()
  {
    if n == 0 then [] else Zeros(n - 1) + [ZeroHash()]
  }

  /** The leaves padded with zero hashes up to the next power of two. */
  function Padded(leaves: seq<Hash>): (r: seq<Hash>)
    ensures leaves <= r && |r| == Pow2(CeilLog2(|leaves|))
    ensures forall i :: |leaves| <= i < |r| ==> r[i] == ZeroHash()
  {
    leaves + Zeros(Pow2(CeilLog2(|leaves|)) - |leaves|)
  }

  lemma {:induction false} TreeLayerSize(sha: Sha, t: MerkleTree, k: nat)
    requires IsTree(sha, t) && k <= t.Height()
    ensures |t.layers[k]| == Pow2(t.Height() - k)
  {
    if k > 0 {
      TreeLayerSize(sha, t, k - 1);
      assert IsParentLayer(sha, t.layers[k - 1], t.layers[k]);
      assert Pow2(t.Height() - (k - 1)) == 2 * Pow2(t.Height() - k);
    }
  }

  /** Every layer of a tree is an iterated parent layer of every lower one. */
  lemma {:induction false} TreeLayerAbove(sha: Sha, t: MerkleTree, from: nat, k: nat)
    requires IsTree(sha, t) && from + k <= t.Height()
    ensures t.layers[from + k] == Level(sha, t.layers[from], k)
    decreases k
  {
    if k > 0 {
      TreeLayerAbove(sha, t, from, k - 1);
      assert IsParentLayer(sha, t.layers[from + k - 1], t.layers[from + k]);
    }
  }

  /** The stored root is the top-down root of the leaf layer. */
  lemma {:induction false} TreeRoot(sha: Sha, t: MerkleTree)
    requires IsTree(sha, t)
    ensures t.root == Root(sha, t.layers[0])
  {
    var h := t.Height();
    TreeLayerSize(sha, t, h);
    TreeLayerAbove(sha, t, 0, h);
    ScaleIsProduct(0, h);
    LevelIsBlockRoot(sha, t.layers[0], h, 0, 0);
    assert t.layers[0][0..Pow2(h)] == t.layers[0];
  }

  // ---------------------------------------------------------------- audit paths

  function Sibling(idx: nat): (r: nat) {
    if idx % 2 == 0 then idx + 1 else idx - 1
  }

  /** One verification step: hash `cur` with its sibling on the side the index gives. */
  function Combine(sha: Sha, cur: Hash, sibling: Hash, idx: nat): (r: Hash) {
    if idx % 2 == 0 then sha(Pair(cur, sibling)) else sha(Pair(sibling, cur))
  }

  /** The hash a verifier arrives at after consuming the whole path. */
  function Climb(sha: Sha, cur: Hash, idx: nat, path: seq<Hash>): (r: Hash)
    decreases |path|
  {
    if path == [] then cur
    else Climb(sha, Combine(sha, cur, path[0], idx), idx / 2, path[1..])
  }

  /** Every layer is twice as long as the one above it. */
  ghost predicate Halving(t: MerkleTree) {
    && t.layers != []
    && forall k :: 0 <= k < t.Height() ==> |t.layers[k]| == 2 * |t.layers[k + 1]|
  }

  lemma {:induction false} TreeHalves(sha: Sha, t: MerkleTree)
    requires IsTree(sha, t)
    ensures Halving(t)
  {
    forall k | 0 <= k < t.Height()
      ensures |t.layers[k]| == 2 * |t.layers[k + 1]|
    {
      assert IsParentLayer(sha, t.layers[k], t.layers[k + 1]);
    }
  }

  /** The sibling hashes met while climbing m layers from node (from, idx). */
  ghost function AuditPath(t: MerkleTree, from: nat, idx: nat, m: nat): (r: seq<Hash>)
    requires Halving(t) && from + m < |t.layers| && idx < |t.layers[from]|
    ensures |r| == m
    decreases m
  {
    if m == 0 then []
    else
      assert |t.layers[from]| == 2 * |t.layers[from + 1]|;
      [t.layers[from][Sibling(idx)]] + AuditPath(t, from + 1, idx / 2, m - 1)
  }

  /** A node combined with its sibling is its parent. */
  lemma {:induction false} ParentNode(sha: Sha, t: MerkleTree, from: nat, idx: nat)
    requires IsTree(sha, t) && from < t.Height() && idx < |t.layers[from]|
    ensures Sibling(idx) < |t.layers[from]| && idx / 2 < |t.layers[from + 1]|
    ensures t.layers[from + 1][idx / 2] == Combine(sha, t.layers[from][idx], t.layers[from][Sibling(idx)], idx)
  {
    assert IsParentLayer(sha, t.layers[from], t.layers[from + 1]);
    UpAt(sha, t.layers[from], idx / 2);
  }

  /** Completeness of one climb: the tree's own siblings lead to the tree's own ancestor. */
  lemma {:induction false} ClimbOwnPath(sha: Sha, t: MerkleTree, from: nat, idx: nat, m: nat)
    requires IsTree(sha, t) && Halving(t) && from + m <= t.Height() && idx < |t.layers[from]|
    ensures Shift(idx, m) < |t.layers[from + m]|
    ensures Climb(sha, t.layers[from][idx], idx, AuditPath(t, from, idx, m)) == t.layers[from + m][Shift(idx, m)]
    decreases m
  {
    if m > 0 {
      ParentNode(sha, t, from, idx);
      ClimbOwnPath(sha, t, from + 1, idx / 2, m - 1);
      var path := AuditPath(t, from, idx, m);
      assert path[1..] == AuditPath(t, from + 1, idx / 2, m - 1);
    }
  }

  /** Equal hashes of two pairs: the pairs agree, or they are a collision. */
  lemma {:induction false} PairInjective(sha: Sha, a: Hash, b: Hash, c: Hash, d: Hash)
    requires sha(Pair(a, b)) == sha(Pair(c, d))
    ensures (a == c && b == d) || Collision(sha, Pair(a, b), Pair(c, d))
  {
    if Pair(a, b) == Pair(c, d) {
      assert Pair(a, b)[..32] == a && Pair(a, b)[32..] == b;
      assert Pair(c, d)[..32] == c && Pair(c, d)[32..] == d;
    }
  }

  /** If a combination equals a tree node, its inputs are that node's children or collide. */
  lemma {:induction false} CombineSound(sha: Sha, t: MerkleTree, from: nat, j: nat, cur: Hash, sibling: Hash, idx: nat)
      returns (x: Bytes, y: Bytes)
    requires IsTree(sha, t) && from < t.Height() && j < |t.layers[from + 1]|
    requires Combine(sha, cur, sibling, idx) == t.layers[from + 1][j]
    ensures 2 * j + 1 < |t.layers[from]|
    ensures var i := 2 * j + idx % 2;
      (cur == t.layers[from][i] && sibling == t.layers[from][Sibling(i)]) || Collision(sha, x, y)
  {
    assert IsParentLayer(sha, t.layers[from], t.layers[from + 1]);
    UpAt(sha, t.layers[from], j);
    var lo, hi := t.layers[from][2 * j], t.layers[from][2 * j + 1];
    var a, b := if idx % 2 == 0 then cur else sibling, if idx % 2 == 0 then sibling else cur;
    PairInjective(sha, a, b, lo, hi);
    x, y := Pair(a, b), Pair(lo, hi);
  }

  /**
    Soundness of one climb.  A path of length m that ends in the root starts at
    layer (height - m): it carries the tree's own node and the tree's own
    siblings for index formed by the low m bits of `idx`, or it exposes a collision.
   */
  lemma {:induction false} ClimbSound(sha: Sha, t: MerkleTree, cur: Hash, idx: nat, path: seq<Hash>)
      returns (x: Bytes, y: Bytes)
    requires IsTree(sha, t) && Halving(t) && |path| <= t.Height()
    requires Climb(sha, cur, idx, path) == t.root
    ensures Low(idx, |path|) < |t.layers[t.Height() - |path|]|
    ensures || (&& cur == t.layers[t.Height() - |path|][Low(idx, |path|)]
                && path == AuditPath(t, t.Height() - |path|, Low(idx, |path|), |path|))
            || Collision(sha, x, y)
    decreases |path|
  {
    hide Up, Combine, Collision, Sibling;
    var m := |path|;
    var from := t.Height() - m;
    TreeLayerSize(sha, t, from);
    if m == 0 {
      x, y := [], [];
    } else {
      var i, j := Low(idx, m), Low(idx / 2, m - 1);
      assert i == 2 * j + idx % 2 && i / 2 == j;
      x, y := ClimbSound(sha, t, Combine(sha, cur, path[0], idx), idx / 2, path[1..]);
      if !Collision(sha, x, y) {
        hide Climb, Pow2, Low;
        x, y := CombineSound(sha, t, from, j, cur, path[0], idx);
        assert path == [path[0]] + path[1..];
      }
    }
  }

  // ---------------------------------------------------------------- hashing a block of nodes up

  /** Equal parent layers: equal layers, or a collision. */
  lemma {:induction false} UpInjective(sha: Sha, a: seq<Hash>, b: seq<Hash>) returns (x: Bytes, y: Bytes)
    requires |a| == |b| && |a| % 2 == 0
    requires Up(sha, a) == Up(sha, b)
    ensures a == b || Collision(sha, x, y)
  {
    x, y := [], [];
    if a != b {
      var i :| 0 <= i < |a| && a[i] != b[i];
      var k := i / 2;
      UpAt(sha, a, k);
      UpAt(sha, b, k);
      PairInjective(sha, a[2 * k], a[2 * k + 1], b[2 * k], b[2 * k + 1]);
      x, y := Pair(a[2 * k], a[2 * k + 1]), Pair(b[2 * k], b[2 * k + 1]);
    }
  }

  /** Equal folds of two layers of 2^k hashes: equal layers, or a collision. */
  lemma {:induction false} FoldInjective(sha: Sha, a: seq<Hash>, b: seq<Hash>, k: nat)
      returns (x: Bytes, y: Bytes)
    requires |a| == |b| == Pow2(k)
    requires FoldUp(sha, a) == FoldUp(sha, b)
    ensures a == b || Collision(sha, x, y)
    decreases k
  {
    x, y := [], [];
    if k > 0 {
      assert Pow2(k) == 2 * Pow2(k - 1);
      x, y := FoldInjective(sha, Up(sha, a), Up(sha, b), k - 1);
      if !Collision(sha, x, y) {
        x, y := UpInjective(sha, a, b);
      }
    } else {
      assert a == [a[0]] && b == [b[0]];
    }
  }

  /** A block of 2^k aligned nodes, starting at lo, folds to the tree's own node k layers higher. */
  lemma {:induction false} FoldOwnBlock(sha: Sha, t: MerkleTree, from: nat, j: nat, k: nat, lo: nat)
    requires IsTree(sha, t) && from + k <= t.Height() && j < |t.layers[from + k]| && lo == Scale(j, k)
    ensures lo + Pow2(k) <= |t.layers[from]|
    ensures FoldUp(sha, t.layers[from][lo..lo + Pow2(k)]) == t.layers[from + k][j]
  {
    TreeLayerSize(sha, t, from);
    TreeLayerSize(sha, t, from + k);
    ScaleFits(j, t.Height() - from - k, k);
    TreeLayerAbove(sha, t, from, k);
    LevelIsBlockFold(sha, t.layers[from], k, j, lo);
  }

  // ---------------------------------------------------------------- wire form

  /** The hashes written one after another. */
  function Concat(hs: seq<Hash>): (r: Bytes)
    ensures |r| == 32 * |hs|
  {
    if hs == [] then [] else hs[0] + Concat(hs[1..])
  }

  /** The 32-byte chunks of `data`; a shorter tail is dropped. */
  function Chunks(data: Bytes): (r: seq<Hash>)
    ensures |r| == |data| / 32
  {
    if |data| < 32 then [] else [data[..32]] + Chunks(data[32..])
  }

  lemma {:induction false} ChunksOfConcat(hs: seq<Hash>)
    ensures Chunks(Concat(hs)) == hs
    decreases |hs|
  {
    if hs != [] {
      ChunksOfConcat(hs[1..]);
      assert Concat(hs)[..32] == hs[0] && Concat(hs)[32..] == Concat(hs[1..]);
    }
  }

  lemma {:induction false} ConcatAppend(a: seq<Hash>, b: seq<Hash>)
    ensures Concat(a + b) == Concat(a) + Concat(b)
    decreases |a|
  {
    if a == [] {
      assert a + b == b;
    } else {
      assert (a + b)[1..] == a[1..] + b;
      ConcatAppend(a[1..], b);
    }
  }

  lemma {:induction false} ChunksSplit(data: Bytes, n: nat)
    requires 32 * n <= |data|
    ensures Chunks(data[..32 * n]) == Chunks(data)[..n]
    ensures Chunks(data[32 * n..]) == Chunks(data)[n..]
    decreases n
  {
    hide Chunks;
    if n > 0 {
      FirstChunk(data);
      FirstChunk(data[..32 * n]);
      ChunksSplit(data[32..], n - 1);
      ChunkSlices(data, n);
      var first, rest := [data[..32]], Chunks(data[32..]);
      assert (first + rest)[..n] == first + rest[..n - 1];
      assert (first + rest)[n..] == rest[n - 1..];
    } else {
      assert data[0..] == data;
      NoChunks(data[..0]);
    }
  }

  lemma {:induction false} ChunkSlices(data: Bytes, n: nat)
    requires n > 0 && 32 * n <= |data|
    ensures data[32..][..32 * (n - 1)] == data[..32 * n][32..]
    ensures data[..32 * n][..32] == data[..32]
    ensures data[32..][32 * (n - 1)..] == data[32 * n..]
  {
  }

  lemma {:induction false} FirstChunk(data: Bytes)
    requires |data| >= 32
    ensures Chunks(data) == [data[..32]] + Chunks(data[32..])
  {
  }

  lemma {:induction false} NoChunks(data: Bytes)
    requires |data| < 32
    ensures Chunks(data) == []
  {
  }
}
