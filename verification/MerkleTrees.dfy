/**
  BEP 52 Merkle trees: the operations of `library/src/core/merkle.rs` and the
  theorems about them.  The loops are proved against the specification functions
  of module Merkle.
 */
module MerkleTrees {
  import opened Wrappers
  import opened Sizes
  import opened PowersOfTwo
  import opened Merkle

  datatype MerkleProof = MerkleProof(blockIndex: nat, path: seq<Hash>)

  /** What a constructor can return: the empty tree or a complete one. */
  ghost predicate Built(sha: Sha, t: MerkleTree) {
    (t.layers == [] && t.numBlocks == 0 && t.root == ZeroHash()) || IsTree(sha, t)
  }

  // ---------------------------------------------------------------- construction

  method HashPairs(sha: Sha, layer: seq<Hash>) returns (next: seq<Hash>)
    ensures next == Up(sha, layer)
  {
    next := [];
    var i := 0;
    while i < |layer| / 2
      invariant 0 <= i <= |layer| / 2
      invariant next == Up(sha, layer)[..i]
    {
      UpAt(sha, layer, i);
      next := next + [sha(Pair(layer[2 * i], layer[2 * i + 1]))];
      i := i + 1;
    }
  }

  method PadToPowerOfTwo(hashes: seq<Hash>) returns (r: seq<Hash>)
    ensures r == Padded(hashes)
  {
    r := hashes;
    while |r| < Pow2(CeilLog2(|hashes|))
      invariant |hashes| <= |r| <= Pow2(CeilLog2(|hashes|))
      invariant r == Padded(hashes)[..|r|]
    {
      r := r + [ZeroHash()];
    }
  }

  method FromLeafHashes(sha: Sha, leaves: seq<Hash>, fileLength: nat) returns (t: MerkleTree)
    ensures t.fileLength == fileLength && t.numBlocks == |leaves|
    ensures Built(sha, t)
    ensures leaves != [] ==> IsTree(sha, t) && t.layers[0] == Padded(leaves) && t.root == Root(sha, Padded(leaves))
    ensures leaves != [] ==> t.Height() == CeilLog2(|leaves|)
  {
    if |leaves| == 0 {
      return MerkleTree(fileLength, 0, [], ZeroHash());
    }
    if |leaves| == 1 {
      t := MerkleTree(fileLength, 1, [leaves], leaves[0]);
      assert Padded(leaves) == leaves;
      TreeRoot(sha, t);
      return;
    }
    var leafLayer := PadToPowerOfTwo(leaves);
    hide Up, Root, Padded, Pow2, CeilLog2;
    var layers := BuildLayers(sha, leafLayer, CeilLog2(|leaves|));
    var root := layers[|layers| - 1][0];
    t := MerkleTree(fileLength, |leaves|, layers, root);
    TreeRoot(sha, t);
  }

  /** Hashes a leaf layer of 2^h hashes up to a single one, keeping every layer. */
  method BuildLayers(sha: Sha, leafLayer: seq<Hash>, ghost h: nat) returns (layers: seq<seq<Hash>>)
    requires |leafLayer| == Pow2(h)
    ensures |layers| == h + 1 && layers[0] == leafLayer && |layers[h]| == 1
    ensures forall k :: 0 <= k < h ==> IsParentLayer(sha, layers[k], layers[k + 1])
  {
    hide Up;
    layers := [leafLayer];
    while |layers[|layers| - 1]| > 1
      invariant 1 <= |layers| <= h + 1 && layers[0] == leafLayer
      invariant forall k :: 0 <= k < |layers| - 1 ==> IsParentLayer(sha, layers[k], layers[k + 1])
      invariant |layers[|layers| - 1]| == Pow2(h - (|layers| - 1))
    {
      var prev := layers[|layers| - 1];
      var next := HashPairs(sha, prev);
      assert |prev| == 2 * Pow2(h - |layers|);
      layers := layers + [next];
    }
    Pow2Injective(h - (|layers| - 1), 0);
  }

  /** The hashes of the 16 KiB blocks of a file. */
  function BlockHashes(sha: Sha, data: Bytes): (r: seq<Hash>)
    ensures |r| == (|data| + BLOCK_SIZE - 1) / BLOCK_SIZE
    decreases |data|
  {
    if |data| == 0 then []
    else if |data| <= BLOCK_SIZE then [sha(data)]
    else [sha(data[..BLOCK_SIZE])] + BlockHashes(sha, data[BLOCK_SIZE..])
  }

  method FromBytes(sha: Sha, data: Bytes) returns (t: MerkleTree)
    ensures t.fileLength == |data| && Built(sha, t)
    ensures t.numBlocks == |BlockHashes(sha, data)|
    ensures data == [] ==> t == MerkleTree(0, 0, [], ZeroHash())
    ensures data != [] ==> IsTree(sha, t) && t.layers[0] == Padded(BlockHashes(sha, data))
    ensures data != [] ==> t.Height() == CeilLog2(t.numBlocks)
  {
    if |data| == 0 {
      return MerkleTree(0, 0, [], ZeroHash());
    }
    var leaves: seq<Hash> := [];
    var pos := 0;
    while pos < |data|
      invariant 0 <= pos <= |data|
      invariant leaves + BlockHashes(sha, data[pos..]) == BlockHashes(sha, data)
    {
      var end := if pos + BLOCK_SIZE < |data| then pos + BLOCK_SIZE else |data|;
      var rest := data[pos..];
      assert data[pos..end] == rest[..end - pos] && rest[end - pos..] == data[end..];
      assert end == |data| ==> data[pos..end] == rest;
      leaves := leaves + [sha(data[pos..end])];
      pos := end;
    }
    t := FromLeafHashes(sha, leaves, |data|);
  }

  // ---------------------------------------------------------------- audit proofs

  lemma {:induction false} AuditPathAppend(t: MerkleTree, from: nat, idx: nat, m: nat)
    requires Halving(t) && from + m + 1 < |t.layers| && idx < |t.layers[from]|
    ensures Sibling(Shift(idx, m)) < |t.layers[from + m]|
    ensures AuditPath(t, from, idx, m + 1) == AuditPath(t, from, idx, m) + [t.layers[from + m][Sibling(Shift(idx, m))]]
    decreases m
  {
    assert |t.layers[from]| == 2 * |t.layers[from + 1]|;
    assert Sibling(idx) < |t.layers[from]|;
    var head := [t.layers[from][Sibling(idx)]];
    assert AuditPath(t, from, idx, m + 1) == head + AuditPath(t, from + 1, idx / 2, m);
    if m > 0 {
      AuditPathAppend(t, from + 1, idx / 2, m - 1);
      assert AuditPath(t, from, idx, m) == head + AuditPath(t, from + 1, idx / 2, m - 1);
    }
  }

  method Proof(sha: Sha, t: MerkleTree, blockIndex: nat) returns (r: Option<MerkleProof>)
    requires Built(sha, t)
    ensures r.Some? <==> blockIndex < t.numBlocks
    ensures r.Some? ==> Halving(t) && blockIndex < |t.layers[0]|
    ensures r.Some? ==> r.value == MerkleProof(blockIndex, AuditPath(t, 0, blockIndex, t.Height()))
  {
    if blockIndex >= t.numBlocks || |t.layers| == 0 {
      return None;
    }
    TreeHalves(sha, t);
    if |t.layers| == 1 {
      return Some(MerkleProof(blockIndex, []));
    }
    var path: seq<Hash> := [];
    var idx := blockIndex;
    for k := 0 to |t.layers| - 1
      invariant idx == Shift(blockIndex, k)
      invariant path == AuditPath(t, 0, blockIndex, k)
    {
      AuditPathAppend(t, 0, blockIndex, k);
      ShiftAgain(blockIndex, k);
      var siblingIdx := if idx % 2 == 0 then idx + 1 else idx - 1;
      path := path + [t.layers[k][siblingIdx]];
      idx := idx / 2;
    }
    return Some(MerkleProof(blockIndex, path));
  }

  method VerifyProof(sha: Sha, proof: MerkleProof, blockData: Bytes, expectedRoot: Hash) returns (ok: bool)
    ensures ok <==> Climb(sha, sha(blockData), proof.blockIndex, proof.path) == expectedRoot
  {
    var cur := sha(blockData);
    var idx := proof.blockIndex;
    if |proof.path| == 0 {
      return cur == expectedRoot;
    }
    for k := 0 to |proof.path|
      invariant idx >= 0
      invariant Climb(sha, cur, idx, proof.path[k..]) == Climb(sha, sha(blockData), proof.blockIndex, proof.path)
    {
      var sibling := proof.path[k];
      assert proof.path[k..][1..] == proof.path[k + 1..];
      if idx % 2 == 0 {
        cur := sha(Pair(cur, sibling));
      } else {
        cur := sha(Pair(sibling, cur));
      }
      idx := idx / 2;
    }
    return cur == expectedRoot;
  }

  /** Completeness: every generated proof verifies, for every block of every tree. */
  lemma {:induction false} ProofComplete(sha: Sha, t: MerkleTree, blockIndex: nat, blockData: Bytes)
    requires IsTree(sha, t) && Halving(t) && blockIndex < |t.layers[0]|
    requires sha(blockData) == t.layers[0][blockIndex]
    ensures Climb(sha, sha(blockData), blockIndex, AuditPath(t, 0, blockIndex, t.Height())) == t.root
  {
    ClimbOwnPath(sha, t, 0, blockIndex, t.Height());
  }

  /**
    Soundness: an accepted proof as long as the tree is high carries the leaf
    hash and the siblings of leaf `blockIndex mod 2^height`, or a collision.
   */
  lemma {:induction false} ProofSound(sha: Sha, t: MerkleTree, proof: MerkleProof, blockData: Bytes) returns (x: Bytes, y: Bytes)
    requires IsTree(sha, t) && Halving(t) && |proof.path| == t.Height()
    requires Climb(sha, sha(blockData), proof.blockIndex, proof.path) == t.root
    ensures Low(proof.blockIndex, t.Height()) < |t.layers[0]|
    ensures || (&& sha(blockData) == t.layers[0][Low(proof.blockIndex, t.Height())]
                && proof.path == AuditPath(t, 0, Low(proof.blockIndex, t.Height()), t.Height()))
            || Collision(sha, x, y)
  {
    x, y := ClimbSound(sha, t, sha(blockData), proof.blockIndex, proof.path);
  }

  /**
    The height is needed: in every tree of height one or more, a shorter proof
    verifies the 64 bytes below an inner node as block 0.
   */
  lemma {:induction false} ShortProofAcceptsInnerNode(sha: Sha, t: MerkleTree)
    requires IsTree(sha, t) && Halving(t) && t.Height() >= 1
    ensures |t.layers[0]| >= 2 && |t.layers[1]| >= 1
    ensures Climb(sha, sha(Pair(t.layers[0][0], t.layers[0][1])), 0, AuditPath(t, 1, 0, t.Height() - 1)) == t.root
  {
    TreeLayerSize(sha, t, 1);
    assert |t.layers[0]| == 2 * |t.layers[1]|;
    ParentNode(sha, t, 0, 0);
    ClimbOwnPath(sha, t, 1, 0, t.Height() - 1);
  }

  // ---------------------------------------------------------------- hash requests

  /** The generator's admissibility test for a `hash request`. */
  predicate Admissible(t: MerkleTree, base: nat, index: nat, length: nat) {
    && length >= 2 && IsPow2(length)
    && index % length == 0
    && base < |t.layers|
    && index + length <= |t.layers[base]|
  }

  function SatSub(a: nat, b: nat): nat {
    if a < b then 0 else a - b
  }

  /** How many uncle hashes the generator includes. */
  ghost function UncleCount(t: MerkleTree, base: nat, length: nat, proofLayers: nat): (m: nat)
    requires t.layers != [] && length >= 2 && IsPow2(length)
  {
    Min(SatSub(proofLayers, SatSub(Log2(length), 1)), SatSub(t.Height(), base + Log2(length)))
  }

  lemma {:induction false} RequestFits(sha: Sha, t: MerkleTree, base: nat, index: nat, length: nat)
    requires IsTree(sha, t) && Admissible(t, base, index, length)
    ensures base + Log2(length) <= t.Height()
    ensures index / length < |t.layers[base + Log2(length)]|
    ensures index == Scale(index / length, Log2(length))
  {
    TreeLayerSize(sha, t, base);
    AlignedBlock(index, Log2(length), t.Height() - base);
    TreeLayerSize(sha, t, base + Log2(length));
  }

  /** Collects at most `maxUncles` uncle hashes of node (from, node), stopping below the root. */
  method CollectUncles(sha: Sha, t: MerkleTree, from: nat, node: nat, maxUncles: nat) returns (uncles: seq<Hash>)
    requires IsTree(sha, t) && Halving(t) && from <= t.Height() && node < |t.layers[from]|
    ensures uncles == AuditPath(t, from, node, Min(maxUncles, t.Height() - from))
  {
    uncles := [];
    var curLayer := from;
    var j := node;
    while curLayer < |t.layers| && |t.layers| > 1 && curLayer < |t.layers| - 1 && |uncles| < maxUncles
      invariant curLayer == from + |uncles| && |uncles| <= maxUncles && curLayer <= t.Height()
      invariant j == Shift(node, |uncles|)
      invariant uncles == AuditPath(t, from, node, |uncles|)
    {
      AuditPathAppend(t, from, node, |uncles|);
      ShiftAgain(node, |uncles|);
      var uncleIdx := if j % 2 == 0 then j + 1 else j - 1;
      var uncle := if uncleIdx < |t.layers[curLayer]| then t.layers[curLayer][uncleIdx] else ZeroHash();
      uncles := uncles + [uncle];
      j := j / 2;
      curLayer := curLayer + 1;
    }
  }

  lemma {:induction false} ConcatOne(hashes: seq<Hash>, h: Hash)
    ensures Concat(hashes + [h]) == Concat(hashes) + h
  {
    ConcatAppend(hashes, [h]);
    assert [h][1..] == [];
  }

  /** The hashes the generator writes: the requested slice, then the uncles. */
  ghost function ResponseHashes(sha: Sha, t: MerkleTree, base: nat, index: nat, length: nat, proofLayers: nat)
      : (r: seq<Hash>)
    requires IsTree(sha, t) && Halving(t) && Admissible(t, base, index, length)
  {
    RequestFits(sha, t, base, index, length);
    t.layers[base][index..index + length]
      + AuditPath(t, base + Log2(length), index / length, UncleCount(t, base, length, proofLayers))
  }

  method GenerateHashesResponse(sha: Sha, t: MerkleTree, base: nat, index: nat, length: nat, proofLayers: nat)
      returns (r: Option<Bytes>)
    requires Built(sha, t)
    ensures r.Some? <==> Admissible(t, base, index, length)
    ensures r.Some? ==> IsTree(sha, t) && Halving(t)
    ensures r.Some? ==> r.value == Concat(ResponseHashes(sha, t, base, index, length, proofLayers))
  {
    if length < 2 || !IsPow2(length) {
      return None;
    }
    if index % length != 0 {
      return None;
    }
    if base >= |t.layers| {
      return None;
    }
    var layer := t.layers[base];
    if index + length > |layer| {
      return None;
    }
    TreeHalves(sha, t);
    RequestFits(sha, t, base, index, length);
    var k := Log2(length);
    var omitted := SatSub(k, 1);
    var maxUncles := SatSub(proofLayers, omitted);
    var uncles := CollectUncles(sha, t, base + k, index / length, maxUncles);
    var out := WriteHashes(layer[index..index + length] + uncles);
    return Some(out);
  }

  method WriteHashes(hashes: seq<Hash>) returns (out: Bytes)
    ensures out == Concat(hashes)
  {
    out := [];
    for i := 0 to |hashes|
      invariant out == Concat(hashes[..i])
    {
      ConcatOne(hashes[..i], hashes[i]);
      assert hashes[..i + 1] == hashes[..i] + [hashes[i]];
      out := out + hashes[i];
    }
    assert hashes[..|hashes|] == hashes;
  }

  method ReadHashes(data: Bytes) returns (hashes: seq<Hash>)
    ensures hashes == Chunks(data)
  {
    hashes := [];
    var pos := 0;
    while pos + 32 <= |data|
      invariant 0 <= pos <= |data|
      invariant hashes + Chunks(data[pos..]) == Chunks(data)
    {
      var rest := data[pos..];
      assert rest[..32] == data[pos..pos + 32] && rest[32..] == data[pos + 32..];
      hashes := hashes + [data[pos..pos + 32]];
      pos := pos + 32;
    }
  }

  method HashUp(sha: Sha, hashes: seq<Hash>) returns (r: Hash)
    requires hashes != []
    ensures r == FoldUp(sha, hashes)
  {
    var cur := hashes;
    while |cur| > 1
      invariant cur != [] && FoldUp(sha, cur) == FoldUp(sha, hashes)
      decreases |cur|
    {
      cur := HashPairs(sha, cur);
    }
    return cur[0];
  }

  datatype HashesError = BadLength | Misaligned | BadPayloadSize | RootMismatch

  /** The root a payload claims: its base hashes folded up, then its uncles climbed. */
  ghost function PayloadRoot(sha: Sha, index: nat, length: nat, data: Bytes): Hash
    requires length >= 1 && |Chunks(data)| >= length
  {
    ClaimedRoot(sha, index / length, length, Chunks(data))
  }

  ghost function ClaimedRoot(sha: Sha, node: nat, length: nat, hashes: seq<Hash>): Hash
    requires 1 <= length <= |hashes|
  {
    Climb(sha, FoldUp(sha, hashes[..length]), node, hashes[length..])
  }

  /** `baseLayer` and `proofLayers` are accepted and ignored, as in the source. */
  method VerifyHashesResponse(sha: Sha, expectedRoot: Hash, baseLayer: nat, index: nat, length: nat,
                              proofLayers: nat, data: Bytes) returns (r: Result<seq<Hash>, HashesError>)
    ensures length < 2 || !IsPow2(length) <==> r == Err(BadLength)
    ensures length >= 2 && IsPow2(length) && index % length != 0 <==> r == Err(Misaligned)
    ensures r == Err(BadPayloadSize) <==> && length >= 2 && IsPow2(length) && index % length == 0
                                          && (|data| < 32 * length || |data| % 32 != 0)
    ensures r.Ok? <==> && length >= 2 && IsPow2(length) && index % length == 0
                       && |data| >= 32 * length && |data| % 32 == 0
                       && PayloadRoot(sha, index, length, data) == expectedRoot
    ensures r.Ok? ==> r.value == Chunks(data)[..length]
  {
    if length < 2 || !IsPow2(length) {
      return Err(BadLength);
    }
    if index % length != 0 {
      return Err(Misaligned);
    }
    if |data| < 32 * length || |data| % 32 != 0 {
      return Err(BadPayloadSize);
    }
    ChunksSplit(data, length);
    var baseHashes := ReadHashes(data[..32 * length]);
    var uncleHashes := ReadHashes(data[32 * length..]);
    var subRoot := HashUp(sha, baseHashes);
    var j := index / length;
    for k := 0 to |uncleHashes|
      invariant j >= 0
      invariant Climb(sha, subRoot, j, uncleHashes[k..]) == PayloadRoot(sha, index, length, data)
    {
      var uncle := uncleHashes[k];
      assert uncleHashes[k..][1..] == uncleHashes[k + 1..];
      if j % 2 == 0 {
        subRoot := sha(Pair(subRoot, uncle));
      } else {
        subRoot := sha(Pair(uncle, subRoot));
      }
      j := j / 2;
    }
    if subRoot != expectedRoot {
      return Err(RootMismatch);
    }
    return Ok(baseHashes);
  }

  /** A block of the tree's own nodes followed by its own uncles claims the tree's own node. */
  lemma {:induction false} OwnBlockClimbs(sha: Sha, t: MerkleTree, base: nat, j: nat, k: nat, m: nat, lo: nat, n: nat)
    requires IsTree(sha, t) && Halving(t) && base + k + m <= t.Height() && j < |t.layers[base + k]|
    requires n == Pow2(k) && lo == Scale(j, k)
    ensures lo + n <= |t.layers[base]|
    ensures Shift(j, m) < |t.layers[base + k + m]|
    ensures ClaimedRoot(sha, j, n, t.layers[base][lo..lo + n] + AuditPath(t, base + k, j, m))
         == t.layers[base + k + m][Shift(j, m)]
  {
    hide Up, FoldUp, Climb, AuditPath;
    FoldOwnBlock(sha, t, base, j, k, lo);
    ClimbOwnPath(sha, t, base + k, j, m);
  }

  /**
    What the verifier computes from a generated response, for every number of
    proof layers: the tree's own node at the layer the uncles reach.
   */
  lemma {:induction false} ResponseReaches(sha: Sha, t: MerkleTree, base: nat, index: nat, length: nat, proofLayers: nat)
    requires IsTree(sha, t) && Halving(t) && Admissible(t, base, index, length)
    ensures var hashes := ResponseHashes(sha, t, base, index, length, proofLayers);
      var m := UncleCount(t, base, length, proofLayers);
      var top := base + Log2(length) + m;
      && |hashes| == length + m && hashes[..length] == t.layers[base][index..index + length]
      && top <= t.Height() && Shift(index / length, m) < |t.layers[top]|
      && ClaimedRoot(sha, index / length, length, hashes) == t.layers[top][Shift(index / length, m)]
  {
    hide ClaimedRoot, AuditPath, Shift, Scale, Up, Pow2, IsPow2, Log2;
    RequestFits(sha, t, base, index, length);
    OwnBlockClimbs(sha, t, base, index / length, Log2(length), UncleCount(t, base, length, proofLayers), index, length);
  }

  /** With proofLayers at least height - base - 1 the uncles reach the root. */
  lemma {:induction false} ResponseReachesRoot(sha: Sha, t: MerkleTree, base: nat, index: nat, length: nat, proofLayers: nat)
    requires IsTree(sha, t) && Halving(t) && Admissible(t, base, index, length)
    requires proofLayers + base + 1 >= t.Height()
    ensures var hashes := ResponseHashes(sha, t, base, index, length, proofLayers);
      && |hashes| >= length && hashes[..length] == t.layers[base][index..index + length]
      && ClaimedRoot(sha, index / length, length, hashes) == t.root
  {
    ResponseReaches(sha, t, base, index, length, proofLayers);
    RequestFits(sha, t, base, index, length);
    assert Log2(length) >= 1;
    assert base + Log2(length) + UncleCount(t, base, length, proofLayers) == t.Height();
  }

  /**
    Completeness of hash exchange: with proofLayers at least height - base - 1
    every generated payload passes the verifier and yields the requested slice.
   */
  lemma {:induction false} ResponseComplete(sha: Sha, t: MerkleTree, base: nat, index: nat, length: nat, proofLayers: nat)
    requires IsTree(sha, t) && Halving(t) && Admissible(t, base, index, length)
    requires proofLayers + base + 1 >= t.Height()
    ensures var data := Concat(ResponseHashes(sha, t, base, index, length, proofLayers));
      && |data| % 32 == 0 && |data| >= 32 * length
      && PayloadRoot(sha, index, length, data) == t.root
      && Chunks(data)[..length] == t.layers[base][index..index + length]
  {
    ResponseReachesRoot(sha, t, base, index, length, proofLayers);
    ChunksOfConcat(ResponseHashes(sha, t, base, index, length, proofLayers));
  }

  /**
    Soundness of hash exchange.  Whoever produced it, an accepted payload with u
    uncles carries the tree's own hashes of layer (height - u - log2 length) at
    block `index / length mod 2^u`, and the tree's own uncles, or a collision.
    With exactly height - base - log2(length) uncles that is layer `base`.
   */
  lemma {:induction false} ResponseSound(sha: Sha, t: MerkleTree, index: nat, length: nat, data: Bytes, u: nat)
      returns (x: Bytes, y: Bytes)
    requires IsTree(sha, t) && Halving(t)
    requires length >= 2 && IsPow2(length) && index % length == 0
    requires |data| % 32 == 0 && |data| == 32 * (length + u)
    requires u + Log2(length) <= t.Height()
    requires PayloadRoot(sha, index, length, data) == t.root
    ensures var layer := t.layers[t.Height() - u - Log2(length)];
      var j := Low(index / length, u);
      var lo := Scale(j, Log2(length));
      && lo + length <= |layer|
      && (Chunks(data)[..length] == layer[lo..lo + length] || Collision(sha, x, y))
  {
    hide ClaimedRoot, Chunks, Up, Pow2, Scale, Low, IsPow2, Log2, Collision;
    x, y := HashesSound(sha, t, index / length, Log2(length), Chunks(data), u);
  }

  /**
    The form a caller uses: an admissible request answered with every uncle up to
    the root returns exactly the requested hashes of the requested layer, or a
    collision.
   */
  lemma {:induction false} ResponseSoundAt(sha: Sha, t: MerkleTree, base: nat, index: nat, length: nat, data: Bytes)
      returns (x: Bytes, y: Bytes)
    requires IsTree(sha, t) && Halving(t) && Admissible(t, base, index, length)
    requires |data| % 32 == 0 && |data| >= 32 * length
    requires |data| / 32 - length + Log2(length) + base == t.Height()
    requires PayloadRoot(sha, index, length, data) == t.root
    ensures Chunks(data)[..length] == t.layers[base][index..index + length] || Collision(sha, x, y)
  {
    var u := |data| / 32 - length;
    RequestFits(sha, t, base, index, length);
    TreeLayerSize(sha, t, base + Log2(length));
    LowOfSmall(index / length, u);
    x, y := ResponseSound(sha, t, index, length, data, u);
  }

  lemma {:induction false} HashesSound(sha: Sha, t: MerkleTree, node: nat, k: nat, hashes: seq<Hash>, u: nat)
      returns (x: Bytes, y: Bytes)
    requires IsTree(sha, t) && Halving(t) && u + k <= t.Height() && |hashes| == Pow2(k) + u
    requires ClaimedRoot(sha, node, Pow2(k), hashes) == t.root
    ensures var layer := t.layers[t.Height() - u - k];
      var lo := Scale(Low(node, u), k);
      && lo + Pow2(k) <= |layer|
      && (hashes[..Pow2(k)] == layer[lo..lo + Pow2(k)] || Collision(sha, x, y))
  {
    var own := hashes[..Pow2(k)];
    TreeLayerSize(sha, t, t.Height() - u);
    BlockInLayer(sha, t, t.Height() - u - k, Low(node, u), k);
    x, y := ClimbSound(sha, t, FoldUp(sha, own), node, hashes[Pow2(k)..]);
    if !Collision(sha, x, y) {
      x, y := BlockSound(sha, t, t.Height() - u - k, Low(node, u), k, own);
    }
  }

  lemma {:induction false} BlockInLayer(sha: Sha, t: MerkleTree, base: nat, j: nat, k: nat)
    requires IsTree(sha, t) && base + k <= t.Height() && j < |t.layers[base + k]|
    ensures Scale(j, k) + Pow2(k) <= |t.layers[base]|
  {
    FoldOwnBlock(sha, t, base, j, k, Scale(j, k));
  }

  /** Hashes that fold to a tree node are that node's own block, or collide. */
  lemma {:induction false} BlockSound(sha: Sha, t: MerkleTree, base: nat, j: nat, k: nat, own: seq<Hash>) returns (x: Bytes, y: Bytes)
    requires IsTree(sha, t) && base + k <= t.Height() && j < |t.layers[base + k]| && |own| == Pow2(k)
    requires FoldUp(sha, own) == t.layers[base + k][j]
    ensures var lo := Scale(j, k);
      && lo + Pow2(k) <= |t.layers[base]|
      && (own == t.layers[base][lo..lo + Pow2(k)] || Collision(sha, x, y))
  {
    var lo := Scale(j, k);
    FoldOwnBlock(sha, t, base, j, k, lo);
    x, y := FoldInjective(sha, own, t.layers[base][lo..lo + Pow2(k)], k);
  }

  // ---------------------------------------------------------------- piece layers

  function CeilDiv(a: nat, b: nat): nat
    requires b > 0
  {
    (a + b - 1) / b
  }

  datatype PieceLayerError = BadPieceLength

  method PieceLayer(sha: Sha, t: MerkleTree, pieceLength: nat) returns (r: Result<seq<Hash>, PieceLayerError>)
    requires Built(sha, t)
    ensures r.Ok? <==> pieceLength >= BLOCK_SIZE && IsPow2(pieceLength)
    ensures r.Ok? ==> r.value == PieceLayerOf(t, pieceLength)
  {
    if pieceLength < BLOCK_SIZE || !IsPow2(pieceLength) {
      return Err(BadPieceLength);
    }
    PieceLengthBlocks(pieceLength);
    var layerHeight := Log2(pieceLength / BLOCK_SIZE);
    if layerHeight >= |t.layers| {
      return Ok([t.root]);
    }
    var layer := t.layers[layerHeight];
    var numPieces := CeilDiv(t.fileLength, pieceLength);
    return Ok(layer[..Min(numPieces, |layer|)]);
  }

  lemma {:induction false} PieceLengthBlocks(pieceLength: nat)
    requires pieceLength >= BLOCK_SIZE && IsPow2(pieceLength)
    ensures IsPow2(pieceLength / BLOCK_SIZE)
    ensures pieceLength == BLOCK_SIZE * Pow2(Log2(pieceLength / BLOCK_SIZE))
  {
    var e := Log2(pieceLength);
    assert Pow2(14) == BLOCK_SIZE;
    if e < 14 {
      Pow2Monotonic(e, 14);
    } else {
      Pow2Add(14, e - 14);
      assert pieceLength / BLOCK_SIZE == Pow2(e - 14);
      Pow2IsPow2(e - 14);
    }
  }

  function PieceLayerOf(t: MerkleTree, pieceLength: nat): (r: seq<Hash>)
    requires pieceLength >= BLOCK_SIZE && IsPow2(pieceLength)
  {
    PieceLengthBlocks(pieceLength);
    var h := Log2(pieceLength / BLOCK_SIZE);
    if h >= |t.layers| then [t.root]
    else t.layers[h][..Min(CeilDiv(t.fileLength, pieceLength), |t.layers[h]|)]
  }

  lemma {:induction false} LayerEntry(sha: Sha, t: MerkleTree, h: nat, i: nat)
    requires IsTree(sha, t) && h <= t.Height() && i < |t.layers[h]|
    ensures Scale(i, h) + Pow2(h) <= |t.layers[0]|
    ensures t.layers[h][i] == Root(sha, t.layers[0][Scale(i, h)..Scale(i, h) + Pow2(h)])
  {
    TreeLayerAbove(sha, t, 0, h);
    TreeLayerSize(sha, t, h);
    ScaleFits(i, t.Height() - h, h);
    LevelIsBlockRoot(sha, t.layers[0], h, i, Scale(i, h));
  }

  /**
    Each piece-layer entry is the root of the leaves of its own piece; a file of
    at most one piece has the root of all its leaves as the only entry.
   */
  lemma {:induction false} PieceLayerEntry(sha: Sha, t: MerkleTree, pieceLength: nat, i: nat)
    requires IsTree(sha, t) && pieceLength >= BLOCK_SIZE && IsPow2(pieceLength)
    requires i < |PieceLayerOf(t, pieceLength)|
    ensures IsPow2(pieceLength / BLOCK_SIZE)
    ensures var h := Log2(pieceLength / BLOCK_SIZE);
      if h <= t.Height() then
        && Scale(i, h) + Pow2(h) <= |t.layers[0]|
        && PieceLayerOf(t, pieceLength)[i] == Root(sha, t.layers[0][Scale(i, h)..Scale(i, h) + Pow2(h)])
      else PieceLayerOf(t, pieceLength) == [Root(sha, t.layers[0])]
  {
    hide Root, Up, Scale, Pow2, IsPow2, Log2;
    PieceLengthBlocks(pieceLength);
    var h := Log2(pieceLength / BLOCK_SIZE);
    if h > t.Height() {
      TreeRoot(sha, t);
    } else {
      LayerEntry(sha, t, h, i);
    }
  }

  method ComputeRootFromPieceHashes(sha: Sha, pieceHashes: seq<Hash>) returns (r: Hash)
    ensures r == RootFromPieceHashes(sha, pieceHashes)
  {
    if |pieceHashes| == 0 {
      return ZeroHash();
    }
    if |pieceHashes| == 1 {
      return pieceHashes[0];
    }
    var cur := PadToPowerOfTwo(pieceHashes);
    r := HashUp(sha, cur);
    FoldIsRoot(sha, cur, CeilLog2(|pieceHashes|));
  }

  /** The padded piece hashes taken as the leaves of a tree. */
  function RootFromPieceHashes(sha: Sha, pieceHashes: seq<Hash>): (r: Hash) {
    if pieceHashes == [] then ZeroHash() else Root(sha, Padded(pieceHashes))
  }

  /** The number of pieces of a file needs the same power of two as its layer. */
  lemma {:induction false} PieceCountPadding(blocks: nat, fileLength: nat, h: nat, pieceLength: nat)
    requires pieceLength >= 1 && pieceLength == BLOCK_SIZE * Pow2(h)
    requires blocks >= 1 && blocks == CeilDiv(fileLength, BLOCK_SIZE) && h <= CeilLog2(blocks)
    ensures var n := CeilDiv(fileLength, pieceLength);
      1 <= n <= Pow2(CeilLog2(blocks) - h) && CeilLog2(n) == CeilLog2(blocks) - h
  {
    var e := CeilLog2(blocks) - h;
    var n := CeilDiv(blocks, Pow2(h));
    CeilDivTwice(fileLength, BLOCK_SIZE, Pow2(h));
    CeilDivBounds(blocks, Pow2(h));
    Pow2Add(h, e);
    MulGap(Pow2(h), Pow2(e), n - 1);
    MulGap(Pow2(h), n - 1, Pow2(e));
    if e >= 1 {
      Pow2Add(h, e - 1);
      MulGap(Pow2(h), n, Pow2(e - 1));
    }
    CeilLog2Unique(n, e);
  }

  lemma {:induction false} CeilDivBounds(a: nat, b: nat)
    requires a >= 1 && b >= 1
    ensures CeilDiv(a, b) >= 1
    ensures b * (CeilDiv(a, b) - 1) < a <= b * CeilDiv(a, b)
  {
    var q := CeilDiv(a, b);
    assert a + b - 1 == b * q + (a + b - 1) % b;
    MulGap(b, 0, q);
    assert q >= 1 by {
      if q == 0 { assert b * q == 0; }
    }
    assert b * q == b * (q - 1) + b;
  }

  lemma {:induction false} CeilDivUnique(a: nat, b: nat, q: nat)
    requires a >= 1 && b >= 1 && q >= 1
    requires b * (q - 1) < a <= b * q
    ensures CeilDiv(a, b) == q
  {
    CeilDivBounds(a, b);
    var c := CeilDiv(a, b);
    MulGap(b, c, q);
    MulGap(b, q, c);
    assert b * q == b * (q - 1) + b && b * c == b * (c - 1) + b;
  }

  /** Rounding up by b and then by c rounds up by b * c. */
  lemma {:induction false} CeilDivTwice(a: nat, b: nat, c: nat)
    requires a >= 1 && b >= 1 && c >= 1
    ensures b * c >= 1
    ensures CeilDiv(a, b * c) == CeilDiv(CeilDiv(a, b), c)
  {
    var m := CeilDiv(a, b);
    CeilDivBounds(a, b);
    var q := CeilDiv(m, c);
    CeilDivBounds(m, c);
    MulMonotone(b, 1, c);
    MulMonotone(b, m, c * q);
    MulAssoc(b, c, q);
    MulMonotone(b, c * (q - 1), m - 1);
    MulAssoc(b, c, q - 1);
    CeilDivUnique(a, b * c, q);
  }

  lemma {:induction false} CeilLog2Unique(n: nat, e: nat)
    requires n >= 1 && n <= Pow2(e) && (e >= 1 ==> Pow2(e - 1) < n)
    ensures CeilLog2(n) == e
  {
    var c := CeilLog2(n);
    if c < e {
      Pow2Monotonic(c, e - 1);
    } else if e < c {
      assert n >= 2;
      Pow2Monotonic(e, c - 1);
    }
  }

  /** Every layer taken as leaves has the tree's root. */
  lemma {:induction false} LayerRoot(sha: Sha, t: MerkleTree, h: nat)
    requires IsTree(sha, t) && h <= t.Height()
    ensures Root(sha, t.layers[h]) == t.root
  {
    var e := t.Height() - h;
    TreeLayerAbove(sha, t, h, e);
    TreeLayerSize(sha, t, h);
    ScaleIsProduct(0, e);
    LevelIsBlockRoot(sha, t.layers[h], e, 0, 0);
    assert t.layers[h][0..Pow2(e)] == t.layers[h];
  }

  /**
    When the root can be rebuilt from the piece layer.  It is rebuilt exactly if
    the piece count is a power of two or pieces are single blocks.  In every
    other case a rebuilt root equal to the tree's root exposes a collision or an
    input that hashes to the zero hash: the rebuild pads with zero hashes, the
    tree with roots of zero subtrees.
   */
  lemma {:induction false} PieceLayerRoot(sha: Sha, t: MerkleTree, pieceLength: nat) returns (x: Bytes, y: Bytes)
    requires IsTree(sha, t) && pieceLength >= BLOCK_SIZE && IsPow2(pieceLength)
    requires t.numBlocks >= 1 && t.numBlocks == CeilDiv(t.fileLength, BLOCK_SIZE)
    requires t.Height() == CeilLog2(t.numBlocks)
    requires forall i :: t.numBlocks <= i < |t.layers[0]| ==> t.layers[0][i] == ZeroHash()
    ensures pieceLength == BLOCK_SIZE || IsPow2(|PieceLayerOf(t, pieceLength)|)
      ==> RootFromPieceHashes(sha, PieceLayerOf(t, pieceLength)) == t.root
    ensures pieceLength > BLOCK_SIZE && !IsPow2(|PieceLayerOf(t, pieceLength)|)
      && RootFromPieceHashes(sha, PieceLayerOf(t, pieceLength)) == t.root
      ==> Collision(sha, x, y) || sha(x) == ZeroHash()
  {
    hide Root, Up, RootFromPieceHashes, CeilLog2, Collision, Log2;
    x, y := [], [];
    PieceLengthBlocks(pieceLength);
    var h := Log2(pieceLength / BLOCK_SIZE);
    if h > t.Height() {
      PadOne(sha, t.root);
    } else {
      PieceCountPadding(t.numBlocks, t.fileLength, h, pieceLength);
      TreeLayerSize(sha, t, h);
      var pieces := t.layers[h][..CeilDiv(t.fileLength, pieceLength)];
      assert pieces == PieceLayerOf(t, pieceLength);
      x, y := CutLayerRoot(sha, t, h, pieces);
    }
  }

  lemma {:induction false} PadOne(sha: Sha, h: Hash)
    ensures RootFromPieceHashes(sha, [h]) == h
  {
    assert Padded([h]) == [h];
  }

  /** The same question for layer h cut to its first hashes. */
  lemma {:induction false} CutLayerRoot(sha: Sha, t: MerkleTree, h: nat, pieces: seq<Hash>) returns (x: Bytes, y: Bytes)
    requires IsTree(sha, t) && h <= t.Height()
    requires pieces != [] && pieces <= t.layers[h] && CeilLog2(|pieces|) == t.Height() - h
    requires h == 0 ==> forall i :: |pieces| <= i < |t.layers[0]| ==> t.layers[0][i] == ZeroHash()
    ensures h == 0 || IsPow2(|pieces|) ==> RootFromPieceHashes(sha, pieces) == t.root
    ensures h >= 1 && !IsPow2(|pieces|) && RootFromPieceHashes(sha, pieces) == t.root
      ==> Collision(sha, x, y) || sha(x) == ZeroHash()
  {
    hide Root, Up, Padded, Pow2, IsPow2, CeilLog2, Collision;
    x, y := [], [];
    LayerRoot(sha, t, h);
    TreeLayerSize(sha, t, h);
    if h == 0 || IsPow2(|pieces|) {
      if h > 0 {
        CeilLog2Unique(|pieces|, Log2(|pieces|));
      }
      assert Padded(pieces) == t.layers[h];
    } else if RootFromPieceHashes(sha, pieces) == t.root {
      x, y := FalsePadding(sha, t, h, pieces);
    }
  }

  /** Zero hashes that stand for an inner layer's padding without changing the root. */
  lemma {:induction false} FalsePadding(sha: Sha, t: MerkleTree, h: nat, pieces: seq<Hash>) returns (x: Bytes, y: Bytes)
    requires IsTree(sha, t) && 1 <= h <= t.Height()
    requires CeilLog2(|pieces|) == t.Height() - h && !IsPow2(|pieces|)
    requires Root(sha, Padded(pieces)) == t.root
    ensures Collision(sha, x, y) || sha(x) == ZeroHash()
  {
    hide Root, Up, Padded, Pow2, IsPow2, CeilLog2, Collision;
    x, y := PaddingIsLayer(sha, t, h, pieces);
    if !Collision(sha, x, y) {
      Pow2IsPow2(t.Height() - h);
      assert |pieces| < |Padded(pieces)|;
      x := ZeroNode(sha, t, h, |pieces|);
    }
  }

  /** Padded hashes with the tree's root are the tree's own layer, or collide. */
  lemma {:induction false} PaddingIsLayer(sha: Sha, t: MerkleTree, h: nat, pieces: seq<Hash>) returns (x: Bytes, y: Bytes)
    requires IsTree(sha, t) && h <= t.Height() && CeilLog2(|pieces|) == t.Height() - h
    requires Root(sha, Padded(pieces)) == t.root
    ensures Padded(pieces) == t.layers[h] || Collision(sha, x, y)
  {
    hide Root, Up, FoldUp, Padded, Pow2, CeilLog2, Collision;
    var e := t.Height() - h;
    TreeLayerSize(sha, t, h);
    LayerRoot(sha, t, h);
    FoldIsRoot(sha, Padded(pieces), e);
    FoldIsRoot(sha, t.layers[h], e);
    x, y := FoldInjective(sha, Padded(pieces), t.layers[h], e);
  }

  /** A zero hash inside the tree is the hash of its two children. */
  lemma {:induction false} ZeroNode(sha: Sha, t: MerkleTree, h: nat, i: nat) returns (x: Bytes)
    requires IsTree(sha, t) && 1 <= h <= t.Height() && i < |t.layers[h]| && t.layers[h][i] == ZeroHash()
    ensures sha(x) == ZeroHash()
  {
    hide Pow2, Up, Pair;
    var lower := t.layers[h - 1];
    assert IsParentLayer(sha, lower, t.layers[h]);
    UpAt(sha, lower, i);
    x := Pair(lower[2 * i], lower[2 * i + 1]);
  }
}
