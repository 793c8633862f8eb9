/**
  The BEP 52 block check of `library/src/core/torrent_context.rs`: an arriving block is
  compared with whatever is known of its file, a Merkle tree, an audit path, the
  root of a single-block file, or verified leaf hashes.
 */
module BlockChecks {
  import opened Wrappers
  import opened Sizes
  import opened PowersOfTwo
  import opened Merkle
  import opened MerkleTrees

  /** A file of the torrent: where it lies and the root its torrent names, if any. */
  datatype HashedFile = HashedFile(offset: nat, length: nat, root: Option<Hash>)

  /** Leaf hashes that a verified `hashes` message brought. */
  datatype CachedHashes = CachedHashes(root: Hash, baseLayer: nat, chunkIndex: nat, hashes: seq<Hash>)

  /** What is known of the files by index; the cache in the order it is searched. */
  datatype Evidence = Evidence(trees: map<nat, MerkleTree>, proofs: map<(nat, nat), MerkleProof>, cache: seq<CachedHashes>)

  predicate Spans(f: HashedFile, offset: nat) {
    f.offset <= offset < f.offset + f.length
  }

  /** The first file from index i on that holds the offset. */
  function SpanningFile(files: seq<HashedFile>, offset: nat, i: nat): (r: Option<nat>)
    requires i <= |files|
    ensures r.Some? ==> i <= r.value < |files| && Spans(files[r.value], offset)
    decreases |files| - i
  {
    if i == |files| then None else if Spans(files[i], offset) then Some(i) else SpanningFile(files, offset, i + 1)
  }

  predicate Covers(c: CachedHashes, root: Hash, b: nat) {
    c.root == root && c.baseLayer == 0 && c.chunkIndex <= b < c.chunkIndex + |c.hashes|
  }

  /** The leaf hash the cache knows for block b of the file with that root. */
  function CachedLeaf(cache: seq<CachedHashes>, root: Hash, b: nat): (r: Option<Hash>)
    ensures r.Some? <==> exists k :: 0 <= k < |cache| && Covers(cache[k], root, b)
  {
    if cache == [] then None
    else if Covers(cache[0], root, b) then Some(cache[0].hashes[b - cache[0].chunkIndex])
    else
      assert forall k :: 1 <= k < |cache| ==> cache[1..][k - 1] == cache[k];
      CachedLeaf(cache[1..], root, b)
  }

  /** What is known of block b of file i. */
  datatype Known = ByTree(tree: MerkleTree) | ByProof(proof: MerkleProof, root: Hash) | ByHash(hash: Hash) | Nothing

  function KnownOf(ev: Evidence, i: nat, f: HashedFile, b: nat): Known {
    if i in ev.trees then ByTree(ev.trees[i])
    else if (i, b) in ev.proofs && f.root.Some? then ByProof(ev.proofs[(i, b)], f.root.value)
    else if f.length <= BLOCK_SIZE && f.root.Some? then ByHash(f.root.value)
    else if f.root.Some? && CachedLeaf(ev.cache, f.root.value, b).Some? then ByHash(CachedLeaf(ev.cache, f.root.value, b).value)
    else Nothing
  }

  /** The block passes the check. */
  ghost predicate Passes(sha: Sha, k: Known, b: nat, block: Bytes) {
    match k
    case ByTree(t) => b < t.numBlocks && t.layers != [] && b < |t.layers[0]| && sha(block) == t.layers[0][b]
    case ByProof(proof, root) => Climb(sha, sha(block), proof.blockIndex, proof.path) == root
    case ByHash(hash) => sha(block) == hash
    case Nothing => true
  }

  method FindFile(files: seq<HashedFile>, offset: nat) returns (r: Option<nat>)
    ensures r == SpanningFile(files, offset, 0)
  {
    for i := 0 to |files|
      invariant SpanningFile(files, offset, 0) == SpanningFile(files, offset, i)
    {
      if Spans(files[i], offset) {
        return Some(i);
      }
    }
    return None;
  }

  method SearchCache(cache: seq<CachedHashes>, root: Hash, b: nat) returns (r: Option<Hash>)
    ensures r == CachedLeaf(cache, root, b)
  {
    for k := 0 to |cache|
      invariant CachedLeaf(cache, root, b) == CachedLeaf(cache[k..], root, b)
    {
      assert cache[k..][1..] == cache[k + 1..];
      if Covers(cache[k], root, b) {
        return Some(cache[k].hashes[b - cache[k].chunkIndex]);
      }
    }
    return None;
  }

  /** `verify_v2_block`. */
  method VerifyBlock(sha: Sha, files: seq<HashedFile>, ev: Evidence, offset: nat, block: Bytes) returns (ok: bool)
    ensures
      var i := SpanningFile(files, offset, 0);
      ok <==> i.Some? ==>
        var f := files[i.value];
        var b := (offset - f.offset) / BLOCK_SIZE;
        Passes(sha, KnownOf(ev, i.value, f, b), b, block)
  {
    hide SpanningFile, CachedLeaf;
    var file := FindFile(files, offset);
    if file.None? {
      return true;
    }
    var i, f := file.value, files[file.value];
    var b := (offset - f.offset) / BLOCK_SIZE;
    if i in ev.trees {
      var t := ev.trees[i];
      return b < t.numBlocks && t.layers != [] && b < |t.layers[0]| && sha(block) == t.layers[0][b];
    }
    if (i, b) in ev.proofs && f.root.Some? {
      ok := VerifyProof(sha, ev.proofs[(i, b)], block, f.root.value);
      return;
    }
    if f.length <= BLOCK_SIZE && f.root.Some? {
      return sha(block) == f.root.value;
    }
    if f.root.Some? {
      var leaf := SearchCache(ev.cache, f.root.value, b);
      if leaf.Some? {
        return sha(block) == leaf.value;
      }
    }
    return true;
  }

  // ---------------------------------------------------------------- soundness and completeness

  /** Block b of a file's bytes. */
  function DataBlock(data: Bytes, b: nat): Bytes
    requires b * BLOCK_SIZE < |data|
  {
    data[b * BLOCK_SIZE..Min((b + 1) * BLOCK_SIZE, |data|)]
  }

  lemma {:induction false} BlockHashAt(sha: Sha, data: Bytes, b: nat)
    requires b * BLOCK_SIZE < |data|
    ensures b < |BlockHashes(sha, data)| && BlockHashes(sha, data)[b] == sha(DataBlock(data, b))
    decreases b
  {
    if |data| <= BLOCK_SIZE {
      assert DataBlock(data, 0) == data;
    } else if b == 0 {
      assert DataBlock(data, 0) == data[..BLOCK_SIZE];
    } else {
      var rest := data[BLOCK_SIZE..];
      BlockHashAt(sha, rest, b - 1);
      var lo, hi := b * BLOCK_SIZE, Min((b + 1) * BLOCK_SIZE, |data|);
      DropTake(data, BLOCK_SIZE, lo, hi);
    }
  }

  lemma {:induction false} DropTake(data: Bytes, k: nat, lo: nat, hi: nat)
    requires k <= lo <= hi <= |data|
    ensures data[k..][lo - k..hi - k] == data[lo..hi]
  {
  }

  /** `t` is the tree of the file's bytes. */
  ghost predicate TreeOf(sha: Sha, t: MerkleTree, data: Bytes) {
    && data != [] && IsTree(sha, t) && t.layers[0] == Padded(BlockHashes(sha, data)) && t.numBlocks == |BlockHashes(sha, data)|
    && t.Height() == CeilLog2(t.numBlocks)
  }

  /** What is known comes from the file with tree t: the tree itself, one of its proofs, or one of its leaves. */
  ghost predicate Genuine(sha: Sha, k: Known, t: MerkleTree, b: nat)
    requires IsTree(sha, t)
  {
    match k
    case ByTree(tree) => tree == t
    case ByProof(proof, root) => proof.blockIndex == b && |proof.path| == t.Height() && root == t.root
    case ByHash(hash) => b < |t.layers[0]| && hash == t.layers[0][b]
    case Nothing => false
  }

  /** All that is known of file i is true of the file with tree t. */
  ghost predicate Truthful(sha: Sha, ev: Evidence, i: nat, f: HashedFile, t: MerkleTree)
    requires IsTree(sha, t)
  {
    && (i in ev.trees ==> ev.trees[i] == t)
    && (forall b :: (i, b) in ev.proofs ==> ev.proofs[(i, b)].blockIndex == b && |ev.proofs[(i, b)].path| == t.Height())
    && (f.root.Some? ==> f.root.value == t.root)
    && (forall k: nat, b: nat :: k < |ev.cache| && Covers(ev.cache[k], t.root, b) ==>
          b < |t.layers[0]| && ev.cache[k].hashes[b - ev.cache[k].chunkIndex] == t.layers[0][b])
  }

  lemma {:induction false} CachedLeafIsOwn(sha: Sha, cache: seq<CachedHashes>, t: MerkleTree, b: nat)
    requires IsTree(sha, t) && CachedLeaf(cache, t.root, b).Some?
    requires forall k :: 0 <= k < |cache| && Covers(cache[k], t.root, b) ==>
      b < |t.layers[0]| && cache[k].hashes[b - cache[k].chunkIndex] == t.layers[0][b]
    ensures b < |t.layers[0]| && CachedLeaf(cache, t.root, b).value == t.layers[0][b]
  {
    hide Up, Pow2;
    if !Covers(cache[0], t.root, b) {
      CachedLeafIsOwn(sha, cache[1..], t, b);
    }
  }

  /** A file of one block has its only leaf as root. */
  lemma {:induction false} OneBlockRoot(sha: Sha, t: MerkleTree, data: Bytes)
    requires TreeOf(sha, t, data) && |data| <= BLOCK_SIZE
    ensures |t.layers[0]| == 1 && t.layers[0][0] == t.root
  {
    assert t.numBlocks == 1;
  }

  /** From true evidence, what is known of a block of the file is nothing or genuine. */
  lemma {:induction false} KnownIsGenuine(sha: Sha, ev: Evidence, i: nat, f: HashedFile, t: MerkleTree, data: Bytes, b: nat)
    requires TreeOf(sha, t, data) && f.length == |data| && b * BLOCK_SIZE < |data| && Truthful(sha, ev, i, f, t)
    ensures KnownOf(ev, i, f, b) != Nothing ==> Genuine(sha, KnownOf(ev, i, f, b), t, b)
  {
    hide BlockHashes, Padded, Up, Pow2, CeilLog2, CachedLeaf;
    if f.length <= BLOCK_SIZE {
      OneBlockRoot(sha, t, data);
    }
    if f.root.Some? && CachedLeaf(ev.cache, t.root, b).Some? {
      CachedLeafIsOwn(sha, ev.cache, t, b);
    }
  }

  lemma {:induction false} LeafIsBlockHash(sha: Sha, t: MerkleTree, data: Bytes, b: nat)
    requires TreeOf(sha, t, data) && b * BLOCK_SIZE < |data|
    ensures b < t.numBlocks <= |t.layers[0]| == Pow2(t.Height()) && t.layers[0][b] == sha(DataBlock(data, b))
  {
    hide BlockHashes, Padded, Up, Pow2, CeilLog2;
    BlockHashAt(sha, data, b);
  }

  /** Soundness: a block that passes a genuine check is the file's own block, or collides with it or on the way up. */
  lemma {:induction false} CheckSound(sha: Sha, k: Known, t: MerkleTree, data: Bytes, b: nat, block: Bytes) returns (x: Bytes, y: Bytes)
    requires TreeOf(sha, t, data) && b * BLOCK_SIZE < |data| && Genuine(sha, k, t, b) && Passes(sha, k, b, block)
    ensures block == DataBlock(data, b) || Collision(sha, x, y)
  {
    hide DataBlock, BlockHashes, Padded, Up, Pow2, CeilLog2, Climb, AuditPath, Low;
    LeafIsBlockHash(sha, t, data, b);
    x, y := block, DataBlock(data, b);
    if k.ByProof? {
      TreeHalves(sha, t);
      LowOfSmall(b, t.Height());
      var u, v := ProofSound(sha, t, k.proof, block);
      if Collision(sha, u, v) {
        x, y := u, v;
      }
    }
  }

  /** Completeness: the file's own block passes every genuine check whose audit path is the tree's own. */
  lemma {:induction false} CheckComplete(sha: Sha, k: Known, t: MerkleTree, data: Bytes, b: nat)
    requires TreeOf(sha, t, data) && b * BLOCK_SIZE < |data| && Genuine(sha, k, t, b)
    requires k.ByProof? ==> Halving(t) && b < |t.layers[0]| && k.proof.path == AuditPath(t, 0, b, t.Height())
    ensures Passes(sha, k, b, DataBlock(data, b))
  {
    hide DataBlock, Up, Pow2, CeilLog2, BlockHashes, Padded;
    LeafIsBlockHash(sha, t, data, b);
    if k.ByProof? {
      ProofComplete(sha, t, b, DataBlock(data, b));
    }
  }

  /**
    The check as a whole: with true evidence about the file that holds the offset,
    an accepted block about which anything is known is the file's own block there,
    or a collision.
   */
  lemma {:induction false} AcceptedBlockIsOwn(sha: Sha, files: seq<HashedFile>, ev: Evidence, offset: nat, block: Bytes, t: MerkleTree, data: Bytes)
      returns (x: Bytes, y: Bytes)
    requires SpanningFile(files, offset, 0).Some? && TreeOf(sha, t, data)
    requires var i := SpanningFile(files, offset, 0).value;
      var f := files[i];
      var b := (offset - f.offset) / BLOCK_SIZE;
      && f.length == |data| && (offset - f.offset) % BLOCK_SIZE == 0 && Truthful(sha, ev, i, f, t)
      && KnownOf(ev, i, f, b) != Nothing && Passes(sha, KnownOf(ev, i, f, b), b, block)
    ensures var at := offset - files[SpanningFile(files, offset, 0).value].offset;
      block == data[at..Min(at + BLOCK_SIZE, |data|)] || Collision(sha, x, y)
  {
    hide SpanningFile, TreeOf, Truthful, KnownOf, Passes, Genuine, Collision, IsTree;
    var i := SpanningFile(files, offset, 0).value;
    var f := files[i];
    var b := (offset - f.offset) / BLOCK_SIZE;
    assert offset - f.offset == b * BLOCK_SIZE;
    KnownIsGenuine(sha, ev, i, f, t, data, b);
    x, y := CheckSound(sha, KnownOf(ev, i, f, b), t, data, b, block);
  }

  /** Leaf hashes from a verified `hashes` message are the tree's own, or expose a collision. */
  lemma {:induction false} CachedLeafSound(sha: Sha, t: MerkleTree, index: nat, length: nat, data: Bytes, b: nat) returns (x: Bytes, y: Bytes)
    requires IsTree(sha, t) && Halving(t) && Admissible(t, 0, index, length) && index <= b < index + length
    requires |data| % 32 == 0 && |data| >= 32 * length && |data| / 32 - length + Log2(length) == t.Height()
    requires PayloadRoot(sha, index, length, data) == t.root
    ensures b < |t.layers[0]| && (Chunks(data)[..length][b - index] == t.layers[0][b] || Collision(sha, x, y))
  {
    hide Chunks, PayloadRoot, Log2, IsPow2, Up, Pow2;
    x, y := ResponseSoundAt(sha, t, 0, index, length, data);
    if !Collision(sha, x, y) {
      assert Chunks(data)[..length][b - index] == t.layers[0][index..index + length][b - index];
    }
  }
}
