/**
  What a block arrival does to the assembly buffers, the block storage and the
  bitfield of a session, as functions on values, and what follows for a download:
  with genuine blocks a piece becomes local exactly when all its blocks have come.
 */
module Arrivals {
  import opened Wrappers
  import opened Sizes
  import opened PowersOfTwo
  import opened Bitfields
  import opened PieceStorage

  const HASH_LENGTH: nat := 20

  type Sha1 = Bytes -> Bytes

  /** An assembly buffer: the source of every block that has arrived. */
  datatype PieceBuffer = PieceBuffer(sources: seq<Option<string>>) {
    predicate Complete() {
      forall i :: 0 <= i < |sources| ==> sources[i].Some?
    }
  }

  datatype Rejection = InvalidPieceIndex | NotAligned | OutOfBounds | BlockHashMismatch | WriteFailed | PieceHashMismatch

  /** `Aborted` is the out-of-range panic of an empty block placed right after the last one. */
  datatype Outcome = Done(complete: bool) | Rejected(why: Rejection) | Aborted

  // ---------------------------------------------------------------- buffers

  function NoSources(n: nat): (r: seq<Option<string>>)
    ensures |r| == n && forall i :: 0 <= i < n ==> r[i] == None
  {
    if n == 0 then [] else NoSources(n - 1) + [None]
  }

  function BlockCount(length: nat): nat {
    (length + BLOCK_SIZE - 1) / BLOCK_SIZE
  }

  function FreshBuffer(length: nat): (r: PieceBuffer)
    ensures |r.sources| == BlockCount(length)
  {
    PieceBuffer(NoSources(BlockCount(length)))
  }

  function BufferFor(buffers: map<nat, PieceBuffer>, piece: nat, length: nat): PieceBuffer {
    if piece in buffers then buffers[piece] else FreshBuffer(length)
  }

  /** The block sources of a piece once a block from `ip` has been recorded: the first source of a block stays. */
  function SourcesWith(buffers: map<nat, PieceBuffer>, piece: nat, length: nat, index: nat, ip: string): (r: seq<Option<string>>)
    ensures |r| == |BufferFor(buffers, piece, length).sources|
  {
    var sources := BufferFor(buffers, piece, length).sources;
    if index < |sources| && sources[index].None? then sources[index := Some(ip)] else sources
  }

  predicate Present(buffers: map<nat, PieceBuffer>, piece: nat, length: nat, begin: nat) {
    var sources := BufferFor(buffers, piece, length).sources;
    begin / BLOCK_SIZE < |sources| && sources[begin / BLOCK_SIZE].Some?
  }

  /** The block ends up in the buffer: it was there, or it has a place and is accepted and written. */
  predicate Held(buffers: map<nat, PieceBuffer>, piece: nat, length: nat, begin: nat, accepted: bool, written: bool) {
    begin / BLOCK_SIZE < |BufferFor(buffers, piece, length).sources| && (Present(buffers, piece, length, begin) || (accepted && written))
  }

  /** How the arrival of a block that is not held ends. */
  function Refusal(accepted: bool, written: bool): Outcome {
    if !accepted then Rejected(BlockHashMismatch) else if !written then Rejected(WriteFailed) else Aborted
  }

  // ---------------------------------------------------------------- good pieces

  function ExpectedHash(hashes: Bytes, p: nat): Bytes
    requires HASH_LENGTH * (p + 1) <= |hashes|
  {
    hashes[HASH_LENGTH * p..HASH_LENGTH * (p + 1)]
  }

  /** The stored bytes of piece p hash to what the torrent promises. */
  ghost predicate StoredGood(sha1: Sha1, hashes: Bytes, pieceLength: nat, s: Storage, p: nat, length: nat) {
    var bytes := Read(s, PieceStart(p, pieceLength), length);
    bytes.Some? && HASH_LENGTH * (p + 1) <= |hashes| && sha1(bytes.value) == ExpectedHash(hashes, p)
  }

  // ---------------------------------------------------------------- one arrival

  /** The argument checks of a block arrival. */
  predicate Fits(l: Layout, piece: nat, begin: nat, size: nat) {
    piece < |l.lengths| && begin % BLOCK_SIZE == 0 && begin + size < U32_SIZE && begin + size <= l.lengths[piece]
  }

  /** What stays the same during a download. */
  datatype Layout = Layout(sha1: Sha1, hashes: Bytes, pieceLength: nat, lengths: seq<nat>)

  /** What a block arrival changes. */
  datatype Disk = Disk(storage: Storage, buffers: map<nat, PieceBuffer>, bits: Bits)

  /** The block is stored, unless it was there, and its source recorded. */
  function Placed(l: Layout, d: Disk, piece: nat, begin: nat, block: Bytes, ip: string): Disk
    requires piece < |l.lengths|
  {
    var length := l.lengths[piece];
    Disk(if Present(d.buffers, piece, length, begin) then d.storage else Write(d.storage, PieceStart(piece, l.pieceLength) + begin, block),
         d.buffers[piece := PieceBuffer(SourcesWith(d.buffers, piece, length, begin / BLOCK_SIZE, ip))],
         d.bits)
  }

  /** A complete piece leaves its buffer: handed to the pool, or local if its bytes hash right, or discarded. */
  ghost function Collected(l: Layout, d: Disk, piece: nat, handed: bool, found: Storage): (Disk, Outcome)
    requires piece < |l.lengths| && piece in d.buffers
  {
    var length, rest := l.lengths[piece], d.buffers - {piece};
    if !d.buffers[piece].Complete() then (d, Done(false))
    else if handed then (d.(buffers := rest), Done(true))
    else if StoredGood(l.sha1, l.hashes, l.pieceLength, d.storage, piece, length) then (Disk(d.storage, rest, Put(d.bits, piece, true)), Done(true))
    else (Disk(Discard(d.storage, PieceStart(piece, l.pieceLength), length, found), rest, d.bits), Rejected(PieceHashMismatch))
  }

  /** A block that is held arrives. */
  ghost function Arrived(l: Layout, d: Disk, piece: nat, begin: nat, block: Bytes, ip: string, handed: bool, found: Storage): (Disk, Outcome)
    requires piece < |l.lengths|
  {
    Collected(l, Placed(l, d, piece, begin, block, ip), piece, handed, found)
  }

  /** What an arrival can and cannot do. */
  lemma {:induction false} ArrivedFacts(l: Layout, d: Disk, piece: nat, begin: nat, block: Bytes, ip: string, handed: bool, found: Storage)
    requires piece < |l.lengths|
    ensures
      var (after, r) := Arrived(l, d, piece, begin, block, ip, handed, found);
      var sources := SourcesWith(d.buffers, piece, l.lengths[piece], begin / BLOCK_SIZE, ip);
      && r in {Done(false), Done(true), Rejected(PieceHashMismatch)}
      && (r == Done(false) <==> !PieceBuffer(sources).Complete())
      && after.buffers == (if r == Done(false) then d.buffers[piece := PieceBuffer(sources)] else d.buffers - {piece})
      && (after.bits != d.bits ==> after.bits == Put(d.bits, piece, true) && r == Done(true) && !handed
                                   && StoredGood(l.sha1, l.hashes, l.pieceLength, after.storage, piece, l.lengths[piece]))
      && (r == Rejected(PieceHashMismatch) ==> !handed)
  {
    hide StoredGood, SourcesWith, PieceBuffer.Complete, Write, Discard, Put;
    var sources := SourcesWith(d.buffers, piece, l.lengths[piece], begin / BLOCK_SIZE, ip);
    assert d.buffers[piece := PieceBuffer(sources)] - {piece} == d.buffers - {piece};
  }

  // ---------------------------------------------------------------- downloads

  /** The buffers have as many places as their pieces have blocks. */
  ghost predicate BuffersFit(l: Layout, buffers: map<nat, PieceBuffer>) {
    forall p :: p in buffers ==> p < |l.lengths| && |buffers[p].sources| == BlockCount(l.lengths[p])
  }

  lemma {:induction false} ArrivalFits(l: Layout, d: Disk, piece: nat, begin: nat, block: Bytes, ip: string, found: Storage)
    requires BuffersFit(l, d.buffers) && piece < |l.lengths|
    ensures BuffersFit(l, Arrived(l, d, piece, begin, block, ip, false, found).0.buffers)
  {
    hide StoredGood, SourcesWith, PieceBuffer.Complete, Write, Discard, Put, BlockCount;
    ArrivedFacts(l, d, piece, begin, block, ip, false, found);
    hide Arrived;
  }

  /** The torrent's bytes, described by its piece hashes. */
  ghost predicate Describes(l: Layout, content: Bytes) {
    forall p :: 0 <= p < |l.lengths| ==>
      && l.lengths[p] <= l.pieceLength && PieceStart(p, l.pieceLength) + l.lengths[p] <= |content| && HASH_LENGTH * (p + 1) <= |l.hashes|
      && l.sha1(PieceOf(l, content, p)) == ExpectedHash(l.hashes, p)
  }

  function PieceOf(l: Layout, content: Bytes, p: nat): Bytes
    requires p < |l.lengths| && PieceStart(p, l.pieceLength) + l.lengths[p] <= |content|
  {
    content[PieceStart(p, l.pieceLength)..PieceStart(p, l.pieceLength) + l.lengths[p]]
  }

  /** Where the first i blocks of a piece end. */
  function BlockEnd(length: nat, i: nat): (r: nat)
    ensures r <= length
  {
    Min(i * BLOCK_SIZE, length)
  }

  lemma {:induction false} BlockEnds(length: nat, i: nat)
    ensures BlockEnd(length, 0) == 0 && BlockEnd(length, BlockCount(length)) == length
    ensures i < BlockCount(length) ==> BlockEnd(length, i) == i * BLOCK_SIZE < BlockEnd(length, i + 1)
    ensures BlockEnd(length, i) <= BlockEnd(length, i + 1)
  {
  }

  lemma {:induction false} BlocksApart(length: nat, i: nat, j: nat)
    requires i < j
    ensures BlockEnd(length, i + 1) <= BlockEnd(length, j)
  {
  }

  /** Block i of a piece's bytes. */
  function BlockOf(bytes: Bytes, i: nat): Bytes
    requires i < BlockCount(|bytes|)
  {
    BlockEnds(|bytes|, i);
    bytes[BlockEnd(|bytes|, i)..BlockEnd(|bytes|, i + 1)]
  }

  /** Storage holds block i of the piece that starts at `start`. */
  ghost predicate HoldsBlock(s: Storage, start: nat, bytes: Bytes, i: nat)
    requires i < BlockCount(|bytes|)
  {
    Read(s, start + i * BLOCK_SIZE, |BlockOf(bytes, i)|) == Some(BlockOf(bytes, i))
  }

  /** Blocks that are all there make up the piece. */
  lemma {:induction false} BlocksMakePiece(s: Storage, start: nat, bytes: Bytes, k: nat)
    requires k <= BlockCount(|bytes|) && forall i :: 0 <= i < k ==> HoldsBlock(s, start, bytes, i)
    ensures Read(s, start, BlockEnd(|bytes|, k)) == Some(bytes[..BlockEnd(|bytes|, k)])
  {
    hide Read, BlockCount;
    BlockEnds(|bytes|, 0);
    if k == 0 {
      assert Read(s, start, 0) == Some([]) by { ReadNothing(s, start); }
    } else {
      BlocksMakePiece(s, start, bytes, k - 1);
      BlockEnds(|bytes|, k - 1);
      var a, b := BlockEnd(|bytes|, k - 1), BlockEnd(|bytes|, k);
      assert HoldsBlock(s, start, bytes, k - 1);
      ReadSplit(s, start, a, b - a);
      assert bytes[..a] + bytes[a..b] == bytes[..b];
    }
  }

  lemma {:induction false} ReadNothing(s: Storage, off: nat)
    ensures Read(s, off, 0) == Some([])
  {
  }

  /** What was written is read back. */
  lemma {:induction false} ReadWritten(s: Storage, off: nat, data: Bytes)
    requires forall k :: off <= k < off + |data| ==> k in s && s[k] == data[k - off]
    ensures Read(s, off, |data|) == Some(data)
    decreases |data|
  {
    if data != [] {
      assert forall k :: off + 1 <= k < off + |data| ==> k in s && s[k] == data[1..][k - (off + 1)];
      ReadWritten(s, off + 1, data[1..]);
      assert data == [data[0]] + data[1..];
    }
  }

  /** All blocks of piece p are among the delivered ones. */
  ghost predicate AllDone(l: Layout, done: set<(nat, nat)>, p: nat)
    requires p < |l.lengths|
  {
    forall i :: 0 <= i < BlockCount(l.lengths[p]) ==> (p, i) in done
  }

  /** A piece that is not local buffers exactly its delivered blocks, not all of them, and storage holds them. */
  ghost predicate Filling(bytes: Bytes, start: nat, p: nat, done: set<(nat, nat)>, buffer: PieceBuffer, s: Storage) {
    && |buffer.sources| == BlockCount(|bytes|) && !buffer.Complete()
    && forall i :: 0 <= i < |buffer.sources| ==>
         (buffer.sources[i].Some? <==> (p, i) in done) && (buffer.sources[i].Some? ==> HoldsBlock(s, start, bytes, i))
  }

  /** The state of piece p after the delivery of the blocks `done`, starting from the local pieces `first`. */
  ghost predicate PieceProgress(l: Layout, content: Bytes, first: Bits, done: set<(nat, nat)>, d: Disk, p: nat)
    requires Describes(l, content) && p < |l.lengths|
  {
    if Get(d.bits, p) then Get(first, p) || AllDone(l, done, p)
    else
      && !Get(first, p)
      && Filling(PieceOf(l, content, p), PieceStart(p, l.pieceLength), p, done, BufferFor(d.buffers, p, l.lengths[p]), d.storage)
  }

  ghost predicate Progress(l: Layout, content: Bytes, first: Bits, done: set<(nat, nat)>, d: Disk)
    requires Describes(l, content)
  {
    && |d.bits| == ByteCount(|l.lengths|) && BuffersFit(l, d.buffers)
    && forall p :: 0 <= p < |l.lengths| ==> PieceProgress(l, content, first, done, d, p)
  }

  /** A download starts with empty buffers. */
  lemma {:induction false} ProgressStarts(l: Layout, content: Bytes, d: Disk)
    requires Describes(l, content) && d.buffers == map[] && |d.bits| == ByteCount(|l.lengths|)
    requires forall p :: 0 <= p < |l.lengths| ==> l.lengths[p] > 0
    ensures Progress(l, content, d.bits, {}, d)
  {
    forall p | 0 <= p < |l.lengths|
      ensures PieceProgress(l, content, d.bits, {}, d, p)
    {
      var buffer := FreshBuffer(l.lengths[p]);
      assert |buffer.sources| >= 1 && buffer.sources[0].None?;
    }
  }

  /** With progress, a piece is local exactly if it was at the start or all its blocks were delivered. */
  lemma {:induction false} LocalExactly(l: Layout, content: Bytes, first: Bits, done: set<(nat, nat)>, d: Disk, p: nat)
    requires Describes(l, content) && Progress(l, content, first, done, d) && p < |l.lengths|
    ensures Get(d.bits, p) <==> Get(first, p) || AllDone(l, done, p)
  {
    hide Get, HoldsBlock, BlockCount;
    assert PieceProgress(l, content, first, done, d, p);
    if !Get(d.bits, p) {
      var buffer := BufferFor(d.buffers, p, l.lengths[p]);
      var i :| 0 <= i < |buffer.sources| && !buffer.sources[i].Some?;
      assert (p, i) !in done;
    }
  }

  /** What the genuine block i of piece p does to a download. */
  ghost function Delivered(l: Layout, d: Disk, p: nat, i: nat, block: Bytes, ip: string, found: Storage): Disk
    requires p < |l.lengths|
  {
    if Get(d.bits, p) then d else Arrived(l, d, p, i * BLOCK_SIZE, block, ip, false, found).0
  }

  /** The genuine block i of piece p keeps the progress of every other piece. */
  lemma {:induction false} OthersProgress(l: Layout, content: Bytes, first: Bits, done: set<(nat, nat)>, d: Disk, after: Disk, p: nat, i: nat, q: nat)
    requires Describes(l, content) && p < |l.lengths| && q < |l.lengths| && q != p
    requires PieceProgress(l, content, first, done, d, q)
    requires SameOutside(d.storage, after.storage, PieceStart(p, l.pieceLength), PieceStart(p, l.pieceLength) + l.lengths[p])
    requires BufferFor(after.buffers, q, l.lengths[q]) == BufferFor(d.buffers, q, l.lengths[q]) && Get(after.bits, q) == Get(d.bits, q)
    ensures PieceProgress(l, content, first, done + {(p, i)}, after, q)
  {
    hide Get, SameOutside, PieceStart, BufferFor, Read;
    if !Get(d.bits, q) {
      var start, bytes := PieceStart(q, l.pieceLength), PieceOf(l, content, q);
      var buffer := BufferFor(d.buffers, q, l.lengths[q]);
      PiecesDisjoint(p, q, l.pieceLength, l.lengths[p], l.lengths[q]);
      forall j | 0 <= j < |buffer.sources| && buffer.sources[j].Some?
        ensures HoldsBlock(after.storage, start, bytes, j)
      {
        BlockEnds(|bytes|, j);
        ReadUntouched(d.storage, after.storage, PieceStart(p, l.pieceLength), PieceStart(p, l.pieceLength) + l.lengths[p],
                      start + j * BLOCK_SIZE, |BlockOf(bytes, j)|);
        assert HoldsBlock(d.storage, start, bytes, j);
      }
    }
  }

  /** Buffered blocks are exactly the delivered ones, and storage holds them. */
  ghost predicate Recorded(bytes: Bytes, start: nat, p: nat, done: set<(nat, nat)>, sources: seq<Option<string>>, s: Storage) {
    && |sources| == BlockCount(|bytes|)
    && forall j :: 0 <= j < |sources| ==>
         (sources[j].Some? <==> (p, j) in done) && (sources[j].Some? ==> HoldsBlock(s, start, bytes, j))
  }

  /** Writing one block leaves the others alone and is read back. */
  lemma {:induction false} BlockWritten(s: Storage, start: nat, bytes: Bytes, i: nat, j: nat)
    requires i < BlockCount(|bytes|) && j < BlockCount(|bytes|) && (j != i ==> HoldsBlock(s, start, bytes, j))
    ensures HoldsBlock(Write(s, start + i * BLOCK_SIZE, BlockOf(bytes, i)), start, bytes, j)
  {
    hide Read, Write, SameOutside, BlockCount;
    BlockEnds(|bytes|, i);
    BlockEnds(|bytes|, j);
    var off, block := start + i * BLOCK_SIZE, BlockOf(bytes, i);
    var t := Write(s, off, block);
    if j == i {
      ReadWritten(t, off, block);
    } else {
      if j < i {
        BlocksApart(|bytes|, j, i);
      } else {
        BlocksApart(|bytes|, i, j);
      }
      ReadUntouched(s, t, off, off + |block|, start + j * BLOCK_SIZE, |BlockOf(bytes, j)|);
    }
  }

  lemma {:induction false} BlockIndex(i: nat)
    ensures i * BLOCK_SIZE / BLOCK_SIZE == i
  {
  }

  /** Placing the genuine block i records it. */
  lemma {:induction false} PlacedRecords(bytes: Bytes, start: nat, p: nat, done: set<(nat, nat)>, before: seq<Option<string>>, s: Storage, i: nat, ip: string)
    requires i < BlockCount(|bytes|) && Recorded(bytes, start, p, done, before, s)
    ensures
      var t := if before[i].Some? then s else Write(s, start + i * BLOCK_SIZE, BlockOf(bytes, i));
      Recorded(bytes, start, p, done + {(p, i)}, if before[i].None? then before[i := Some(ip)] else before, t)
  {
    hide HoldsBlock, Write, BlockCount;
    if before[i].None? {
      var sources := before[i := Some(ip)];
      forall j | 0 <= j < |sources| && sources[j].Some?
        ensures HoldsBlock(Write(s, start + i * BLOCK_SIZE, BlockOf(bytes, i)), start, bytes, j)
      {
        BlockWritten(s, start, bytes, i, j);
      }
    }
  }

  /** The genuine block i of a piece that is not local: the piece fills up or becomes local. */
  lemma {:induction false} OwnProgress(l: Layout, content: Bytes, first: Bits, done: set<(nat, nat)>, d: Disk, p: nat, i: nat, ip: string, found: Storage)
    requires Describes(l, content) && p < |l.lengths| && i < BlockCount(l.lengths[p]) && p / 8 < |d.bits|
    requires PieceProgress(l, content, first, done, d, p) && !Get(d.bits, p)
    ensures PieceProgress(l, content, first, done + {(p, i)}, Delivered(l, d, p, i, BlockOf(PieceOf(l, content, p), i), ip, found), p)
  {
    hide Get, Put, Write, HoldsBlock, BlockCount, BlockOf, Collected, StoredGood, PieceStart;
    var bytes, start, done' := PieceOf(l, content, p), PieceStart(p, l.pieceLength), done + {(p, i)};
    var before := BufferFor(d.buffers, p, l.lengths[p]).sources;
    BlockIndex(i);
    PlacedRecords(bytes, start, p, done, before, d.storage, i, ip);
    var placed := Placed(l, d, p, i * BLOCK_SIZE, BlockOf(bytes, i), ip);
    CollectedProgress(l, content, first, done', placed, p, found);
  }

  /** A piece whose recorded blocks are the delivered ones becomes local exactly if that is all of them. */
  lemma {:induction false} CollectedProgress(l: Layout, content: Bytes, first: Bits, done: set<(nat, nat)>, placed: Disk, p: nat, found: Storage)
    requires Describes(l, content) && p < |l.lengths| && p / 8 < |placed.bits| && p in placed.buffers && !Get(placed.bits, p) && !Get(first, p)
    requires Recorded(PieceOf(l, content, p), PieceStart(p, l.pieceLength), p, done, placed.buffers[p].sources, placed.storage)
    ensures PieceProgress(l, content, first, done, Collected(l, placed, p, false, found).0, p)
  {
    hide Get, Put, HoldsBlock, BlockCount, Discard, StoredGood, PieceStart, AllDone;
    var buffer := placed.buffers[p];
    if buffer.Complete() {
      PieceIsGood(l, content, p, buffer.sources, done, placed.storage);
      GetPut(placed.bits, p, true, p);
    }
  }

  /** A piece all of whose blocks are recorded hashes right. */
  lemma {:induction false} PieceIsGood(l: Layout, content: Bytes, p: nat, sources: seq<Option<string>>, done: set<(nat, nat)>, s: Storage)
    requires Describes(l, content) && p < |l.lengths| && PieceBuffer(sources).Complete()
    requires Recorded(PieceOf(l, content, p), PieceStart(p, l.pieceLength), p, done, sources, s)
    ensures StoredGood(l.sha1, l.hashes, l.pieceLength, s, p, l.lengths[p]) && AllDone(l, done, p)
  {
    hide HoldsBlock, BlockCount, Read, ExpectedHash, PieceStart;
    var bytes := PieceOf(l, content, p);
    BlocksMakePiece(s, PieceStart(p, l.pieceLength), bytes, BlockCount(|bytes|));
    BlockEnds(|bytes|, 0);
    assert bytes[..|bytes|] == bytes;
  }

  lemma {:induction false} DeliveredInside(l: Layout, d: Disk, p: nat, i: nat, block: Bytes, ip: string, found: Storage)
    requires p < |l.lengths| && i * BLOCK_SIZE + |block| <= l.lengths[p]
    ensures
      var after := Delivered(l, d, p, i, block, ip, found);
      && SameOutside(d.storage, after.storage, PieceStart(p, l.pieceLength), PieceStart(p, l.pieceLength) + l.lengths[p])
      && (forall q :: q != p ==> (q in after.buffers <==> q in d.buffers) && (q in d.buffers ==> after.buffers[q] == d.buffers[q]))
      && (after.bits == d.bits || after.bits == Put(d.bits, p, true))
  {
    hide Get, Put, Write, SameOutside, PieceBuffer.Complete, StoredGood, SourcesWith, FreshBuffer, Discard;
    SameOutsideSelf(d.storage);
    var start, length := PieceStart(p, l.pieceLength), l.lengths[p];
    var placed := Placed(l, d, p, i * BLOCK_SIZE, block, ip);
    SameOutsideChain(d.storage, placed.storage, placed.storage, start + i * BLOCK_SIZE, start + i * BLOCK_SIZE + |block|, start, start + length);
    SameOutsideSelf(placed.storage);
    var dropped := Discard(placed.storage, start, length, found);
    SameOutsideChain(d.storage, placed.storage, dropped, start, start + length, start, start + length);
  }

  /** The genuine block i of piece p, whether new, repeated or late, adds exactly itself to the download. */
  lemma {:induction false} DeliveryProgress(l: Layout, content: Bytes, first: Bits, done: set<(nat, nat)>, d: Disk, p: nat, i: nat, ip: string, found: Storage)
    requires Describes(l, content) && p < |l.lengths| && i < BlockCount(l.lengths[p])
    requires Progress(l, content, first, done, d)
    ensures Progress(l, content, first, done + {(p, i)}, Delivered(l, d, p, i, BlockOf(PieceOf(l, content, p), i), ip, found))
  {
    hide Get, Put, PieceProgress, SameOutside, BlockCount, FreshBuffer, Arrived;
    var bytes, done' := PieceOf(l, content, p), done + {(p, i)};
    var block := BlockOf(bytes, i);
    var after := Delivered(l, d, p, i, block, ip, found);
    BlockEnds(|bytes|, i);
    DeliveredInside(l, d, p, i, block, ip, found);
    forall q | 0 <= q < |l.lengths|
      ensures PieceProgress(l, content, first, done', after, q)
    {
      if q != p {
        GetPut(d.bits, p, true, q);
        OthersProgress(l, content, first, done, d, after, p, i, q);
      } else if Get(d.bits, p) {
        LocalStays(l, content, first, done, d, p, i);
      } else {
        OwnProgress(l, content, first, done, d, p, i, ip, found);
      }
    }
    ArrivalFits(l, d, p, i * BLOCK_SIZE, block, ip, found);
  }

  lemma {:induction false} LocalStays(l: Layout, content: Bytes, first: Bits, done: set<(nat, nat)>, d: Disk, p: nat, i: nat)
    requires Describes(l, content) && p < |l.lengths| && Get(d.bits, p) && PieceProgress(l, content, first, done, d, p)
    ensures PieceProgress(l, content, first, done + {(p, i)}, d, p)
  {
  }
}
