# BitTorrent library model

A Dafny model of the parts of the `bittorrent` library whose correctness is
hard to see from the code, with proofs about every input or every run.

* **Merkle trees (BEP 52)**: `Merkle.dfy`, `MerkleTrees.dfy`, `BlockCheck.dfy`.  Tree construction,
  audit paths, piece layers, the generator and verifier of `hashes` payloads, and the
  check of arriving blocks.  SHA-256 is a parameter; soundness is stated as "equal, or here is a collision".
* **Session state**: `Scheduling.dfy`, `Availability.dfy`, `Bitfields.dfy`,
  `FileSelection.dfy`, `SelectionReport.dfy`, `PieceStorage.dfy`, `Arrivals.dfy`,
  `Recheck.dfy`, `TorrentContext.dfy`, `Session.dfy`.  Bitfields, byte and
  missing counters, peer counts, block storage, file priorities and the lazily
  cleaned rarity heap, as one object whose operations keep one invariant over any
  run of events.
* **Super-seeding (BEP 16)**: `SuperSeeding.dfy`.
* **Metadata exchange (BEP 9, BEP 53)**: `Bencode.dfy`, `Manifest.dfy`, `MetadataPieces.dfy`,
  `MetadataFetcher.dfy`, `MetadataCollectors.dfy`.  The pipelined fetcher with timeouts, the
  manifest read from a truncated prefix, and reassembly in any order.
* **File tree (BEP 52)**: `FileTree.dfy`, `FileTreeParser.dfy`, `Utf8.dfy`.  Builder, printer, tokenizer and
  recursive parser.
* **Magnet links**: `PercentCoding.dfy`, `SelectOnly.dfy`, `Magnet.dfy`.
* **Routing table (BEP 5)**: `Dht.dfy`, `RoutingTable.dfy`.
* **RC4**: `Rc4.dfy`.
* Shared: `Wrappers.dfy`, `Sizes.dfy`, `Collections.dfy`, `Sorting.dfy`, `Splitting.dfy`,
  `PowersOfTwo.dfy`, `Octets.dfy`, `Decimal.dfy`.

Objects the source updates in place are classes; loops are methods proved against
specification functions, and the laws are lemmas about those functions.  A lock
held by the source is one atomic step.  Hash functions, clocks, verification
pools, storage failures, remote replies and what a discarded range reads as
afterwards are parameters, so every theorem holds for any behaviour of theirs.
`dafny verify dfyconfig.toml` checks everything.

Where code and documentation differ the model follows the code.  The Merkle
verifiers take a layer number they do not use, so soundness names the height.
`compute_root_from_piece_hashes` is described as giving the file root but pads with
zero hashes; `MerkleTrees.PieceLayerRoot` states when that is the same.  A failed
background verification re-admits a piece without a new heap entry;
`Scheduling.QueryDuringVerification` states when the piece is then missed, and
`Sessions.FailedPieceVanishes` is such a run.  Texts outside ASCII do
not survive a magnet round trip; `PercentCoding.PercentRoundTrip` states it exactly.

## Model

| member | source | states |
|---|---|---|
| `Scheduling.HeapAgreesWithScan` | library/src/core/views.rs:68-87 | if no eligible piece lacks a current heap entry, the first live heap entry a peer offers is exactly the piece the linear scan picks (fewest peers, then lowest index) |
| `Scheduling.AgreementIffNothingLost` | library/src/core/torrent_context.rs:2639-2671 | heap and scan agree for every peer if and only if no eligible piece lacks a current entry |
| `Scheduling.RarestUnique` | library/src/core/views.rs:68-87 | the scan has only one right answer, so agreement means equality |
| `Scheduling.BumpLosesNothing` | library/src/core/piece_accounting.rs:78-110 | merging or unmerging any bitfield, pushing an entry per changed count, leaves no eligible piece without a current entry |
| `Scheduling.BumpCounts` | library/src/core/piece_accounting.rs:78-110 | the byte-and-bit loop changes exactly the counts of the pieces in the bitfield (saturating at zero downwards) and pushes exactly their new entries |
| `Scheduling.SearchAnswers` | library/src/core/torrent_context.rs:2639-2671 | the lazy search ends at the first live entry the peer offers |
| `Scheduling.SearchCleans` | library/src/core/torrent_context.rs:2639-2671 | the heap after a query is the heap before it minus exactly the dead entries that precede the answer |
| `Scheduling.CleaningLosesNothing` | library/src/core/torrent_context.rs:2639-2671 | dropping those dead entries loses no eligible piece |
| `Scheduling.ReadmissionExactly` | library/src/core/torrent_context.rs:2025-2045 | re-admitting a piece loses at most that piece, and exactly if its current entry is gone from the heap |
| `Scheduling.QueryDuringVerification` | library/src/core/torrent_context.rs:2639-2671 | a query while piece p is being verified makes p get lost on re-admission if and only if it found nothing, or a piece that p precedes |
| `Scheduling.FailedPieceCanVanish` | library/src/core/torrent_context.rs:2025-2045 | the two boards of the smallest such case: the scan offers the only piece, the heap none |
| `Availability.MergeConservesExactly` | library/src/core/piece_accounting.rs:113-115 | merging a bitfield makes the counts right if and only if the peer held nothing before (for pieces in range) |
| `Availability.ClearKeepsExact` | library/src/network/peer.rs:1072-1080 | HaveNone from a peer that held nothing keeps the counts exact |
| `Availability.ForgetConservesExactly` | library/src/core/torrent_context.rs:1407-1429 | forgetting a peer without unmerging keeps the counts right if and only if it held nothing |
| `Availability.UnmergeConserves` | library/src/core/piece_accounting.rs:118-120 | unmerging a leaving peer keeps every count equal to the number of holders |
| `Availability.HaveConserves` | library/src/network/peer.rs:659-664 | a Have for a piece the peer lacked, counted once, keeps the counts right |
| `Availability.RemoveKeepsExact` | library/src/core/torrent_context.rs:1375-1390 | removing a peer keeps the counts exact, and the saturating subtraction never saturates |
| `Availability.AnnounceKeepsExact` | library/src/network/peer.rs:698-700 | a first Bitfield or HaveAll keeps the counts exact |
| `Availability.HaveKeepsExact` | library/src/network/peer.rs:659-664 | any Have keeps the counts exact |
| `Availability.BlameJudges` | library/src/core/torrent_context.rs:1407-1429 | blaming any list of sources only raises scores and only removes peers, and removes none while nobody has three strikes |
| `Availability.SetPiece` | library/src/network/peer.rs:505-515 | marks one piece in the remote bitfield, growing it if needed, and leaves every other bit alone |
| `Bitfields.GetPut` | library/src/core/piece_accounting.rs:18-76 | setting or clearing one bit, most significant first, changes exactly that piece |
| `Bitfields.CountPut` | library/src/core/piece_accounting.rs:52-67 | the number of set bits moves by exactly the change of one bit |
| `Bitfields.SumPut` | library/src/core/piece_accounting.rs:203-216 | the sum of the lengths of local pieces moves by exactly the change of one piece |
| `FileSelection.GetPiecePriority` | library/src/core/piece_accounting.rs:257-289 | the loop returns the highest priority among the files overlapping the piece, Normal if there are none |
| `FileSelection.MaxOverlapIsHighest` | library/src/core/piece_accounting.rs:272-288 | the running maximum is attained by an overlapping file and exceeded by none |
| `FileSelection.UnwantedExactly` | library/src/core/piece_accounting.rs:292-294 | a piece is unwanted exactly if some file overlaps it and all that do are skipped |
| `FileSelection.SkippingOnlyShrinks` | library/src/core/piece_accounting.rs:300-342 | skipping one more file never makes a piece wanted |
| `FileSelection.SelectFiles` | library/src/core/piece_accounting.rs:364-399 | the selection loop raises selected files from Skip to Normal and skips all others |
| `FileSelection.BytesConserved` | library/src/network/metadata_fetcher.rs:237-294 | selected plus unselected bytes are the bytes of all files |
| `FileSelection.WantedAfterSelection` | library/src/core/piece_accounting.rs:364-399 | after a selection a piece is wanted exactly if a selected non-empty file overlaps it |
| `FileSelection.SelectionEquivalence` | library/src/network/metadata_fetcher.rs:237-294 | for files end to end without empty ones, the division form lists a piece exactly if the overlap form wants it after the selection |
| `FileSelection.SelectionEquivalenceExactly` | library/src/core/piece_accounting.rs:407-453 | with empty files the two forms agree on all pieces if and only if every selected empty file starts in a piece some selected non-empty file needs |
| `SelectionReports.EvaluateSelection` | library/src/network/metadata_fetcher.rs:237-294 | the whole report: increasing indices, exactly the selected and unselected files, their bytes and pieces, and savings as the share left out of the manifest totals, which for the true total is the share of unselected bytes |
| `SelectionReports.SavingsExactly` | library/src/network/metadata_fetcher.rs:262-272 | a percentage is the share of what is left out, zero exactly if nothing is |
| `Rechecking.PiecesTile` | library/src/storage/disk_io.rs:101-109 | with the recorded lengths every piece starts where the one before ends and the last ends at the torrent size |
| `Rechecking.DownloadedAllExactly` | library/src/storage/disk_io.rs:101-119 | downloaded bytes never exceed the torrent and equal it exactly when every piece is local |
| `Rechecking.TallyPieces` | library/src/storage/disk_io.rs:93-119 | lengths, missing bits and the two counters after the recheck loop; missing plus local pieces are all pieces |
| `TorrentContexts.StatusConservesExactly` | library/src/core/piece_accounting.rs:203-216 | one status update keeps downloaded bytes equal to the lengths of local pieces if and only if it neither changes the length of a local piece, drops a non-empty one, nor reports a new piece above the limit |
| `TorrentContexts.WriteKeepsGood` | library/src/core/torrent_context.rs:1168-1180 | a write inside a piece that is not local leaves every local piece hashing right |
| `TorrentContexts.MarkKeepsGood` | library/src/core/piece_accounting.rs:203-216 | marking a piece whose stored bytes hash right keeps every local piece right |
| `TorrentContexts.RebuiltCovers` | library/src/core/piece_accounting.rs:320-342 | a rebuilt heap has a current entry for every eligible piece |
| `TorrentContexts.LostAfter` | library/src/core/torrent_context.rs:1979-1989 | a new local or verifying piece loses nothing; an ended verification at most its own piece |
| `TorrentContexts.OtherBytesStay` | library/src/core/torrent_context.rs:1168-1180 | a change confined to one piece that is not local leaves the bytes of all local pieces alone |
| `TorrentContexts.StaysSilent` | library/src/network/peer.rs:698-700 | in a fair run peers that have not spoken hold nothing, so every announcement is merged from an empty bitfield |
| `TorrentContexts.TorrentContext.constructor` | library/src/core/torrent_context.rs:538-565 | a fresh session satisfies the invariant, has no local piece and no piece without a heap entry |
| `TorrentContexts.TorrentContext.ScanRarestPiece` | library/src/core/views.rs:68-87 | the default scan returns the eligible piece of the peer with fewest peers, lowest index first, never one whose count is `usize::MAX` |
| `TorrentContexts.TorrentContext.PopRarestPiece` | library/src/core/torrent_context.rs:2639-2671 | returns the first live entry, equals the scan when nothing is lost, keeps the invariant and the set of lost pieces |
| `TorrentContexts.TorrentContext.UpdatePiecePeerCounts` | library/src/core/piece_accounting.rs:78-110 | new counts and pushed entries exactly, nothing newly lost |
| `TorrentContexts.TorrentContext.IncrementPeerCount` | library/src/core/torrent_context.rs:1727-1738 | one count up and its entry pushed, nothing newly lost |
| `TorrentContexts.TorrentContext.AddPeer` | library/src/core/torrent_context.rs:1361-1372 | a peer joins exactly if it is not blacklisted, named, new and there is room |
| `TorrentContexts.TorrentContext.RemovePeer` | library/src/core/torrent_context.rs:1375-1390 | the peer is gone and its bitfield unmerged, each held count falling by exactly one, unless the swarm lock is taken (nothing happens) or the peer lock is (gone without unmerging); counts stay exact exactly if a peer that is not unmerged held nothing |
| `TorrentContexts.TorrentContext.OnHave` | library/src/network/peer.rs:659-664 | one piece more for the peer, counted exactly if it was new |
| `TorrentContexts.TorrentContext.OnBitfield` | library/src/network/peer.rs:698-700 | bitfield replaced and merged; counts stay exact exactly if the peer held nothing |
| `TorrentContexts.TorrentContext.OnHaveAll` | library/src/network/peer.rs:1062-1071 | all bits set and merged |
| `TorrentContexts.TorrentContext.OnHaveNone` | library/src/network/peer.rs:1072-1080 | all bits cleared without unmerging |
| `TorrentContexts.TorrentContext.SetFilePriority` | library/src/core/piece_accounting.rs:300-342 | rejects a bad index; otherwise the new priority, the requests of unwanted pieces dropped on Skip and the heap rebuilt on any other priority; nothing newly lost |
| `TorrentContexts.TorrentContext.ApplyFileSelection` | library/src/core/piece_accounting.rs:364-399 | new priorities, rebuilt heap, dropped requests, and no piece lost |
| `TorrentContexts.TorrentContext.MarkPieceMissing` | library/src/core/piece_accounting.rs:52-67 | the missing bit and the missing counter change together |
| `TorrentContexts.TorrentContext.UpdateBitfieldStatus` | library/src/core/piece_accounting.rs:203-216 | bits, length and downloaded bytes after the update, and exactly when the accounts stay balanced |
| `TorrentContexts.TorrentContext.SetPieceLength` | library/src/core/piece_accounting.rs:142-155 | a length above the limit is ignored; the accounts stay balanced exactly unless a local piece changes its length |
| `TorrentContexts.TorrentContext.RecheckPieces` | library/src/storage/disk_io.rs:80-122 | after a recheck the invariant holds with the scanned bits, the true piece lengths and matching counters; only pieces that stopped being local can get lost |
| `TorrentContexts.TorrentContext.CheckPieceHashStreaming` | library/src/core/piece_accounting.rs:172-200 | true exactly if all bytes of the piece are stored and hash to the expected value |
| `TorrentContexts.TorrentContext.ReportBadPeer` | library/src/core/torrent_context.rs:1407-1429 | one strike more; the third removes the peer, exactness is lost only if it held pieces |
| `TorrentContexts.TorrentContext.AcceptPiece` | library/src/core/torrent_context.rs:1235-1254 | a good piece becomes local, its requests go, its length is added once |
| `TorrentContexts.TorrentContext.RejectPiece` | library/src/core/torrent_context.rs:1255-1278 | a bad piece is discarded from storage, its sources are blamed, it is marked missing |
| `TorrentContexts.TorrentContext.ApplyVerificationResult` | library/src/core/torrent_context.rs:1995-2047 | accepts or rejects a background result; a failed piece is the only one that can get lost, a good one loses nothing |
| `TorrentContexts.TorrentContext.FinishPiece` | library/src/core/torrent_context.rs:1197-1277 | a complete piece goes to the pool, or is accepted exactly if its stored bytes hash right |
| `TorrentContexts.TorrentContext.StoreBlock` | library/src/core/torrent_context.rs:1162-1180 | every outcome of storing one block: already there, refused, write failed, stored and attributed |
| `TorrentContexts.TorrentContext.ProcessPieceBlock` | library/src/core/torrent_context.rs:1113-1282 | exact error conditions; storage changes only inside the named piece and only if it is not local; a held block changes buffers, storage and bitfield exactly as `Arrivals.Arrived` says, so outside the pool a completed piece becomes local if its stored bytes hash right and is rejected if not; a failed piece leaves its buffer and blames exactly the recorded source of each block |
| `Arrivals.ArrivedFacts` | library/src/core/torrent_context.rs:1162-1277 | what an arrival can do: its outcome tells whether the piece is complete, a piece becomes local only if good, and the buffer is updated or emptied |
| `Arrivals.BlocksMakePiece` | library/src/core/torrent_context.rs:1162-1180 | blocks read back one by one make up the bytes of the piece |
| `Arrivals.DeliveryProgress` | library/src/core/torrent_context.rs:1113-1282 | a genuine block, new, repeated or late, adds exactly itself: a piece not local buffers exactly its delivered blocks and storage holds them |
| `Arrivals.LocalExactly` | library/src/core/torrent_context.rs:1235-1254 | with such progress a piece is local exactly if it was at the start or all its blocks were delivered |
| `TorrentContexts.GenuineRun` | library/src/core/torrent_context.rs:1113-1282 | any run of genuine blocks in any order advances the download by exactly its deliveries |
| `TorrentContexts.TorrentContext.Step` | library/src/core/torrent_context.rs:1113-1282 | one event of any kind keeps the invariant, keeps local pieces local with the same bytes, loses at most the pieces its late failure re-admits, changes only what the speaking peer holds, and throws nobody out before three strikes |
| `TorrentContexts.TorrentContext.Run` | library/src/core/torrent_context.rs:1113-1282 | any run of events: accounts balanced, local pieces good and never overwritten (synchronous verification), heap equal to scan except for pieces under or queued for verification whose background verification failed; in synchronous sessions without endgame whose blocks are accepted and written, buffers, storage and bitfield are the fold of the arrivals; from peers that hold nothing, counts are exact at the end if every wholesale announcement in the event list is its peer's first message, nobody who spoke leaves locked, and no score has reached three |
| `Sessions.RunSession` | library/src/storage/disk_io.rs:80-122 | a session from creation and recheck through any run: downloaded bytes at most the torrent, equal exactly when all pieces are local; local pieces good and no piece lost (synchronous verification); only pieces whose blocks arrived can be re-admitted, none without a late failure; counts exact in fair runs |
| `Sessions.DownloadSession` | library/src/core/torrent_context.rs:1113-1282 | a synchronous session fed genuine blocks in any order, repeated and mixed with other events: a piece ends local exactly if the recheck found it or all its blocks came, so all blocks make the download complete |
| `Sessions.FailedPieceVanishes` | library/src/core/torrent_context.rs:2025-2045 | a run of the session object in which the only piece fails its background verification: the scan then returns it, the heap query returns none |
| `SuperSeeding.FreshPiecesFirst` | library/src/core/torrent_context.rs:971-983 | an already offered piece is chosen only when every candidate has been offered |
| `SuperSeeding.BestUnique` | library/src/core/torrent_context.rs:971-983 | the choice is determined |
| `SuperSeeding.ChoosePiece` | library/src/core/torrent_context.rs:950-983 | the local piece the peer lacks that comes first by (offered, seen, index), none exactly if there is no candidate |
| `SuperSeeding.SuperSeedingState.SetSuperSeeding` | library/src/core/torrent_context.rs:924-930 | disabling drops every pending offer |
| `SuperSeeding.SuperSeedingState.OfferPiece` | library/src/core/torrent_context.rs:939-992 | one pending piece per peer, the best candidate, counted and recorded |
| `SuperSeeding.SuperSeedingState.OnPeerHave` | library/src/core/torrent_context.rs:999-1055 | confirms exactly the pending offer recorded for that piece when another peer shows it, and offers the freed peer a new piece |
| `SuperSeeding.SuperSeedingState.OnPeerDisconnect` | library/src/core/torrent_context.rs:1058-1070 | drops the peer's pending offer and its record |
| `SuperSeeding.SuperSeedingState.UploadNeedsOffer` | library/src/core/torrent_context.rs:1095-1106 | while super-seeding, uploading implies a past offer of that piece to that peer |
| `SuperSeeding.SuperSeedingState.Step` | library/src/core/torrent_context.rs:924-1070 | one event drops exactly the pending offers it disables or disconnects, and forgets no offer or confirmation |
| `SuperSeeding.SuperSeedingState.Run` | library/src/core/super_seeding.rs:7-20 | any run: offered = confirmed + pending + dropped, a recorded offer is pending or confirmed; a run without disconnects and disabling drops nothing, so offered = confirmed + pending over it |
| `Merkle.LevelIsBlockRoot` | library/src/core/merkle.rs:110-166 | node i of layer h is the root of leaves i*2^h up to (i+1)*2^h, defined top down |
| `Merkle.FoldIsRoot` | library/src/core/merkle.rs:110-166 | hashing up layer by layer equals the recursive root |
| `Merkle.ClimbOwnPath` | library/src/core/merkle.rs:45-68 | climbing along the audit path of a node reaches the node above it |
| `Merkle.ClimbSound` | library/src/core/merkle.rs:45-68 | a climb that reaches a tree node followed that node's own path, or gives a collision |
| `Merkle.FoldInjective` | library/src/core/merkle.rs:358-435 | two equally long power-of-two lists with one root are equal, or give a collision |
| `MerkleTrees.FromLeafHashes` | library/src/core/merkle.rs:110-166 | layers of a zero-padded complete tree over the leaves, with its root and height |
| `MerkleTrees.FromBytes` | library/src/core/merkle.rs:89-107 | the tree over the 16 KiB block hashes of the data; empty data has no layers |
| `MerkleTrees.Proof` | library/src/core/merkle.rs:203-222 | the audit path of the block, none exactly if the index is out of range |
| `MerkleTrees.VerifyProof` | library/src/core/merkle.rs:45-68 | accepts exactly if climbing from the block hash reaches the expected root |
| `MerkleTrees.ProofComplete` | library/src/core/merkle.rs:203-222 | every generated proof verifies |
| `MerkleTrees.ProofSound` | library/src/core/merkle.rs:45-68 | an accepted proof of full height carries the leaf hash and siblings of that block, or gives a collision |
| `MerkleTrees.ShortProofAcceptsInnerNode` | library/src/core/merkle.rs:45-68 | why the height is a hypothesis: a shorter path verifies the two hashes below an inner node as block 0 |
| `MerkleTrees.GenerateHashesResponse` | library/src/core/merkle.rs:293-351 | a payload exactly for admissible requests: the slice followed by its uncles |
| `MerkleTrees.VerifyHashesResponse` | library/src/core/merkle.rs:358-435 | each error exactly under its condition; success returns the first `length` hashes of a payload that climbs to the root |
| `MerkleTrees.ResponseReaches` | library/src/core/merkle.rs:293-351 | for every number of proof layers the payload climbs to the tree's own node at the layer its uncles reach |
| `MerkleTrees.ResponseComplete` | library/src/core/merkle.rs:293-351 | with proof layers at least height - base - 1 the payload is accepted and yields exactly the slice |
| `MerkleTrees.ResponseSound` | library/src/core/merkle.rs:358-435 | an accepted payload with u uncles carries the tree's own hashes of layer height - u - log2(length) at block index / length modulo 2^u, or gives a collision |
| `MerkleTrees.ResponseSoundAt` | library/src/core/merkle.rs:358-435 | an admissible request answered with all uncles up to the root returns exactly the requested hashes of the requested layer, or gives a collision |
| `MerkleTrees.PieceLayer` | library/src/core/merkle.rs:238-257 | the piece layer, an error exactly if the piece length is no power of two of at least 16 KiB |
| `MerkleTrees.PieceLayerEntry` | library/src/core/merkle.rs:238-257 | each entry is the root of the leaves of its own piece |
| `MerkleTrees.ComputeRootFromPieceHashes` | library/src/core/merkle.rs:260-286 | the root of the piece hashes padded with zero hashes |
| `MerkleTrees.PieceLayerRoot` | library/src/core/merkle.rs:260-286 | rebuilding gives the file root if the piece count is a power of two or pieces are 16 KiB; otherwise an equal root exposes a collision or a preimage of the zero hash |
| `BlockChecks.VerifyBlock` | library/src/core/torrent_context.rs:1814-1901 | the verdict on an arriving block from the first file holding its offset: by tree, audit path, single-block root or cached leaf, accepted if nothing is known |
| `BlockChecks.KnownIsGenuine` | library/src/core/torrent_context.rs:1834-1896 | from true trees, proofs and cached leaves whatever is known of a block is true of it |
| `BlockChecks.CheckSound` | library/src/core/torrent_context.rs:1834-1896 | a block that passes a genuine check is the file's own, or gives a collision |
| `BlockChecks.CheckComplete` | library/src/core/torrent_context.rs:1834-1896 | the file's own block passes every genuine check |
| `BlockChecks.AcceptedBlockIsOwn` | library/src/core/torrent_context.rs:1814-1901 | an accepted block about which anything is known is the bytes of the file at that offset, or gives a collision |
| `BlockChecks.CachedLeafSound` | library/src/core/torrent_context.rs:1877-1896 | leaf hashes of an accepted hashes payload are the tree's own, or give a collision |
| `Rc4Cipher.Rc4.constructor` | library/src/network/mse.rs:47-58 | the array after key scheduling is the specified state |
| `Rc4Cipher.Rc4.Encrypt` | library/src/network/mse.rs:64-73 | in place, the data becomes data xor keystream and the state advances by its length |
| `Rc4Cipher.AlwaysPermutation` | library/src/network/mse.rs:47-73 | for every non-empty key and any number of bytes the state is a permutation of 0..255 |
| `Rc4Cipher.ChunkingIrrelevant` | library/src/network/mse.rs:64-73 | encrypting any chunks in turn equals encrypting their concatenation |
| `Rc4Cipher.DecryptRecovers` | library/src/network/mse.rs:47-73 | a second cipher with the same key recovers the plaintext under any other chunking |
| `Dht.XorDistance` | library/src/network/dht.rs:55-61 | the bytewise exclusive or |
| `Dht.CountLeadingZeros` | library/src/network/dht.rs:64-76 | the number of leading zero bits |
| `Dht.SharedPrefixExact` | library/src/network/dht.rs:95-109 | the bucket index of an id is the exact number of leading bits it shares with the local id |
| `Dht.DeeperIsCloser` | library/src/network/dht.rs:95-109 | an id sharing more leading bits is strictly closer |
| `Dht.DistanceInjective` | library/src/network/dht.rs:112-128 | different ids have different distances |
| `Routing.RoutingTable.AddNode` | library/src/network/dht.rs:95-109 | a known id moves to the end, a new one is appended, a full bucket refuses the newcomer; the table stays good |
| `Routing.RoutingTable.ClosestNodes` | library/src/network/dht.rs:112-128 | exactly the k nearest nodes of the table, nearest first |
| `Routing.TruncatedSortIsNearest` | library/src/network/dht.rs:112-128 | sorting by distance and truncating selects the true k nearest |
| `Routing.TableAfterAnyAdditions` | library/src/network/dht.rs:95-109 | after any sequence of additions buckets hold at most 8 nodes with exactly their prefix, ids are globally distinct, and every node was added |
| `Routing.TableIdsDistinct` | library/src/network/dht.rs:95-109 | ids are distinct across all buckets |
| `Routing.DeeperBucketsCloser` | library/src/network/dht.rs:95-109 | every node of a deeper bucket is strictly closer than every node of a shallower one |
| `Routing.LookupPeers` | library/src/network/dht.rs:560-700 | against arbitrary replies and arrivals it waits only while the table is empty, then makes at most 20 queries, no id twice, only ids of the 8 nearest of the table so reached or from replies, and every such id if fewer than 20 were made; the peers handed on are exactly those of the replies |
| `Bencode.ReadStringExactly` | library/src/utils/bencode.rs:213-246 | a string is read exactly when the input starts with its canonical printed form |
| `Bencode.ReadNumberExactly` | library/src/utils/bencode.rs:177-210 | an integer is read exactly when the input starts with a valid numeral and its end mark |
| `Bencode.DecodeExactly` | library/src/utils/bencode.rs:133-210 | decoding yields a node exactly when the input is that node printed, followed by the rest, within the depth and size limits |
| `Bencode.DecodeStable` | library/src/utils/bencode.rs:68-76 | more input, or less nesting around it, never changes what was decoded |
| `Bencode.TruncationFails` | library/src/utils/bencode.rs:53-64 | no proper prefix of a complete value decodes |
| `Bencode.EncodeRoundTrip` | library/src/utils/bencode.rs:255-287 | decoding an encoded node gives it back with its dictionaries sorted; sorted nodes come back unchanged |
| `Manifests.FromEntries` | library/src/network/metadata_fetcher.rs:96-195 | the manifest of a dictionary: names as lossily decoded text, lengths, layout and piece ranges, none exactly without a positive piece length |
| `Manifests.NamesAreText` | library/src/network/metadata_fetcher.rs:96-195 | whatever bytes the dictionary holds, the names of a manifest are UTF-8 |
| `Utf8.LossyExactly` | library/src/network/metadata_fetcher.rs:97-135 | lossy decoding always gives UTF-8 and changes exactly what is not |
| `Manifests.ScanPartialDictionary` | library/src/network/metadata_fetcher.rs:198-234 | the loop finds exactly the readable leading entries |
| `Manifests.TryParsePartial` | library/src/network/metadata_fetcher.rs:79-93 | full decoding first, scanning as fallback |
| `Manifests.FilesTile` | library/src/network/metadata_fetcher.rs:118-163 | manifest files lie end to end and their piece ranges are those of that layout |
| `Manifests.SortedHasNoLateKeys` | library/src/network/metadata_fetcher.rs:79-93 | in a dictionary with sorted keys no descriptive key first appears after the piece length |
| `Manifests.WholeManifest` | library/src/network/metadata_fetcher.rs:79-93 | the whole dictionary gives exactly its manifest |
| `Manifests.PrefixManifest` | library/src/network/metadata_fetcher.rs:79-93 | every prefix of such a dictionary gives no manifest or exactly the manifest of the whole |
| `Manifests.PrefixAtEntry` | library/src/network/metadata_fetcher.rs:198-234 | for every j some proper prefix of the bytes is parsed by the first j entries alone |
| `Manifests.PrefixesAgreeExactly` | library/src/network/metadata_fetcher.rs:79-93 | all prefixes agree with the whole if and only if no list of leading entries describes anything else |
| `Manifests.LateNameIsMissed` | library/src/network/metadata_fetcher.rs:79-93 | why the order matters: of a dictionary with its name after the piece length some proper prefix of the bytes parses to another manifest |
| `MetadataPieces.CountIsComplete` | library/src/network/metadata_fetcher.rs:397-402 | counting in-range pieces tells exactly whether all have arrived |
| `MetadataPieces.JoinedIsPrefix` | library/src/network/peer.rs:919-942 | genuine slices without a gap are a prefix of the metadata |
| `MetadataPieces.AssembledExactly` | library/src/network/metadata_fetcher.rs:559-573 | genuine slices assemble to the metadata exactly when all have arrived, to nothing before |
| `MetadataPieces.EarlyManifestIsFinal` | library/src/network/metadata_fetcher.rs:529-542 | a manifest parsed from leading genuine slices is the final one |
| `MetadataFetching.ReleaseKeepsLaw` | library/src/network/metadata_fetcher.rs:519-524 | ending a request keeps counter = in flight + own repeats for every peer, so the saturating subtraction never saturates |
| `MetadataFetching.RequestKeepsLaw` | library/src/network/metadata_fetcher.rs:466-479 | recording a request keeps the law, whoever had the piece before |
| `MetadataFetching.ChooseRequests` | library/src/network/metadata_fetcher.rs:431-464 | the first pieces requestable when looked at, the clock read for each, in increasing order and as many as allowed: distinct, in range, unreceived, and none left over if fewer |
| `MetadataFetching.RecordRequests` | library/src/network/metadata_fetcher.rs:466-479 | exactly the chosen pieces move to the peer; its counter grows by their number, its repeats by those it already had |
| `MetadataFetching.MetadataRangeFetcher.DepthBound` | library/src/network/metadata_fetcher.rs:413-482 | no peer has more pieces in flight than its counter, nor a counter above the pipeline depth |
| `MetadataFetching.MetadataRangeFetcher.SetMetadataSize` | library/src/network/metadata_fetcher.rs:372-379 | sizes above 50 MiB are ignored |
| `MetadataFetching.MetadataRangeFetcher.NextRequestsForPeer` | library/src/network/metadata_fetcher.rs:413-482 | requests, flights and repeats after a call; the invariant is kept |
| `MetadataFetching.MetadataRangeFetcher.HandleReject` | library/src/network/metadata_fetcher.rs:548-556 | the request ends and the failure is counted |
| `MetadataFetching.MetadataRangeFetcher.HandleDataPiece` | library/src/network/metadata_fetcher.rs:489-545 | the two errors exactly under their conditions; otherwise the piece is stored, its request ends, and the first early manifest is kept |
| `MetadataFetching.MetadataRangeFetcher.Assemble` | library/src/network/metadata_fetcher.rs:559-573 | all pieces in order cut to the size, none unless exactly the expected pieces are there |
| `MetadataFetching.MetadataRangeFetcher.VerifyAndAssemble` | library/src/network/metadata_fetcher.rs:577-614 | the metadata comes out exactly if complete and with the expected 20- or 32-byte hash |
| `MetadataFetching.MetadataRangeFetcher.Run` | library/src/network/metadata_fetcher.rs:413-556 | any interleaving keeps the invariant; with genuine messages exactly the arrived slices are stored, an early manifest is final, and the size is known exactly if some message told it |
| `MetadataFetching.FetchMetadata` | library/src/network/metadata_fetcher.rs:413-573 | a fresh fetcher and truthful messages, repeated and in any order: the metadata comes out exactly if its size was told and every slice arrived |
| `MetadataCollectors.MetadataManager.AddMetadataPiece` | library/src/core/metadata_manager.rs:145-148 | the piece is stored, its request ends, genuine pieces stay genuine |
| `MetadataCollectors.MetadataManager.AssembleMetadata` | library/src/core/metadata_manager.rs:151-178 | the joined bytes exactly if every expected piece is there and the hash matches |
| `MetadataCollectors.MetadataBootstrap.AddPiece` | library/src/core/metadata_bootstrap.rs:26-30 | the piece is stored; reports completeness |
| `MetadataCollectors.MetadataBootstrap.AssembleInfoDict` | library/src/core/metadata_bootstrap.rs:42-54 | all pieces in key order cut to the size, exactly when the count is right |
| `MetadataCollectors.Reassemble` | library/src/core/metadata_bootstrap.rs:26-54 | with genuine slices of non-empty metadata both collectors return it exactly when every slice has arrived |
| `MetadataCollectors.CollectedHonestExactly` | library/src/core/metadata_manager.rs:145-148 | after any deliveries only genuine slices are stored if and only if the last delivery of every piece is genuine |
| `MetadataCollectors.CollectAndAssemble` | library/src/core/metadata_manager.rs:145-178 | fresh collectors fed any repeated or reordered deliveries whose last one per piece is genuine return the metadata exactly when every piece was delivered |
| `FileTrees.LookupInsert` | library/src/core/torrent_builder.rs:479-501 | inserting adds that file, removes what lay below its path and keeps every other file |
| `FileTrees.InsertFailsExactly` | library/src/core/torrent_builder.rs:479-501 | the unreachable branch is reached exactly if a proper prefix of the path is already a file |
| `FileTrees.ListingInOrder` | library/src/core/torrent_builder.rs:503-535 | a sorted tree lists its files in component order |
| `FileTrees.ListingExactly` | library/src/core/torrent_builder.rs:503-535 | the listing holds exactly the files that can be looked up |
| `FileTrees.BuildLists` | library/src/core/torrent_builder.rs:170-198 | prefix-free files are all stored and listed exactly, in component order |
| `FileTrees.BuildFileTree` | library/src/core/torrent_builder.rs:170-198 | the loop splits each path at slashes, skips paths without components and inserts the others into an empty root |
| `FileTrees.NormalPathExactly` | library/src/core/torrent_builder.rs:189-194 | a path comes back from its components exactly if it has no leading, trailing or doubled slash |
| `FileTrees.PrintedAsIs` | library/src/core/torrent_builder.rs:503-535 | the printed tree is already sorted, so the encoder's sorting changes nothing |
| `FileTreeParsing.NextOfPrinted` | library/src/utils/bencode_tokenizer.rs:40-151 | the first token of a printed value and what it leaves |
| `FileTreeParsing.SkipValue` | library/src/core/metainfo.rs:1328-1349 | counting depth skips exactly any nested value |
| `FileTreeParsing.UnknownPropertyIgnored` | library/src/core/metainfo.rs:1293-1352 | an unknown property with any nested value changes nothing |
| `FileTreeParsing.PropertiesFold` | library/src/core/metainfo.rs:1293-1352 | any properties in any order, repeated or unknown: the parser arrives at the last usable length and root |
| `FileTreeParsing.UnknownInFileIgnored` | library/src/core/metainfo.rs:1259-1369 | an unknown property anywhere in a file's dictionary leaves the parsed files and the rest unchanged |
| `FileTreeParsing.NodeParses` | library/src/core/metainfo.rs:1259-1369 | parsing a printed node reports its listing and stops exactly at its end |
| `FileTreeParsing.FileTreeRoundTrip` | library/src/core/metainfo.rs:1259-1369 | building, encoding and parsing prefix-free files reports exactly those files in component order |
| `FileTreeParsing.SourceRoundTrip` | library/src/core/torrent_builder.rs:170-198 | from path strings through the encoding to path strings: every file given to the builder except those without a path component is reported with its length and root, and splitting a reported path gives its components back |
| `Utf8.SplitAtAscii` | library/src/core/metainfo.rs:1355-1366 | text splits at an ASCII byte exactly into text, so path components of text are text |
| `FileTreeParsing.Tokenizer.NextToken` | library/src/utils/bencode_tokenizer.rs:40-151 | the tokenizer loop yields the token at the head of the input and moves past it |
| `FileTreeParsing.SkipOpen` | library/src/core/metainfo.rs:1328-1349 | the skip loop computes the specified skip |
| `FileTreeParsing.ReadProperties` | library/src/core/metainfo.rs:1293-1352 | the property loop computes the specified length and root |
| `FileTreeParsing.ParseFileTree` | library/src/core/metainfo.rs:1259-1369 | the recursive parser appends exactly the specified files and stops where specified, or fails, as on a segment that is not UTF-8 |
| `PercentCoding.PercentRoundTrip` | library/src/core/magnet.rs:490-525 | decoding encoded text gives it byte by byte, which is the text itself if and only if it is ASCII |
| `PercentCoding.PercentEncode` | library/src/core/magnet.rs:511-525 | the loop computes the percent-encoding of the UTF-8 bytes |
| `PercentCoding.PercentDecode` | library/src/core/magnet.rs:490-508 | the loop decodes escapes and plus signs, keeping the percent sign of a broken escape |
| `PercentCoding.HexRoundTrip` | library/src/core/magnet.rs:533-546 | a hash printed in hexadecimal parses back |
| `PercentCoding.ParseHexHash` | library/src/core/magnet.rs:533-546 | the loop accepts exactly the right number of hexadecimal digits |
| `PercentCoding.Base32Exactly` | library/src/core/magnet.rs:548-575 | accepted exactly if it has 32 base-32 digits, and its 20 bytes denote the same number |
| `PercentCoding.ParseBase32Hash` | library/src/core/magnet.rs:548-575 | the loop that shifts digits into the byte being filled computes that decoding |
| `PercentCoding.ShiftedDigit` | library/src/core/magnet.rs:564-572 | shifting a digit into the byte being filled never overlaps bits already there and equals appending its five bits |
| `SelectOnly.SelectedExactly` | library/src/core/magnet.rs:580-605 | a parsed selection is increasing and holds exactly the old indices and those its parts name |
| `SelectOnly.ParseSelectOnly` | library/src/core/magnet.rs:580-605 | the loop computes the parsed selection |
| `SelectOnly.FormatSelectOnly` | library/src/core/magnet.rs:609-634 | the nested loops print the runs of the sorted selection |
| `SelectOnly.SelectRoundTrip` | library/src/core/magnet.rs:580-634 | parsing a printed selection gives it sorted without repetition, itself if and only if it was increasing |
| `Magnets.NormalExactly` | library/src/core/magnet.rs:270-318 | a link equals its normal form if and only if its texts are non-empty ASCII, its lists have no repetition and its selection is increasing |
| `Magnets.MagnetRoundTrip` | library/src/core/magnet.rs:36-140 | parsing a printed link gives its normal form, hence the link itself exactly under those conditions, for version 1, hybrid and version 2 links |
| `Magnets.ParseMagnet` | library/src/core/magnet.rs:36-140 | the parameter loop computes the parsed link or fails |
| `Magnets.PrintMagnet` | library/src/core/magnet.rs:270-318 | the printer emits the specified parameters in order |

## Left out

- Trackers, local discovery, NAT traversal, hole punching, peer exchange, WebTorrent bridging, HTTP streaming, clients and persistence: I/O and fixed-format messages with only easy members.
- Diffie-Hellman in `mse.rs`: a thin wrapper over a big-integer library.
- Rates, latencies, status changes, events and logging.
- Locks, threads and channels: a call that holds a lock is one step; whether `remove_peer` finds its locks free is part of the event.
- Wrap-around of `usize` and `u64` totals, counters and offsets; `u32` piece indices are truncated where the source casts them.
- `process_verified_block`, endgame requests, block reservation per peer and fast-extension requests: only add easy members.
- The BEP 52 block check is `BlockChecks.VerifyBlock`; a block arrival takes its verdict as a parameter.
- Late blocks for a piece under background verification: the source accepts them, so the storage theorem is for synchronous verification.
- The rest of `MetaInfoFile::parse`, path policy and the piece layers of the torrent builder.
- Error kinds of the bencode decoder and tokenizer: a failure is a failure.
- FileTrees.BuildLists: trees are values, so the in-place update of nested maps is a function returning the new tree.
- TorrentContexts.TorrentContext.ProcessPieceBlock: requires blocks shorter than 2^32 bytes, which the wire format guarantees; the BEP 52 check and a failed write are chosen by the surroundings.
- TorrentContexts.TorrentContext.Step: an event of a peer that is not connected, and a result nobody is waiting for, do nothing.
- SuperSeeding.ChoosePiece: sorting the candidates and taking the first is a search for the least key.
- Manifests.ScanPartialDictionary: the sum of a key's position and announced length is not bounded by `usize`.
- FileTreeParsing.SourceRoundTrip: paths and roots at most 16 MiB and lengths below 2^63, the tokenizer's limits; paths are UTF-8, as Rust strings are.
- Magnets.MagnetRoundTrip: hashes have the 20 and 32 bytes their fields promise and indices fit 64 bits.
- MetadataFetching.ChooseRequests: clock readings of one call never decrease, as `Instant` guarantees.
- SelectionReports.EvaluateSelection: percentages are real numbers, without floating-point rounding.
- TorrentContexts.TorrentContext.RecheckPieces: the pool's verdict is a parameter that marks only pieces whose stored bytes hash right.
- TorrentContexts.TorrentContext.StoreBlock: the verdict of the BEP 52 block check is a parameter, computed by `BlockChecks.VerifyBlock`.
- Sessions.DownloadSession: piece lengths fit 32 bits, as in the source; with adaptive endgame or background verification nothing is claimed.
- BlockChecks.VerifyBlock: the cache is searched in the order given, where the source iterates over a hash map.
- Trimming of oversized metadata pieces where `peer.rs` receives them: genuine slices are never longer than expected.
- Routing.LookupPeers: sockets and timeouts are replies that may be missing; addresses are bytes, not text.
