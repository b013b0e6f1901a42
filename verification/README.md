# Verified model of the Sequoia storage provider

Sequoia stores files for contracts, commits each file to a Merkle root, keeps it as a DAG of
blocks, proves single chunks of it on demand, and batches those proofs to a chain through a queue.
This project models that core in Dafny and proves what it keeps. `dafny verify dfyconfig.toml`
checks everything.

How the model is built:

- `Text`, `TextLaws`, `Keys`, `Sequence`: printing and parsing of hex, decimals, database keys and
  the chain's sequence-mismatch message, down to the single characters.
- `Merkle`, `MerkleRows`, `FileTree`, `FileFormat`, `LeafDistinctness`: the zero-padded heap tree, BuildTree's chunks and
  leaves, and proofs. The hashes are function-valued parameters of which only the digest lengths
  are known. "Up to a collision" never means that some collision exists somewhere: `Broken` says
  that two preimages *of the finite set that was actually hashed* collide, or that one of them
  hashes to the padding node.
- `BytesReader`, `Dag`, `FileSystems`: the reader, the worklist collection and the file system
  object as loops and classes, proved against the value functions of `FileStore`; `FileOutcomes` has
  every way in which these end.
- `DeleteTheorems`, `RunTheorems`, `ProvableRuns`, `FailingRuns`: deletes, all runs of writes and
  deletes, which files stay provable over them, and runs after which one does not.
- `Broadcast`, `QueueProtocol`, `QueueTheorems`, `TransactionQueue`: the retry loop, the queue as a
  machine of atomic steps (adds may land between any two steps of a broadcast), what every run
  keeps, and the queue object, whose methods follow the machine step by step.
- `Strays`, `StrayManagers`: the manager and its hands interleaved with the queue, and the
  manager's dispatch loop.
- `Paths`, `FormatSizes`: folder path resolution and the folder view's size formatting.

What the proofs found about the code:

- `removeContract` looks for other contracts with the raw merkle as key prefix, while keys hold it
  in hex after `tree/`. Deleting one of several contracts of a merkle therefore removes the shared
  CID entry and blocks. `DeleteTheorems.StaysLinkedIff` and `RawScanKeepsLinksIff` say exactly when
  the remaining contracts stay readable, `FailingRuns.RawScanOrphans` shows for every run that the
  other contract stays listed and cannot be proved any more, `RawScanExample` is such a run of two
  writes, and `HexScanKeepsLinks` shows that the hex prefix which the comment describes is right.
- Removing the DAG of one merkle takes the blocks that other files share with it, also with the hex
  prefix: exactly the chunks that such a block is on the way to are lost
  (`DeleteTheorems.OthersProvableIff`, `AllChunksProvableIff`, `FailingRuns.SharedBlockOrphans`;
  `SharedBlockExample` is a run that loses one chunk of two). `ProvableRuns.LiveChunkProvableIff` is
  the exact condition over all runs, and with the hex prefix missing blocks and folders are all that
  is left of it (`HexScanProvableIff`).
- Storing a folder with the bytes of a stored file takes over the CID entry that the two share, and
  the file cannot be proved until it is written again (`ProvableRuns.RunIsProvable` has the exact
  condition, `FailingRuns.FolderExample` a run).
- `ListUnusedCids` skips roots that do not collect, so the root of a live folder that links to a block
  stored elsewhere is reported as unused. `DeleteTheorems.ReportSparesIff` says exactly which proofs
  survive deleting the report, `FailingRuns.ReportOrphansFolder` shows a folder whose proof does not.
- A full mempool drops the batch in flight and everything pending without calling Done.
  `QueueTheorems.DoneUnlessCaught` says that an accepted message waits forever exactly if such a
  reset catches it, `FullMempoolStrands` is a run in which one does, and `Strays.ResetBlocksHand`
  shows that a hand which waits for such a message never takes another stray.
- Two leaves of one file can have equal hashed texts, because the index is printed directly in
  front of the hex. `LeafDistinctness.LeafTextsDistinctIff` gives the exact guard on length and
  chunk size; for example 201 bytes in chunks of 2 are outside it. Proofs stay valid there, but for
  some file of every such length one carries an earlier index (`ProofMissesIndex`).
- `SplitMerkle` inverts the key printer exactly for owners without a slash
  (`Keys.SplitMerkleInvertsKeyBody`), although distinct contracts always get distinct keys, so the
  listing is right exactly if no live owner has a slash (`RunTheorems.ListedExactlyLive`).

Taken as given: the reader fills its buffer until the end, database updates are atomic and do not
fail, JSON export and import of a tree is lossless, queue steps are atomic although the Go code has
no lock, and about the IPFS peer (`FileStore.Faithful`): it stores a file as a complete DAG each
block of which is on the way to some byte, reads a chunk from exactly the blocks on the way to its
bytes, agrees with stored blocks of the same CID, and never reuses a root CID for other bytes, nor
for a file and a folder. The last is an assumption about the uploads too: the JSON of a stored file's
own root node is accepted as a folder and has that CID.

## Model

| member | source | states |
|---|---|---|
| Keys.TreeKeyInjective | file_system/keys.go:26-28 | contracts with equal keys are equal, for all merkles, 64-bit starts and owners, slashes included |
| TextLaws.HexAt | file_system/file_system.go:65 | every byte prints as its two digits out of 0123456789abcdef, the high one first |
| TextLaws.DecAt | file_system/file_system.go:65 | the k-th decimal digit from the end is n / 10^k mod 10, and no zero stands in front |
| TextLaws.DecodeHexIff | file_system/keys.go:12 | hex decodes to b exactly if it is the pairs of hex digits, of either case, of the bytes of b |
| TextLaws.ParseInt64Iff | file_system/keys.go:17 | v is parsed exactly from its decimal print after any zeros and an optional plus, or a minus if it is negative or 0, within 64 bits |
| Keys.KeysAreWritten | file_system/keys.go:26-28 | the fields of the two kinds of keys, in their order, with their prefixes |
| Keys.KeyExample | file_system/keys.go:26-28 | the keys of the bytes a0 07, owner jkl1 and height -12, as text |
| Keys.SplitMerkleOutcome | file_system/keys.go:10-24 | a key body of at least three fields gives the error of the first field before that of the third, or the contract, whatever follows |
| Keys.SplitMerkleInvertsKeyBody | file_system/keys.go:10-28 | parsing a printed key body gives the contract back if and only if the owner has no slash |
| Keys.MerklePrefixSelects | file_system/file_system.go:296-304 | the hex tree prefix of a merkle is a prefix of a contract's key exactly for the contracts of that merkle |
| FileSystems.BuildTree | file_system/file_system.go:38-102 | the read loop returns the root, exported tree and size of the unread bytes, or fails when there are none |
| FileFormat.LeafTextAt | file_system/file_system.go:65 | the hashed text of a leaf, digit by digit: the index in decimal, then each byte of the chunk as two lower-case hex digits |
| FileFormat.BuildOutcome | file_system/file_system.go:38-102 | building fails exactly on no bytes or chunks of no bytes; the size is the number of bytes |
| FileFormat.BuiltLeaf | file_system/file_system.go:45-75 | there are ceil(len/c) leaves and leaf i is the content hash of the leaf text of bytes i*c to min(i*c + c, len) |
| FileFormat.BuiltRootByRows | file_system/file_system.go:85-94 | the root is what is left after pairing the leaf digests, padded with zero bytes to a power of two, left before right, row by row |
| MerkleRows.TreeByRows | file_system/file_system.go:85-99 | the exported tree is those rows one after the other from the root down |
| FileFormat.HashByType | types/proof_types.go:3-7 | type 3 and no other uses Blake3, type 1 and no other is a folder |
| FileTree.ChunkAt | file_system/file_system.go:45-59 | there are ceil(len/c) chunks and chunk i is bytes i*c to min((i+1)*c, len) |
| Merkle.LeafIsProvable | proofs/proofs.go:53-66 | looking any leaf of a built tree up by value gives a proof, as long as the tree is high, that verifies against the root, even if an equal leaf comes first |
| Merkle.RootDeterminesLeaves | file_system/file_system.go:85-94 | equal roots of non-empty leaf lists of any lengths mean equal lists, or a collision or padding preimage among the hashed node preimages |
| FileTree.RootDeterminesFile | file_system/file_system.go:38-112 | equal roots of non-empty files of any lengths mean equal files, or a collision or padding preimage among what was hashed for the two |
| FileTree.VerifiedProofCarriesChunk | proofs/proofs.go:40-68 | a proof of any length that verifies for an item at an index of the file is as long as the tree is high and shows that the item is that chunk, or a collision was hashed, or, only for an over-long proof with an empty sibling and 32-byte digests, a hashed node's digest is a leaf |
| FileTree.VerifiedProofCarriesText | proofs/proofs.go:40-68 | the same for every index: the text hashed for the item is the leaf text that the proof addresses, of whose index only as many bits count as the proof has hashes |
| FileTree.ChunkIsProvable | proofs/proofs.go:40-68 | for every chunk of a built file GenerateMerkleProof returns a valid proof against the file's root |
| FileFormat.ProofOutcome | proofs/proofs.go:40-68 | a proof is generated exactly if the item's hashed text is a leaf, for the first equal one, and is valid exactly if climbing from it ends at the root, for any tree |
| FileFormat.ProofHashes | proofs/proofs.go:53 | its hashes are the neighbours of the leaf and of its ancestors, from the leaf up |
| FileFormat.BuiltProofsAreValid | proofs/proofs.go:63-67 | for a tree that BuildTree made a generated proof is always valid |
| LeafDistinctness.LeafTextsDistinctIff | file_system/file_system.go:65 | all files of length n have pairwise distinct leaf texts if and only if the last chunk is full or its index n/c is below 10^(2(c - n mod c)) |
| LeafDistinctness.GuardExamples | file_system/file_system.go:65 | full chunks or at most 100 chunks are inside that guard, 201 bytes in chunks of 2 are not |
| LeafDistinctness.ProofCarriesIndex | proofs/proofs.go:48-53 | inside the guard the generated proof carries the requested index, or hashing the file collided |
| LeafDistinctness.ProofMissesIndex | proofs/proofs.go:48-53 | outside the guard, for every hash, some file of that length has a chunk whose proof is generated, verifies and carries an earlier index |
| BytesReader.BytesSeeker.Read | types/bytes_seeker.go:31-38 | fills the buffer as far as the unread bytes go and moves past exactly those |
| BytesReader.BytesSeeker.Seek | types/bytes_seeker.go:41-63 | moves to the target clamped to the end, refuses bad whence and negative positions without moving |
| BytesReader.SeekLands | types/bytes_seeker.go:41-63 | where an offset from the start, the position or the end lands, below the start and beyond the end included |
| BytesReader.BytesSeeker.Write | types/bytes_seeker.go:14-17 | appends, leaving the position, so the unread bytes grow by what was written |
| FileSystems.FileSystem.WriteFile | file_system/file_system.go:104-170 | for every proof type result and new database, blocks, contents and folder nodes equal the value function; the tree covers the unread bytes, the stored file or folder node all bytes |
| FileOutcomes.WriteEnds | file_system/file_system.go:104-170 | which of the three errors a write from any reader position ends with, or its size and CID, and that nothing changes on an error |
| FileOutcomes.WriteLeaves | file_system/file_system.go:116-162 | the entries, blocks and bytes that a successful write leaves |
| RunTheorems.WriteOutcome | file_system/file_system.go:104-170 | for every proof type a write of a fresh reader succeeds exactly if the bytes are non-empty, their root is the promised merkle and the peer stored them; otherwise nothing changes; then exactly the two entries change |
| FileSystems.FileSystem.GetFileTreeByChunk | file_system/file_system.go:501-573 | returns the stored tree and the slice read back from the merkle's CID if the blocks on the way to that slice are stored, or for folders the whole root node, with the error of the first look-up that fails |
| FileOutcomes.ReadFails | file_system/file_system.go:504-548 | which failing look-up each of the first four errors stands for |
| FileOutcomes.ReadGives | file_system/file_system.go:545-572 | with both entries in place: the bytes of the chunk, the folder node, or the error, by what is stored |
| FileSystems.FileSystem.GenProof | proofs/proofs.go:73-101 | returns proof and chunk if the proof verifies, else the error met |
| FileOutcomes.ProofEnds | proofs/proofs.go:73-101 | the ends of GenProof by the read and by whether the item's hash is a leaf; the proof of a built tree is never found invalid |
| ProvableRuns.WrittenIsProvable | proofs/proofs.go:73-101 | straight after a successful write of a file into any store every chunk index below ceil(len/c) yields the right bytes and a path that verifies against the merkle |
| ProvableRuns.RunIsProvable | file_system/file_system.go:104-170 | after every run of writes a chunk of a successfully written file is provable if and only if the last successful write of its merkle was of a file and not of a folder, or the run hashed a collision |
| ProvableRuns.LiveChunkProvableIff | file_system/file_system.go:104-404 | after every run of writes and deletes with any scan a chunk of a live file is provable if and only if its merkle has its CID entry, the merkle's last write was of a file and the blocks on the way to the chunk are stored, or the run hashed a collision |
| ProvableRuns.LiveFileProvableIff | file_system/file_system.go:104-404 | if the deletes since the last write of its merkle spare that one chunk, whatever they do to other files, it is provable exactly if that write was of a file |
| ProvableRuns.HexScanProvableIff | file_system/file_system.go:275-404 | with the hex scan a chunk of a live file is provable after every run exactly if the merkle's last write was of a file and the blocks on the way to the chunk are stored, or the run hashed a collision |
| ProvableRuns.HexScanRunIsProvable | file_system/file_system.go:275-404 | with the hex scan each live contract of a merkle never written as a folder is provable at every chunk on the way to which no delete of another merkle since the last write took a block, or the run hashed a collision |
| RunTheorems.StoredTreesMatchKeys | file_system/file_system.go:147-153 | after every run of writes and deletes each stored tree's root is the merkle in its key |
| RunTheorems.TreeKeysAreLive | file_system/file_system.go:147-162 | after every run the tree keys are those of the contracts written and not deleted since, every other key is a CID key |
| RunTheorems.ListedExactlyLive | file_system/file_system.go:406-468 | after every run the listing ends without an error with each live contract exactly once and nothing else if and only if no live owner has a slash |
| FileSystems.FileSystem.ListFiles | file_system/file_system.go:406-439 | the three lists hold the parse of each scanned tree key in order, up to the first key that does not parse |
| FileSystems.FileSystem.ProcessFiles | file_system/file_system.go:441-468 | the callback gets the parse of each scanned tree key in order, up to the first key that does not parse |
| Dag.CollectDagNodes | file_system/file_system.go:354-386 | ends on every finite store, shared, cyclic or dangling; succeeds exactly if every reachable CID is stored, and then returns exactly the reachable CIDs |
| FileSystems.FileSystem.RemoveDagNode | file_system/file_system.go:388-404 | removes exactly the reachable blocks if all are stored, else nothing |
| Dag.RemoveSparesDisjoint | file_system/file_system.go:388-404 | another collectable root collects after a removal, and the same set, if and only if it shares no block with the removed one |
| FileSystems.FileSystem.RemoveContract | file_system/file_system.go:283-315 | new state and result equal the value function, for any scan prefix |
| FileSystems.FileSystem.DeleteBlocks | file_system/file_system.go:317-352 | the CID entry goes first; then the blocks of the old CID go, or the result says that the CID did not decode or its DAG did not collect |
| FileOutcomes.DeleteEnds | file_system/file_system.go:275-404 | the four ends of a delete, exactly, by the keys, the CID entry and the blocks before it |
| DeleteTheorems.RemovedExactly | file_system/file_system.go:275-404 | when a removal got through, the two entries and exactly the blocks reachable from the old CID are gone; any other root still collects, and the same set, exactly if disjoint |
| DeleteTheorems.StaysLinkedIff | file_system/file_system.go:283-315 | for any scan prefix the remaining contracts keep their CID entries if and only if the scan hits a key or no other contract has the merkle |
| DeleteTheorems.HexScanKeepsLinks | file_system/file_system.go:296-304 | with the hex tree prefix every remaining contract keeps its CID entry |
| DeleteTheorems.RawScanKeepsLinksIff | file_system/file_system.go:296-304 | with the raw merkle the remaining contracts keep their CID entries exactly if the deleted one was the only one of its merkle, unless the merkle's bytes start like a key |
| FailingRuns.RawScanOrphans | file_system/file_system.go:296-304 | with the raw scan, after every run, deleting one of two live contracts of a merkle that does not start like a key leaves the other live and in the listing, without a CID entry, and every GenProof for it fails with no CID |
| FailingRuns.RawScanExample | file_system/file_system.go:296-304 | a concrete run of two writes and a delete: bob's chunk is provable before alice's contract is deleted and not after |
| FailingRuns.SharedBlockOrphans | file_system/file_system.go:317-404 | also with the hex scan, after every run, deleting the only live contract of a merkle loses exactly those provable chunks of another contract that a block of the removed DAG is on the way to, and leaves the other proofs as they were |
| FailingRuns.SharedBlockExample | file_system/file_system.go:317-404 | a concrete run of a one-byte file and a three-byte file whose second block is that byte: deleting the first keeps the other's first chunk and loses its second |
| FailingRuns.FolderHidesFile | file_system/file_system.go:122-160 | after every run, a successful write of a folder makes every chunk of every live contract of its merkle unreadable as a file |
| FailingRuns.FolderExample | file_system/file_system.go:122-160 | a concrete run: the two bytes of an empty JSON object as a file and then as a folder |
| FailingRuns.ReportOrphansFolder | file_system/ipfs.go:124-188 | in every setting a live folder that links to a block not stored here is provable, and not after what the report lists has been deleted |
| DeleteTheorems.OthersProvableIff | file_system/file_system.go:275-404 | however a delete ends and for every proof type, another contract's proof of one chunk survives it unchanged exactly if the scan hits a remaining key, or the merkles differ and no block on the way to that chunk is in a DAG that goes; else it fails for want of the CID entry or of a block |
| DeleteTheorems.AllChunksProvableIff | file_system/file_system.go:275-404 | all chunks of another contract's file survive a delete exactly if the scan hits, or the merkles differ and its DAG shares no block with one that goes |
| RunTheorems.HexScanRunKeepsCids | file_system/file_system.go:296-304 | with the hex scan every live contract has its CID entry after every run of writes and deletes |
| FileSystems.FileSystem.ListCids | file_system/ipfs.go:76-97 | one entry for every key under the CID prefix, its CID or the mark that it does not decode, in scan order |
| FileSystems.FileSystem.ListUnusedCids | file_system/ipfs.go:128-188 | returns, once each, exactly the stored blocks that no root with a successful collection reaches |
| FileOutcomes.UnusedIs | file_system/ipfs.go:128-188 | a block is reported exactly if it is stored and no root recorded under cid/ whose whole DAG is stored reaches it |
| Dag.DeletingUnusedIsSafe | file_system/ipfs.go:124-188 | after deleting everything reported the same roots collect, and the same sets, and nothing is left to report |
| DeleteTheorems.ReportSparesIff | file_system/ipfs.go:124-188 | after deleting everything reported a proof is unchanged exactly if every block that its read needs, of a folder its root node, is reached by a root that collects, and else fails for want of a block |
| DeleteTheorems.ReportSparesFiles | file_system/ipfs.go:124-188 | so every proof of a file whose own root collects is unchanged |
| Sequence.ExtractIff | queue/queue.go:29-38 | v is found exactly when the leftmost match captures a maximal digit run of value v below 2^64, otherwise the answer is 0 and false |
| Sequence.ExtractInvertsPrint | queue/queue.go:26-38 | printing any 64-bit number after the keyword and a space, without an earlier match or a further digit, is inverted |
| Sequence.ExtractFromMismatch | queue/queue_test.go:10-45 | the chain's mismatch message gives its expected sequence back for every 64-bit number |
| Sequence.NeedsKeyword | queue/queue.go:29-38 | without the word expected nothing is found |
| Sequence.Separators | queue/queue.go:30 | exactly space, tab, line feed, carriage return and form feed separate the word from the number |
| Sequence.NumberRange | queue/queue.go:33 | a number is found exactly if it is below 2^64 |
| TransactionQueue.CalculateTransactionSize | queue/queue.go:40-68 | the accumulating loop returns the estimated size of the messages |
| QueueProtocol.TxSizeGrows | queue/queue.go:40-68 | that size is 0 for no messages, else 500 and for each message its five field lengths and 16, or 500 if it is no proof |
| TransactionQueue.Cutoff | queue/queue.go:188-213 | the batch is min(total, max(45, K)) long for the largest prefix K that fits |
| QueueProtocol.BatchSizeIs | queue/queue.go:188-213 | K is unique, so the batch length is determined by that formula |
| Broadcast.BroadcastWithRetries | queue/queue.go:229-284 | the loop makes the attempts with the sequences that the replies call for, ends with the first reply that ends it or fills the mempool or after ten, and err is nil exactly when completed |
| Broadcast.AttemptFollows | queue/queue.go:232-280 | what each kind of reply does to the sequence, the response and completion: cached, full, mismatch with a number, with a set sequence or with neither, any other failure, answer and nil |
| Broadcast.LoopEnds | queue/queue.go:232-284 | against every chain the loop ends on the first reply that is an answer but no mismatch to resend, resets on a full mempool, or gives up after ten |
| Broadcast.LoopEndsOnce | queue/queue.go:232-284 | the attempts and the end are determined by the chain's replies |
| Broadcast.FirstAnswerEnds | queue/queue.go:261-275 | an answer to the first attempt without a mismatch ends the loop there without an error, whatever its code |
| Broadcast.CompletesIffStandstill | queue/queue.go:229-284 | the loop completes against every chain that accepts or reports its true sequence if and only if that sequence stands still in one of the nine gaps |
| Broadcast.StandstillCompletes | queue/queue.go:229-284 | once the chain's sequence stands still in the gap after attempt k the loop has completed within k + 2 attempts, so in two if it never moves |
| TransactionQueue.Queue.Add | queue/queue.go:97-134 | refuses exactly a proof of the merkle, owner and start of a queued one, with index -1, else appends and counts one wait; follows the machine's Add |
| QueueTheorems.AddOutcome | queue/queue.go:97-134 | the same in every state that any interleaving reaches, and nothing else changes |
| TransactionQueue.Queue.Take | queue/queue.go:217-218 | splits the queue into the batch and the rest in order; follows the machine's Take |
| TransactionQueue.Queue.Finish | queue/queue.go:286-291 | every message of the batch gets the shared result, its position and its one Done; follows the machine's Finish |
| QueueTheorems.BroadcastGoesOn | queue/queue.go:172-294 | in every reachable state which step of a broadcast can follow and what it leaves; a batch is a prefix of at least 45 messages or of all |
| TransactionQueue.Queue.BroadcastPending | queue/queue.go:172-294 | without adds inside it, a whole broadcast takes and delivers the prefix of the batch size, or empties the queue on a full mempool, or changes nothing when the mempool cannot be read or holds more than 2000, with an error only in the first of these |
| QueueTheorems.Conservation | queue/queue.go:97-218 | over all interleavings the accepted messages in order are those taken or dropped followed by those pending, and exactly the others have index -1 |
| QueueTheorems.DoneOnce | queue/queue.go:286-291 | counters are 0 or 1; in a delivered batch all are 0, the result is shared and the index that PostProof takes into the response data leads from each message to itself; all else accepted still waits |
| QueueTheorems.EveryBatchDelivered | queue/queue.go:229-294 | without a reset every batch is delivered or is the one in flight |
| QueueTheorems.LostIff | queue/queue.go:240-245 | after every run the messages that left by a reset are exactly those that were pending or in flight when some step met a full mempool |
| QueueTheorems.DoneUnlessCaught | queue/queue.go:240-291 | an accepted message had its Done exactly if its batch was delivered; else it is pending or in flight, unless a reset caught it, and then its counter is 1 in every continuation of the run |
| QueueTheorems.FullMempoolStrands | queue/queue.go:240-245 | a run of five steps after which one message taken and one still queued are lost to a full mempool |
| QueueTheorems.NoDuplicatePending | queue/queue.go:106-131 | in every reachable state pending proofs are for distinct contracts, and a refused message has nothing to wait for |
| QueueTheorems.BoundedWaiting | queue/queue.go:188-218 | a message at position p before a broadcast is in a taken batch after p/45 + 1 takes, whatever is added, unless a reset comes first |
| Strays.StrayIsNeverReplaced | strays/hands.go:26-113 | in every reachable state and for every next step a hand keeps its stray unless it clears it itself |
| Strays.HandedThenLeft | strays/manager.go:141-202 | what was handed out since the last refresh followed by what is left is the refreshed list |
| Strays.ListIsRefreshed | strays/manager.go:128-202 | after every run that list is the one of the last refresh that brought files, and one file of it, from the front, has gone for each time a free hand was served since |
| Strays.RefreshReplaces | strays/manager.go:189-199 | a refresh with files replaces the list, one without keeps it |
| Strays.GiveTakesFirst | strays/manager.go:128-150 | a free hand gets the first file of the list, or none |
| Strays.ManagerGoesOn | strays/manager.go:113-137 | in every reachable state which step of the manager can follow, and that busy hands are passed over |
| Strays.HandGoesOn | strays/hands.go:29-100 | when a hand starts, fails and wakes, and that it is free after the last two |
| Strays.PostCarriesStray | strays/hands.go:80-99 | the proof that a hand queues is for its stray's merkle, owner and start, and it waits for that message |
| Strays.OneMessagePerHand | strays/hands.go:89-99 | of all messages a hand ever queued only the one it waits for can be pending or in flight |
| Strays.ResetBlocksHand | strays/hands.go:89-99 | when a broadcast meets a full mempool, a waiting hand can wake at once if its message is done, and else keeps its stray and never wakes in any continuation |
| StrayManagers.StrayManager.Dispatch | strays/manager.go:128-150 | the loop over the hands ends in the state of serving them one by one |
| StrayManagers.RoundConserves | strays/manager.go:128-150 | a round hands the front of the list to free hands in order, leaves busy ones alone, and leaves a hand free only if the list ran out |
| StrayManagers.RoundIsServed | strays/manager.go:128-150 | the object's loop is the machine's round of Look and Give steps without interruption |
| StrayManagers.StrayManager.RefreshList | strays/manager.go:160-202 | a non-empty answer replaces the list, an empty one or an error keeps it |
| Paths.ResolveComposes | api/file_handler.go:473-520 | resolving p ++ q is walking p by first matching child names and resolving q from there, with the walk's error and name if the walk fails |
| Paths.ResolveEnds | api/file_handler.go:501-519 | at the end of the path: the stored bytes, or the folder's page under the name with .html behind it, or the error |
| Paths.ResolveFails | api/file_handler.go:476-499 | before the end: the error and name for each way to fail, and the first child of the name otherwise |
| Paths.FirstChildIsFirst | api/file_handler.go:492-496 | the child taken is the first of its name |
| Paths.FilterPath | api/file_handler.go:546-558 | the loop returns the non-empty components |
| Paths.ExtraSlashes | api/file_handler.go:546-558 | further slashes at the front, at the end or beside another slash do not change the components |
| Paths.ComponentsOfJoin | api/file_handler.go:546-558 | joining non-empty slash-free names and splitting gives them back |
| FormatSizes.FormatSize | api/gateway/folderView.go:48-65 | the divisor is the largest power of 1024 not above the size, stays within 64 bits, and its letter exists |

## Left out

- CreateIPFSFolder, and how folder nodes are decoded and marshalled: whether the bytes decode, and the root node's JSON, are part of the peer's answer.
- WriteFileWithProgress repeats WriteFile with progress fields; MapCids, Dump, CheckTree, GetFileData and GetCIDFromMerkle are single look-ups.
- The rest of PostProof and the Prover's loop: chain queries, thread counters and timing around the queue and file system calls modelled here.
- FileSystems.FileSystem.ListFiles: does not fix the iteration order of the database; any order of the keys is allowed.
- FileStore.GenProof: a missing block is an error, where the peer would also ask the network for it; GetFileChunk belongs to a fork of the peer library that is not part of this model, and what it may read ahead is not modelled.
- The tree library's source: its heap layout, padding, look-up by value and verification are modelled from the exported trees and its use here; salt and sorting are off as in the code.
- Failing database transactions, failing hash writes, block store errors, and partly stored DAGs after a failed AddFile.
- CID texts and their versions: a stored CID either decodes or does not.
- Data races of the unlocked queue, the rate limiter, sleeps, the polling of Listen, and Stop.
- NewStrayManager's authorisation of hands, wallets, and the random page that RefreshList asks for.
- HTTP handling around path resolution, including the request without path components; the HTML page is kept abstract.
- formatSize's decimal rendering: the quotient is kept as size and divisor.
