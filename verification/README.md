# ext4recover: the model and what is proved of it

`improved/` is a tool that recovers deleted files from a read-only ext4 device. This project models the algorithms
under its library calls in Dafny and proves that they do what the tool relies on them for.

Devices are sequences of blocks or bytes, output files are maps from logical block (or byte) to content, `qsort` is a
function parameter of which only "some ordered permutation" is known, and every failing read, short transfer or failed
allocation that a property is about is a parameter or a nondeterministic choice. Where bytes on the
device are read, a writer of the on-disk format is given too, and the theorems are stated for what it writes
(`WrittenTrees`, `WrittenFiles`, `WrittenJournal`, `WrittenDirents`). Code that updates state in place is a
class or a method with loops, tied by its `ensures` to a function of the inputs; the theorems are about those functions.

| files | subject |
|---|---|
| `ScanRing`, `ScanLiveness`, `ParallelScan`, `ScanSteps` | the reader / workers / writer pipeline over a 16-slot ring, with explicit condition variables and spurious wake-ups: an inductive invariant, no lost wake-up, no deadlock, a bound on the steps of every run, refinement of the serial scan |
| `Intervals` | the sorted interval array as a set: union, exact query, one canonical array per set |
| `ProbeTable`, `BlockSet` | open addressing with linear probing, growth and rehash, against the linked list it replaced |
| `ExtentTree`, `Reconstruct`, `AggressiveScan`, `ScanHistory`, `ScanMarks`, `ScanTrees`, `WrittenTrees` | the extent-tree walk on any device content and on well-formed trees, the files it makes, the scan of a whole device serial and parallel, what its state says about its past, and all of it again for devices given by their bytes |
| `IndirectFiles`, `IndirectDump`, `WrittenFiles` | files mapped by direct, single and double indirect blocks, whatever reads and writes do, down to the bytes of the indirect blocks |
| `ChunkedCopy`, `CopyRun`, `CopyImage` | the chunked copy under short reads and writes, the run invariant behind the redundancy checks, and the copy, whole or broken off, as a change of the file's blocks |
| `JournalTags`, `JournalScan`, `JournalIndex`, `WrittenJournal` | descriptor tags in five wire sizes, the scan that pairs tags with data blocks, the versioned block index, and a lookup through all three, of journals given by their bytes |
| `Versions`, `InodeTable` | which journal copy supplies a file, and which inode a table slot is |
| `NameIndex`, `OutputNames` | the inode-to-name hash index, and output names without collisions |
| `GhostDirents`, `DirentDeletion`, `WrittenDirents` | the ghost directory-entry scan against deletion by absorption, in any order, of blocks given by their bytes, and what it takes for a ghost in any block |
| `Bytes`, `Collections`, `Sorting`, `Arithmetic` | shared definitions |

Where the code does less than its comments say, or than one would expect, the exact condition is proved:

- The walk of an extent tree starts with depth 5 and gives up at 0, so a root of depth 5 yields nothing at all; a tree
  is gathered in full exactly when its depth is at most 4 and it has at most 65536 extents (`ExtentTree.RootCollects`).
- The standalone-leaf dump takes an unwritten extent's raw length for its length. The file is right exactly when no
  unwritten extent, so read, still fits into the device (`AggressiveScan.LeafContentExact`, `LeafRecovered`;
  `LeafCanBeMisread` is a leaf that is recovered wrong).
- A tree is put together only if no earlier walk followed a pointer to its root and the scan has not copied all its
  extents before it comes to it; if all leaves lie below the root it never is (`ScanTrees.TreeInScan`,
  `LeavesFirstNoTree`).
- The version table has room for 65536 inodes. An inode's output is its best copy exactly when fewer inodes than rows
  came before it, or its last success happens to be the best (`Versions.BestExactlyIfEarly`); with one inode too many a
  deletion artifact can replace a live recovery (`Versions.FullTableLosesLive`).
- During the journal scan the index is searched before `jindex_sort`. With one copy per block and transaction and
  positive sequence numbers, every lookup is right exactly when the entries happen to be in order
  (`JournalIndex.RightExactlyInOrder`); `UnsortedCanMiss` is a lookup that fails, `RepeatsCanHideDisorder` and
  `ZeroCanHideDisorder` show that both conditions are needed, and what a lookup does find is always right.
- Deleting a directory entry after its right neighbour hides the neighbour. The scan gives back all deleted entries
  exactly when each was deleted while its right neighbour was live, or was the last
  (`DirentDeletion.ScanUndoesDeletion`, `NeighbourIsHidden`).
- The linear search that the inode-table map replaced took uninitialised groups for tables at block 0 and numbered
  padding slots. The two agree exactly where neither plays a part (`InodeTable.GroupsAgree`, `NumbersAgree`).
- Output names are distinct exactly when no mapped name is the fallback name `<k>_file` of another inode that could be
  given its fallback (`OutputNames.DistinctExactlyWithoutClash`).
- `next_chunk_to_write` is raised only after the slot has been recycled, so the reader can get 17 chunks ahead of that
  counter, just then and no further (`ParallelScan.SeventeenAhead`, `RingDiscipline`).
- A hole among the direct blocks of an indirect-block file does not leave a hole in the output: later blocks move up
  (`IndirectFiles.HoleIsFilled`). A block comes out in its own place exactly when no hole precedes it
  (`IndirectFiles.OwnPlace`); which blocks come out at all is in `IndirectFiles.ChainExactly`. The triple-indirect pointer that the file's comment mentions is never read.
- A range whose end wraps around 2^64 is queried by its first block only, and adding it leaves the interval array alone
  or spoils it (`Intervals.RecoveredIntervals.Query`, `Add`). Extents have 48-bit addresses, so this does not arise.
- The ghost scan can look up to six bytes past the block at a would-be header; what it sees there never matters
  (`GhostDirents.OverreadHarmless`).

## Model

| member | source | states |
|---|---|---|
| `ScanRing.StartInv` | improved/parallel_scan.c:334-361 | the initial ring satisfies the pipeline invariant, for any range, chunk size and number of workers |
| `ScanRing.ReaderKeepsInv` | improved/parallel_scan.c:132-157 | filling a free slot or going to sleep keeps the whole invariant: places, claims and results |
| `ScanRing.FinishKeepsInv` | improved/parallel_scan.c:160-168 | announcing the end of input keeps the invariant |
| `ScanRing.AnnounceKeepsInv` | improved/parallel_scan.c:170-176 | each of the final broadcasts keeps the invariant |
| `ScanRing.ClaimKeepsInv` | improved/parallel_scan.c:189-204 | claiming an index, produced or not, keeps claims distinct and every pending chunk in some worker's hands |
| `ScanRing.LeaveKeepsInv` | improved/parallel_scan.c:195-216 | a worker that exits leaves no produced chunk unserved |
| `ScanRing.TakeKeepsInv` | improved/parallel_scan.c:209-220 | taking the filled slot of one's own chunk keeps the invariant |
| `ScanRing.ScanKeepsInv` | improved/parallel_scan.c:223-233 | after each block the slot's hits are exactly the hits among the blocks looked at so far |
| `ScanRing.DoneKeepsInv` | improved/parallel_scan.c:235-238 | a slot marked done holds all hits of its chunk, in order |
| `ScanRing.CollectKeepsInv` | improved/parallel_scan.c:264-286 | the writer only ever takes the hits of the next chunk in order |
| `ScanRing.RecycleKeepsInv` | improved/parallel_scan.c:310-313 | recycling the slot keeps the window and every other slot |
| `ScanRing.AdvanceKeepsInv` | improved/parallel_scan.c:315-318 | raising the writer's counter keeps the invariant |
| `ScanRing.StepKeepsInv` | improved/parallel_scan.c:122-326 | every step of every thread keeps the invariant |
| `ScanRing.BoundaryIsMultiple` | improved/parallel_scan.c:126-158 | chunk c is the c-th run of blocks_per_chunk blocks, cut off at the end of the range |
| `ScanLiveness.StepKeepsAlert` | improved/parallel_scan.c:136-240 | no lost wake-up: whoever sleeps waits for something that has not happened or whose broadcast is still to come, after every step |
| `ScanLiveness.SomeoneRuns` | improved/parallel_scan.c:132-326 | no deadlock: with at least one worker, until all threads have exited some thread can run |
| `ScanLiveness.StepFalls` | improved/parallel_scan.c:132-326 | every step, falling asleep included, strictly lowers a lexicographic measure |
| `ParallelScan.ScanSerially` | improved/aggressive_scan_v5.c:465-500 | the serial loop computes the fold of the visit over the range, ascending |
| `ParallelScan.FilteredEqualsSerial` | improved/parallel_scan.c:223-233 | visiting only the blocks that pass a harmless filter gives the serial state and count |
| `ParallelScan.RunExists` | improved/parallel_scan.c:330-389 | every sequence of scheduling events is a run of the model |
| `ParallelScan.RunsAreGood` | improved/parallel_scan.c:122-326 | in every state of every run the invariant holds and the recovery state is that of visiting the hits dumped so far |
| `ParallelScan.ParallelEqualsSerial` | improved/parallel_scan.c:10-21 | under every interleaving the dump order is a prefix of the serial order, and once the writer exits state and count equal the serial scan's |
| `ParallelScan.NeverStuck` | improved/parallel_scan.c:132-326 | from every reachable non-final state some thread can step, and whichever does, the measure falls |
| `ParallelScan.RingDiscipline` | improved/parallel_scan.c:102-105 | slots hold chunks congruent to their index, produced chunks exceed recycled ones by at most 16 and the writer's counter by 17 only between recycling and advancing, no chunk has two claimants, no slot buffer two users |
| `ParallelScan.OneClaimant` | improved/parallel_scan.c:189-204 | over a whole run no chunk is ever in the hands of two workers, at the same time or one after the other |
| `ParallelScan.SeventeenAhead` | improved/parallel_scan.c:310-318 | a run in which the reader is 17 chunks ahead of the writer's counter |
| `ParallelScan.SlotsCycle` | improved/parallel_scan.c:136-317 | slots only move EMPTY, FILLED, PROCESSING, DONE, EMPTY, and neither reader nor writer skips a chunk |
| `ParallelScan.ScanInParallel` | improved/parallel_scan.c:330-389 | any scheduler that always picks a runnable thread ends, for any range and worker count, with the serial result |
| `ScanSteps.WakeRaises` | improved/parallel_scan.c:136-139 | a spurious wake-up leaves all of the measure alone but the number of threads awake, which it raises by at most one |
| `ScanSteps.StepsBounded` | improved/parallel_scan.c:122-326 | under every schedule the threads take at most a number of steps given by range, chunk size and worker count, and one more for every spurious wake-up |
| `Intervals.RecoveredIntervals.constructor` | improved/recovered_intervals.c:21-35 | the new set is empty and canonical |
| `Intervals.RecoveredIntervals.FindFirst` | improved/recovered_intervals.c:48-63 | the bisection finds the first interval that ends beyond the query |
| `Intervals.RecoveredIntervals.Query` | improved/recovered_intervals.c:69-87 | 1 exactly when the non-empty range is contained in the set, 0 exactly when disjoint from it, else 2; a range that wraps around is answered by its first block |
| `Intervals.QueryMeaning` | improved/recovered_intervals.c:69-87 | one interval decides containment and disjointness, because no two intervals touch |
| `Intervals.RecoveredIntervals.Add` | improved/recovered_intervals.c:93-172 | the set becomes the union and the array stays sorted, non-empty and strictly gapped; a failed growth changes nothing; a range that wraps around is swallowed or spoils the array |
| `Intervals.RecoveredIntervals.FindTouching` | improved/recovered_intervals.c:98-122 | the two bisections delimit exactly the intervals that overlap or adjoin the new one |
| `Intervals.RecoveredIntervals.MergeInto` | improved/recovered_intervals.c:124-142 | the touched intervals are replaced by their hull with the new one, the rest kept in order |
| `Intervals.RecoveredIntervals.CloseGap` | improved/recovered_intervals.c:134-142 | both arrays lose exactly the absorbed intervals |
| `Intervals.RecoveredIntervals.InsertAt` | improved/recovered_intervals.c:160-167 | the new interval is inserted at its place, the rest kept in order |
| `Intervals.RecoveredIntervals.Stats` | improved/recovered_intervals.c:174-188 | the reported total is the number of distinct blocks in the set |
| `Intervals.TotalIsCardinality` | improved/recovered_intervals.c:174-188 | the lengths of a canonical list add up to the cardinality of the set |
| `Intervals.CanonicalUnique` | improved/recovered_intervals.c:93-172 | a set of blocks has exactly one canonical list |
| `Intervals.SameSetSameList` | improved/recovered_intervals.c:93-172 | two histories with the same union leave identical arrays |
| `Intervals.Replay` | improved/recovered_intervals.c:93-172 | after any history of insertions the set is the union of what was inserted |
| `ProbeTable.Probe` | improved/aggressive_scan_v5.c:47-58 | the probe loop ends, at the key or at the first free slot of its path |
| `ProbeTable.ProbeDecides` | improved/aggressive_scan_v5.c:47-58 | a key is in the table exactly when its probe path ends at it |
| `ProbeTable.InsertKeeps` | improved/aggressive_scan_v5.c:62-77 | an insertion at the end of the probe path keeps every key reachable without a free slot in between |
| `ProbeTable.OccupiedIsCardinality` | improved/aggressive_scan_v5.c:62-77 | the counter is the number of distinct keys |
| `BlockSet.RecoveredBlocks.Contains` | improved/aggressive_scan_v5.c:47-58 | true exactly for members of the set; never for block 0 |
| `BlockSet.RecoveredBlocks.Mark` | improved/aggressive_scan_v5.c:62-77 | adds a non-zero block, keeps the load at or below half; when a growth is needed and gets no memory the set is unchanged |
| `BlockSet.RecoveredBlocks.Grow` | improved/aggressive_scan_v5.c:25-45 | the rehash keeps the set and makes room |
| `BlockSet.RecoveredBlocks.Rehash` | improved/aggressive_scan_v5.c:30-42 | the new table holds the same keys, each reachable from its home slot |
| `BlockSet.Replay` | improved/aggressive_scan.c:27-54 | after any sequence of marks and growths the table agrees with the linked list on every non-zero block |
| `ExtentTree.EntriesInBlock` | improved/extent_validator_v5.c:18-65 | a validated header keeps every entry read inside the block |
| `ExtentTree.WalkExtentTree` | improved/aggressive_scan_v5.c:141-233 | the recursive walk over the real block set computes the functional walk |
| `ExtentTree.WalkSound` | improved/aggressive_scan_v5.c:151-233 | on any device content, cyclic or garbage, the walk ends, respects the cap, and appends only non-empty extents inside the device |
| `ExtentTree.WalkCollects` | improved/aggressive_scan_v5.c:151-233 | a well-formed tree within reach is gathered leaf by leaf in order up to the cap, and exactly its node blocks are marked |
| `ExtentTree.TooDeepYieldsNothing` | improved/aggressive_scan_v5.c:151-155 | a tree deeper than the walk reaches yields no extent |
| `ExtentTree.RootCollects` | improved/aggressive_scan_v5.c:119-120 | a tree is gathered in full if and only if its depth is at most 4 and it has at most 65536 extents |
| `WrittenTrees.WrittenEncodes` | improved/aggressive_scan_v5.c:166-229 | a tree written to the device byte for byte, header, leaf entries and index entries little-endian with 48-bit addresses, is the tree the walk sees |
| `WrittenTrees.WrittenTreeGathered` | improved/aggressive_scan_v5.c:119-233 | its extents are gathered in full if and only if its depth is at most 4 and they are at most 65536 |
| `WrittenTrees.SampleWritten` | improved/aggressive_scan_v5.c:196-229 | there are such trees, with the child at any block from 2 on, below 256 or beyond 2^32 |
| `WrittenTrees.OnlyHeaders` | improved/extent_validator_v5.c:36-66 | a visit with any effect is of a block that begins with the magic, no more entries than room, no more room than the block has, and depth at most 5 |
| `Reconstruct.DumpDomain` | improved/aggressive_scan_v5.c:306-322 | the file has exactly the logical blocks some written extent maps |
| `Reconstruct.DumpValue` | improved/aggressive_scan_v5.c:306-322 | for disjoint extents each block has the content of the physical block its extent maps it to |
| `Reconstruct.TreeFile` | improved/aggressive_scan_v5.c:239-335 | however ties are sorted, the file holds each written logical block of the tree with its physical content, and nothing else |
| `AggressiveScan.EnvExists` | improved/aggressive_scan_v5.c:129-139 | what is assumed of qsort can be met, for every device and every way copies may go |
| `AggressiveScan.TreeRecovered` | improved/aggressive_scan_v5.c:239-335 | visiting the root of a new, not fully covered well-formed tree whose copies succeed yields a file with exactly the content the tree denotes |
| `AggressiveScan.LeafContentExact` | improved/aggressive_scan_v5.c:402-427 | the dump of a leaf has the content its extents denote if and only if no unwritten extent, read by its raw length, fits into the device |
| `AggressiveScan.LeafRecovered` | improved/aggressive_scan_v5.c:340-442 | visiting a new, not fully covered leaf whose copies succeed yields a file, and the file is right if and only if nothing is misread |
| `AggressiveScan.LeafCanBeMisread` | improved/aggressive_scan_v5.c:402-427 | a device and a leaf from which a block is recovered that the file does not have |
| `AggressiveScan.PrefilterHarmless` | improved/parallel_scan.c:223-233 | a block the workers drop would have left the recovery state unchanged |
| `AggressiveScan.ScanDeviceInParallel` | improved/parallel_scan.c:330-389 | the parallel scan of a device leaves the recovery state, files and count of the serial scan |
| `AggressiveScan.ScanDeviceSerially` | improved/aggressive_scan_v5.c:447-505 | the loop over the hash set and the interval set computes the abstract scan of the sets they stand for |
| `AggressiveScan.LeafRedundant` | improved/aggressive_scan_v5.c:364-388 | a leaf is redundant exactly when it has usable entries and all are fully covered |
| `AggressiveScan.TreeRedundant` | improved/aggressive_scan_v5.c:277-293 | a tree is redundant exactly when all its extents are fully covered |
| `AggressiveScan.DumpExtents` | improved/aggressive_scan_v5.c:306-322 | writes the written extents, of each as many bytes as its copy gets through, and registers exactly the physical blocks of those copied in full |
| `AggressiveScan.EmitInPlace` | improved/aggressive_scan_v5.c:295-335 | one emitted file: content, registration, mark and count as specified; nothing if no copy succeeds |
| `AggressiveScan.RecoverLeafInPlace` | improved/aggressive_scan_v5.c:340-442 | the leaf path over the real stores does what the abstract one does |
| `AggressiveScan.RecoverTreeInPlace` | improved/aggressive_scan_v5.c:239-335 | the tree path over the real stores does what the abstract one does |
| `AggressiveScan.VisitInPlace` | improved/aggressive_scan_v5.c:465-500 | one turn of the scan loop, for any block number: recovered and foreign blocks and blocks beyond the device are passed over |
| `WrittenTrees.LeafVisit` | improved/aggressive_scan_v5.c:364-427 | of any leaf, whatever its entries: redundant exactly if every entry with a length and an address has been copied and there is one; else just the entries that fit into the device are copied, by their stored length |
| `ScanMarks.WalkMarks` | improved/aggressive_scan_v5.c:196-229 | a walk marks exactly the blocks it followed pointers to, whatever it collects and even where it gives up |
| `ScanMarks.TreeIsFollowed` | improved/aggressive_scan_v5.c:196-229 | in a well-formed tree within reach these are all its blocks below the root |
| `ScanMarks.VisitMarks` | improved/aggressive_scan_v5.c:277-442 | a visit marks exactly those, and the block itself if it made a file of it or found everything copied already |
| `ScanMarks.MarkedExactly` | improved/aggressive_scan_v5.c:447-505 | during a scan the marked blocks are those marked at its start, those an earlier walk followed a pointer to, and those the scan is done with |
| `ScanMarks.KnownExactly` | improved/aggressive_scan_v5.c:471-473 | a block is passed over as known if and only if it was marked at the start or an earlier walk followed a pointer to it |
| `ScanMarks.FilesCounted` | improved/aggressive_scan_v5.c:432-505 | the recoveries a scan reports and counts are as many as its files |
| `ScanHistory.VisitCopies` | improved/aggressive_scan_v5.c:465-500 | a visit registers exactly what it copies in full, and makes a file of exactly what it copies |
| `ScanHistory.TreeCopiedInOrder` | improved/aggressive_scan_v5.c:129-139 | what a visit copies for a tree is what its walk gathered, in ascending order of logical blocks |
| `ScanHistory.RegisteredExactlyIfReceived` | improved/ext4recover_v5.c:78-118 | a physical block is registered for a file if and only if copying some extent put its content into the file, at the logical block that extent maps it to |
| `ScanHistory.StaysUnlessOverwritten` | improved/aggressive_scan_v5.c:306-322 | what one extent put into the file is there when the file is finished, unless a later extent's copy, whole or broken off, writes the same logical block |
| `ScanHistory.CoveredExactlyIfCopied` | improved/aggressive_scan_v5.c:447-505 | over a whole scan a block is covered if and only if it was at the start or some visit's file received its content |
| `ScanHistory.FilesStay` | improved/aggressive_scan_v5.c:447-505 | a file, once made, is the same at every later point of the scan |
| `ScanHistory.SkippedWasCopied` | improved/aggressive_scan_v5.c:364-388 | whatever a scan skips as redundant was covered at its start, or has its content in an output file that is there at that moment, at the place an extent mapped it to, unless that file's own later extents wrote over it |
| `ScanTrees.TreeInScan` | improved/aggressive_scan_v5.c:239-335 | in a scan, a well-formed tree gets a file of its own, with its content, if and only if no earlier walk followed a pointer to its root and not all its extents were copied before |
| `ScanTrees.LeafInScan` | improved/aggressive_scan_v5.c:340-442 | the same for a leaf, whatever becomes of the blocks beside it; its file is right if and only if nothing is misread |
| `WrittenTrees.WrittenTreeInScan` | improved/aggressive_scan_v5.c:239-335 | the same for a tree written byte for byte: its file has, block for block, what the extents say, and nothing else |
| `WrittenTrees.WrittenLeafInScan` | improved/aggressive_scan_v5.c:340-442 | the same for a leaf written byte for byte |
| `ScanTrees.LeavesFirstNoTree` | improved/aggressive_scan_v5.c:277-293 | a tree all of whose leaves the scan meets before the root is never put together |
| `IndirectDump.DumpPointers` | improved/indirect_recovery.c:46-53 | tries the blocks of the leading good pointers, up to the block limit; failed reads and short writes count and leave what they leave |
| `IndirectDump.DumpIndirect` | improved/indirect_recovery.c:37-55 | the same for the pointers of a good indirect block; nothing for a bad or unreadable one |
| `IndirectDump.DumpDoubleIndirect` | improved/indirect_recovery.c:58-75 | the same for the leading good indirect blocks of a double indirect block |
| `IndirectDump.RecoverIndirectFile` | improved/indirect_recovery.c:77-136 | refuses extent and empty files, keeps a large enough output, else writes what the chain leaves, set to the file's size |
| `IndirectFiles.ChainTrue` | improved/indirect_recovery.c:37-116 | every block put out is the physical block of the logical block it was found for |
| `IndirectFiles.ChainAscends` | improved/indirect_recovery.c:37-116 | blocks come out in ascending logical order, none twice |
| `IndirectFiles.OwnPlace` | improved/indirect_recovery.c:37-116 | logical block l comes out as block l if and only if no block up to l is a hole |
| `IndirectFiles.HoleIsFilled` | improved/indirect_recovery.c:102-112 | with a hole among the direct blocks the first indirect block comes out in its place |
| `IndirectFiles.ChainExactly` | improved/indirect_recovery.c:37-116 | a block comes out if and only if no hole comes before it in its own pointer block and no bad row before its row |
| `IndirectDump.PutsChain` | improved/indirect_recovery.c:37-116 | up to the block limit every piece of the chain is tried in order, and counted whether it arrives or not |
| `IndirectDump.FileRecovered` | improved/indirect_recovery.c:77-136 | a hole-free file within reach and below the limit, whose blocks are transferred well, comes out byte by byte at its size, whatever happens beyond its end |
| `WrittenFiles.PointersRead` | improved/indirect_recovery.c:45-47 | an indirect block written as little-endian 32-bit pointers is read with just these pointers |
| `WrittenFiles.RecoverWritten` | improved/indirect_recovery.c:77-136 | a hole-free file of at most 1048576 blocks, its indirect blocks given by their bytes, comes out byte by byte |
| `WrittenFiles.RecoverWrittenAnyhow` | improved/indirect_recovery.c:77-136 | whatever reads and writes do: a large enough output is kept; nothing if no block gets through; else the concatenation of what does, at the file's size unless the file fills its blocks |
| `WrittenFiles.RefuseOthers` | improved/indirect_recovery.c:80-83 | files of extents and empty files, and no others, are refused |
| `WrittenFiles.SampleWritten` | improved/indirect_recovery.c:37-55 | there are such files, with a block behind the indirect block |
| `ChunkedCopy.ReadChunk` | improved/ext4recover_v5.c:87-96 | for any pattern of short reads, success means the buffer holds exactly the device bytes asked for |
| `ChunkedCopy.WriteChunk` | improved/ext4recover_v5.c:98-107 | for any pattern of short writes, a prefix of the buffer is in place and nothing else changed; on success all of it |
| `ChunkedCopy.CopyBlocks` | improved/ext4recover_v5.c:78-110 | what reaches the file is a prefix of the extent at its place and nothing else; on success the whole extent |
| `ChunkedCopy.BlockByBlockIsOnePatch` | improved/ext4recover_v5.c:78-110 | a block-by-block copy leaves the same patch as a successful chunked copy |
| `ChunkedCopy.ChunkedIsBlockByBlock` | improved/ext4recover_v5.c:78-110 | a chunked copy that succeeds and a block-by-block copy leave equal files |
| `CopyImage.CopyIsCopyPrefix` | improved/ext4recover_v5.c:78-110 | a copy that breaks off after n bytes leaves the blocks of the extent they fill, a block they end in overlaid so far, and everything else as it was |
| `CopyImage.CopyAsImage` | improved/ext4recover_v5.c:44-120 | the chunked copy under any short reads and writes is, block by block, a copy of a prefix of the extent, of all of it on success |
| `CopyImage.CopyIsCopyExtent` | improved/ext4recover_v5.c:44-120 | a copy that succeeds turns a file that represents an image of blocks into one that represents the image with the extent copied into it |
| `CopyRun.Run.CopyExtent` | improved/ext4recover_v5.c:44-120 | keeps the run invariant: every registered block has been copied in full; a failed copy registers nothing |
| `CopyRun.Run.Redundant` | improved/aggressive_scan_v5.c:277-293 | a set of extents is skipped exactly when all are covered, and then every block of them was copied in full earlier in the run |
| `JournalTags.FeaturesRead` | improved/fs_capabilities.c:33-67 | from the feature word 2*has64 + 8*v2 + 16*v3 + other bits, the format and the tag size of 8, 12, 10, 14 or 16 bytes |
| `JournalTags.RoundTrip` | improved/fs_capabilities.c:33-67 | for every such word, tags written with the flag word escaped + 2*sameUuid + 4*deleted + 8*last + other bits, and with a UUID unless sameUuid, are parsed back: every block number and the meaning of every flag |
| `JournalTags.ParseEncoded` | improved/journal_recovery_v5.c:1004-1026 | the same wherever the tags stand, ended by the last tag or by lack of room |
| `JournalTags.ParseTags` | improved/journal_recovery_v5.c:1000-1026 | the byte walk reads the tags up to the last one or the end of the block |
| `JournalScan.ScanDescriptor` | improved/journal_recovery_v5.c:1000-1068 | the tag loop records one index entry and data block per reasonable tag and stops where specified |
| `JournalScan.ScanJournal` | improved/journal_recovery_v5.c:967-1073 | the scan ends, and index and data are those of the descriptor groups in order |
| `JournalScan.TagsStayInStep` | improved/journal_recovery_v5.c:1028-1066 | what the loop records is what pairing every tag with its block gives; leaving the loop early loses nothing |
| `JournalScan.TagsPointwise` | improved/journal_recovery_v5.c:1028-1066 | an item is recorded if and only if it is, for some reasonable tag k, block k after the descriptor and inside the journal |
| `JournalScan.GroupsApart` | improved/journal_recovery_v5.c:1070-1072 | no journal block serves as both data and descriptor |
| `JournalScan.NothingSkipped` | improved/journal_recovery_v5.c:967-984 | every descriptor is found unless it was consumed as data |
| `JournalScan.IndexAscends` | improved/journal_recovery_v5.c:967-1073 | over the whole scan indexed journal blocks strictly increase and stay in bounds |
| `JournalScan.LookUp` | improved/journal_recovery_v5.c:967-1080 | after scan and sort, a lookup delivers the unescaped content of the k-th block after the newest descriptor with a reasonable tag k for the block within the bound; nothing only if there is no such tag or that journal block cannot be read |
| `WrittenJournal.DescriptorRead` | improved/journal_recovery_v5.c:976-1000 | a block of magic c03b3998, type 1, sequence number and tags, big-endian, is found as a descriptor with that sequence number and what its tags say |
| `WrittenJournal.ForeignIsPassed` | improved/journal_recovery_v5.c:976-982 | a block of another magic or type, or one that cannot be read, is not |
| `WrittenJournal.ScanFindsLayout` | improved/journal_recovery_v5.c:967-1073 | of a journal that holds descriptors, each followed by its data blocks, and otherwise foreign blocks, the scan finds exactly the descriptors, in order |
| `WrittenJournal.ScanDelivers` | improved/journal_recovery_v5.c:1028-1053 | and hands on exactly the blocks of their reasonable tags, with the magic put back where the tag says escaped |
| `WrittenJournal.LookUpWritten` | improved/journal_recovery_v5.c:967-1080 | a lookup after scan and sort gives the newest journaled copy of a block within the bound, as it was before; nothing only if there is none or it cannot be read |
| `WrittenJournal.TwoCopies` | improved/journal_recovery_v5.c:967-1080 | there are such journals: two transactions with a copy of one block, told apart by the bound |
| `JournalIndex.RestoreUndoesEscape` | improved/journal_index.c:80-82 | putting the magic back undoes jbd2's escaping, for every block |
| `JournalIndex.Index.Add` | improved/journal_index.c:18-34 | appends one entry, or nothing without memory |
| `JournalIndex.Index.Sort` | improved/journal_index.c:36-42 | some ordered permutation of the entries |
| `JournalIndex.Index.FindBest` | improved/journal_index.c:58-68 | bisection and run compute the specified search |
| `JournalIndex.SearchSound` | improved/journal_index.c:58-68 | in any order of entries, what is found is a copy of the wanted block within the bound |
| `JournalIndex.SearchNewest` | improved/journal_index.c:58-68 | in order, one is found whenever there is one, with maximal eligible sequence number |
| `JournalIndex.Index.Read` | improved/journal_index.c:52-83 | delivers the unescaped content of an eligible copy; when ordered of a newest one, and 0 only if there is none or it cannot be read |
| `JournalIndex.FindAfterSort` | improved/journal_index.c:18-68 | after sorting, the search agrees with a linear search of everything added |
| `JournalIndex.SorterExists` | improved/journal_index.c:8-42 | what jindex_sort needs of qsort can be met |
| `JournalIndex.RightExactlyInOrder` | improved/journal_recovery_v5.c:310-325 | with one copy per block and transaction and positive sequence numbers, every lookup is right if and only if the index is in order |
| `JournalIndex.UnsortedCanMiss` | improved/journal_recovery_v5.c:310-325 | an index before sorting in which a copy is missed |
| `JournalIndex.RepeatsCanHideDisorder` | improved/journal_index.c:58-68 | with two copies of one transaction an index out of order can be searched right |
| `JournalIndex.ZeroCanHideDisorder` | improved/journal_index.c:58-68 | so can one with a copy of sequence number 0 |
| `Versions.Table.ShouldSkip` | improved/journal_recovery_v5.c:228-246 | the rule table over the parallel arrays |
| `Versions.Table.MarkVersion` | improved/journal_recovery_v5.c:249-274 | the update of the parallel arrays, silent when the table is full |
| `Versions.SelectVersions` | improved/journal_recovery_v5.c:748-768 | the selection loop over the real table computes the specified supplier of every inode |
| `Versions.TellsAlways` | improved/journal_recovery_v5.c:207-274 | after every prefix of copies the table tells the truth about each inode |
| `Versions.RowIfEarly` | improved/journal_recovery_v5.c:267-273 | an inode has a row if and only if fewer inodes than rows came before it |
| `Versions.BestExactlyIfEarly` | improved/journal_recovery_v5.c:207-274 | the output of an inode is the first live copy of maximal sequence number that succeeds, else the first artifact of maximal size, if and only if the inode came early or its last success is that |
| `Versions.SupplierIsBest` | improved/journal_recovery_v5.c:207-274 | with at most as many inodes as rows every output is the best copy, and there is none only if no copy succeeds |
| `Versions.LiveStays` | improved/journal_recovery_v5.c:207-227 | once a live copy of an early inode is the output, no artifact ever replaces it |
| `Versions.FullTableLosesLive` | improved/journal_recovery_v5.c:267-273 | with one inode more than rows, an artifact can replace a live recovery |
| `InodeTable.BuildMap` | improved/journal_recovery_v5.c:144-173 | the map is an ordered permutation of the ranges of the initialised groups |
| `InodeTable.SortedMapOk` | improved/journal_recovery_v5.c:136-173 | for disjoint tables placed anywhere the sorted map is ascending and apart |
| `InodeTable.Lookup` | improved/journal_recovery_v5.c:183-199 | the bisection finds the range holding the block, or there is none |
| `InodeTable.CalcInode` | improved/journal_recovery_v5.c:279-300 | the number of the slot in the group whose table holds the block; 0 for foreign blocks and padding slots |
| `InodeTable.OldGroupMeaning` | improved/journal_recovery.c:114-131 | the old loop finds the first group whose range, taken from its descriptor as it stands, contains the block |
| `InodeTable.GroupsAgree` | improved/journal_recovery.c:114-131 | lookup and old search agree on a block if and only if no uninitialised group comes before the group that holds it, among the first blocks of the device |
| `InodeTable.TestsAgree` | improved/journal_recovery.c:114-131 | whether a block is a table block at all: they agree if and only if a table holds it or no uninitialised group reaches it |
| `InodeTable.AlwaysAgree` | improved/journal_recovery.c:114-131 | they agree on all blocks if and only if every group has a table |
| `InodeTable.NumbersAgree` | improved/journal_recovery.c:169-191 | the numberings agree if and only if the block is not so shadowed and the slot is no padding |
| `InodeTable.OldTakesForeignBlock` | improved/journal_recovery.c:119-129 | an input on which the old search takes a foreign block for a table |
| `InodeTable.OldNumbersPadding` | improved/journal_recovery.c:182-188 | an input on which the old numbering numbers a padding slot |
| `InodeTable.NumberOfPlace` | improved/journal_recovery_v5.c:279-300 | every inode of an initialised group is found again at its place |
| `InodeTable.PlaceOfNumber` | improved/journal_recovery_v5.c:279-300 | every slot with a number is that inode's place, so the numbering is one to one |
| `InodeTable.TableSize` | improved/journal_recovery_v5.c:150-151 | a table has as many blocks as its inodes' records need, and no more |
| `InodeTable.PlaceInBytes` | improved/journal_recovery_v5.c:289-299 | an inode's place is the block and the offset of its record, the records of a group being laid end to end |
| `NameIndex.NameMap.HashGet` | improved/utils_v5.c:66-76 | the hash index agrees with a linear search of the names |
| `NameIndex.NameMap.Get` | improved/utils_v5.c:179-188 | the name of the inode, or none if it has none |
| `NameIndex.NameMap.Rebuild` | improved/utils_v5.c:78-91 | the rebuilt index covers all names at load at most one half |
| `NameIndex.NameMap.Add` | improved/utils_v5.c:131-174 | refuses the empty name, ".", "..", names with a slash and a full map, renames a known inode, else appends, cut off at 255 characters, through growth and rebuild |
| `NameIndex.AddThenGet` | improved/utils_v5.c:131-188 | after adding a name the inode's name is that name, or its first 255 characters, and all other inodes' names are as before |
| `NameIndex.PutKeeps` | improved/utils_v5.c:56-64 | indexing one more name keeps all others findable |
| `OutputNames.Resolver.Resolve` | improved/utils_v5.c:219-262 | the claim list and the name map give the specified answer and the specified claim |
| `OutputNames.FallbackReads` | improved/utils_v5.c:260 | the fallback name is the inode's number in decimal digits, without leading zeros, and "_file" |
| `OutputNames.Resolver.ResolveAll` | improved/utils_v5.c:209-262 | a whole sequence of calls answers call by call as specified |
| `OutputNames.SameInodeSameName` | improved/utils_v5.c:209-218 | one inode gets the same name each time |
| `OutputNames.DistinctNames` | improved/utils_v5.c:209-218 | without a clash distinct inodes get distinct names, over every sequence of calls |
| `OutputNames.DistinctExactlyWithoutClash` | improved/utils_v5.c:260-261 | names are always distinct if and only if no mapped name is a reachable fallback of another inode |
| `OutputNames.OrdinaryNamesAreDistinct` | improved/utils_v5.c:209-262 | in particular when no file is named like a fallback |
| `GhostDirents.ScanDirBlock` | improved/ghost_dirent.c:58-97 | the nested loops end and report the ghosts of every gap in order |
| `GhostDirents.ScanSound` | improved/ghost_dirent.c:26-97 | on any block only in-block names without NUL, slash, dot and dot-dot, and inodes in range, are reported |
| `GhostDirents.OverreadHarmless` | improved/ghost_dirent.c:62-67 | what lies in memory after the block has no influence |
| `DirentDeletion.ScanFinds` | improved/ghost_dirent.c:58-97 | on any block that deletions left, the scan finds exactly what following the length fields meets |
| `DirentDeletion.ScanFindsAll` | improved/ghost_dirent.c:58-97 | it finds all deleted entries, by address, if and only if every deleted entry's length field still ends where the entry ends |
| `DirentDeletion.UnlinkKeepsLaid` | improved/ghost_dirent.c:4-6 | absorbing any live entry but the first keeps the block well laid out, the entry keeping the length field it has |
| `DirentDeletion.ScanUndoesDeletion` | improved/ghost_dirent.c:4-14 | after deleting non-first entries in any order the scan gives back all of them, by address, if and only if each was deleted while its right neighbour was live or it was the last |
| `DirentDeletion.AscendingIsUndone` | improved/ghost_dirent.c:4-14 | in particular after deletions in ascending order |
| `DirentDeletion.NeighbourIsHidden` | improved/ghost_dirent.c:74-93 | in every block, deleting an entry and then the one before it leaves only the latter to be found |
| `DirentDeletion.ExampleLosesOne` | improved/ghost_dirent.c:74-93 | a block of three entries for which this happens |
| `WrittenDirents.WrittenDeletionUndone` | improved/ghost_dirent.c:4-14 | the same if and only if for a block given by the bytes ext4 writes: the scan lists inode and name of every deleted entry, by address |
| `WrittenDirents.ScanFollows` | improved/ghost_dirent.c:58-74 | in any block the scan follows the length fields as long as they are not zero and stay in the block, and yields what the gaps yield |
| `WrittenDirents.GapSoundly` | improved/ghost_dirent.c:27-56 | what a gap of any block yields stands where an entry could stand by every check on inode, length field and name, one behind the other |
| `WrittenDirents.GapCompletely` | improved/ghost_dirent.c:76-93 | and wherever an entry could stand, one is reported there or one that reaches over that place |
| `WrittenDirents.GapIsPlaces` | improved/ghost_dirent.c:76-93 | with the inode and the name whose bytes stand there |

## Left out

- Short and failed chunk reads, dropped hits on lack of memory, and failed thread creation in the pipeline; the C memory model (lock regions are atomic steps, and the unlocked reads of `reader_done` and `total_chunks` see the latest value).
- How many spurious wake-ups a run has: `ScanSteps.StepsBounded` bounds the steps by their number, nothing bounds the wake-ups.
- Integer widths, except where they matter: hash products wrap at 64 or 32 bits, interval ends at 64, lengths and addresses have their on-disk widths. Chunk and sequence counters do not wrap, and neither does the old search's 32-bit product of inodes per group and inode size.
- Hash masks are written as remainders; table sizes are powers of two, so the two agree.
- Growable C arrays whose capacity no property depends on (journal index entries, names, claims) are `seq` fields.
- AggressiveScan.VisitInPlace: the blocks that cannot be read are those beyond the device.
- Triple-indirect files: no code handles them.
- Versions.BestExactlyIfEarly: what the recovery of a copy does is a given outcome; the extent path only, since the inline-data and indirect paths of the same loop pass a pointer to the state pointer. Only artifacts are checked for redundancy before they are written, so a live copy is never kept back as redundant.
- DirentDeletion.ScanUndoesDeletion: blocks below 64 KB, whose length fields are plain numbers.
- Journal wrap-around and jbd2 replay: the scan is linear, as in the code. Journals whose superblock was not probed use a fixed tag format, which is not modelled.
- What `process_inode_table_block` checks before the selection (mode, flags, on-disk state of the inode) and the reconstruction of journaled extent trees.
- `extent_tree_travel` and `deduplicate_extents`: superseded by, or easier than, the walk that is modelled.
- `content_probe.c`, `orphan_recovery_v5.c`, `orphan_file.c`, `inline_data.c`, `revoke_scan.c`: would only add easy members.
- libext2fs calls, file opens, renames, unlinks, logging, arguments, statistics and checkpoints.
