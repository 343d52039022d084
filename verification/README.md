# PrismaOS storage and memory, modelled in Dafny

This project models the parts of PrismaOS whose correctness rests on more than one function: the
read-only ext4 reader (`ext4-view-rs`), the two Galleon file systems (`crates/galleonfs`,
`crates/galleon2`) and the page manager of Statue (`crates/Statue`). `dafny verify dfyconfig.toml`
checks the whole project.

| files | what they model |
|---|---|
| `Bytes`, `LittleEndian` | byte strings, separators and components; fixed-width little-endian numbers |
| `Resolve`, `ResolveBytes`, `ResolveLoop`, `ResolveTheorems`, `ResolveMeaning` | path resolution: a component-wise specification, the byte vector edited in place, the loop, the theorems, and the meaning of paths |
| `Wrappers`, `Numbers`, `Sequences` | optional values and results; machine integers; overwriting and removing in sequences |
| `BlockCache`, `BlockZero`, `BlockRecency`, `FileRead` | the block cache, the journal remap and the file cursor, stacked over an immutable disk |
| `DirHtree`, `DirLayout`, `DirTree` | directory entries, the hashed directory index and their layout on disk |
| `VectorClock`, `Causality`, `ReplicaRun` | replication messages and their vector clocks, over arbitrary runs |
| `Deadlock`, `Savepoints`, `Locks` | wait graphs, savepoints and object locks |
| `Rng` | the generator behind object ids |
| `RunList`, `EmptyRun`, `WrappedRun`, `ClusterBitmap`, `Ownership`, `Allocator`, `AllocatorEffect` | cluster runs, the bitmap with its searches, and the allocator as a state machine with the effect of every step |
| `MftRecord`, `MftCodec`, `MftRoundTrip`, `MftFormat`, `MftStore` | file records, their encoding byte by byte and the record table on a drive |
| `PageTable`, `PageManager` | page mappings, the free-page stack and physical memory |
| `GalleonPath`, `GalleonPathText`, `GalleonDirectory`, `GalleonFormat` | GalleonFS paths and directories |

Code that changes state is modelled by methods with loops and by classes; each method is proved to
compute a specification function, and the theorems are about those functions over all inputs or all
runs. Disk errors, failed reads and panics of checked slices are explicit outcomes. Machine integers
wrap where the source computes with them, as in a build without overflow checks.

Where the code does not meet what its comments or its purpose suggest, the model follows the code and
states exactly when the property holds:

- The iteration guard of path resolution is reachable, although its comment says it should not be
  (`GuardIsReachable`). A path that leads somewhere trips it exactly when the path and the symlink targets
  followed have more than 1000 components together (`GuardTripsExactly`); bounded targets keep it out of
  reach (`GuardUnreached`).
- A fresh block cache answers for block zero with zeros until its first entries are all pushed out
  (`BlockZeroCanBeStale`, `BlockZeroExactly`), and so does a file block that the journal maps there
  (`Session`).
- A request for no clusters can leave clusters without an owner (`ZeroRequestLosesClusters`); it is
  harmless exactly where a run of the file ends (`TakeEmptyExactly`).
- Extending a file past cluster 2^64 finds nothing in the way and always leaves its list invalid
  (`WrappingInvalid`); it can take a used cluster away from its file (`WrappingLosesCluster`) and lose
  its number (`ExtensionKeepsNumbers`).
- Returning a run that the file does not hold breaks cluster ownership unless nothing in it is in use or
  its end wraps, so that nothing is freed (`GiveExactly`).
- Adding a run renumbers a file's clusters unless it lies at or above the end of the list
  (`NumbersKeptExactly`).
- A file record survives writing and reading only if all attributes are resident with lengths divisible
  by eight (`RecordRoundTrip`), and record numbers that agree modulo 2^31 share one slot (`Slots`).
- The sizes of a non-resident attribute are read eight bytes before where they are written
  (`NonResidentShifts`).
- A read whose size takes the physical address past 2^64 panics (`ReadExactly`).
- A page write past the end of its page can change another page (`SpillIsReachable`); it does not
  exactly when no other mapped frame meets the bytes written (`OthersKeptExactly`).
- A map_range that covers nearly the whole address space succeeds and maps next to nothing
  (`WholeSpaceMapsNothing`, `RangeMapsCovering`).
- A failed map_range leaves pages mapped (`FailedRangeLeaks`), unless the frames it took happen to be the
  addresses of the pages it mapped (`RangeFails`).
- An absolute GalleonFS path that goes on with "." or ".." prints with two separators (`PrintedExactly`).
- An empty relative GalleonFS path prints as "." and is not parsed back to itself (`PrintThenParse`).
- A directory with 2^32 entries or more loses its count (`DirectoryRoundTrip`).

## Model

| member | source | states |
|---|---|---|
| PathEditing.FindNextSep | ext4-view-rs/src/resolve.rs:241-244 | the first separator at or after a position, or none when there is none |
| PathEditing.FindPrevSep | ext4-view-rs/src/resolve.rs:253-256 | the last separator at or before a position, or none when there is none |
| PathEditing.FindParentComponentStart | ext4-view-rs/src/resolve.rs:272-298 | just past a separator, with no separator between there and the one before the current component; the root component is its own parent |
| PathEditing.PathDedupSep | ext4-view-rs/src/resolve.rs:302-316 | the in-place removal loop yields the deduplicated path |
| PathEditing.DedupAbsolute | ext4-view-rs/src/resolve.rs:302-316 | deduplication spells the path's components with single separators and keeps a trailing one |
| PathEditing.DedupComps | ext4-view-rs/src/resolve.rs:302-316 | deduplication changes no component |
| PathEditing.DrainCurrent | ext4-view-rs/src/resolve.rs:150-152 | removing a "." leaves the vector of the state without that component |
| PathEditing.ParentStart | ext4-view-rs/src/resolve.rs:153-160 | backing up over ".." finds where the walked prefix without its last name ends |
| PathEditing.SpliceAbsolute | ext4-view-rs/src/resolve.rs:161-202 | after splicing an absolute symlink target and deduplicating, the vector is the one of the state that starts over at the root |
| PathEditing.SpliceRelative | ext4-view-rs/src/resolve.rs:161-202 | after splicing a relative target and deduplicating, the vector keeps the walked prefix and the index |
| PathResolver.ResolvePath | ext4-view-rs/src/resolve.rs:61-232 | the byte loop computes component-wise resolution with a guard of 1000 iterations; every unwrap and assert other than the guard holds |
| PathMeaning.ResolveMeans | ext4-view-rs/src/resolve.rs:61-232 | on every filesystem, whatever the loop answers, other than a tripped guard or a path grown too long, is the meaning of the path: names walked from the root one by one, symlinks resolved by resolving their targets from the root or from where they are, at most 40 of them, and the error of the first step that fails |
| PathMeaning.ResolveIsMeaning | ext4-view-rs/src/resolve.rs:61-232 | with targets of at most k bytes and c components, a path that leaves room for 40 of them within 4096 bytes and 1000 components is always answered with its meaning |
| PathMeaning.Inner | ext4-view-rs/src/resolve.rs:102-202 | components in front of others are walked in the one edited path exactly as they are on their own, with every symlink among them followed |
| PathMeaning.LinkExactly | ext4-view-rs/src/resolve.rs:161-202 | at a followed symlink: the 41st is refused, an unreadable target or root is passed on, a path of more than 4096 bytes is refused, and otherwise the target takes the place of the link |
| PathMeaning.LengthLimit | ext4-view-rs/src/resolve.rs:78-97 | a path of more than 4096 bytes is refused outright, and no shorter one is before the root is read |
| PathMeaning.ChainResolves | ext4-view-rs/src/resolve.rs:161-171 | a chain of symlinks to a directory resolves to it if and only if it has at most 40 links, and fails with TooManySymlinks otherwise |
| PathMeaning.FortyLinks | ext4-view-rs/src/resolve.rs:161-171 | there are such chains of any length: 40 links resolve, 41 do not |
| PathResolutionTheorems.StepStaysLocated | ext4-view-rs/src/resolve.rs:102-211 | one iteration keeps the walked names leading from the root to the current inode, none of them ".", ".." or a followed symlink |
| PathResolutionTheorems.ResolveCanonical | ext4-view-rs/src/resolve.rs:89-231 | on a consistent tree a resolved path is absolute, without duplicate or trailing separators, "." or "..", and walking it name by name gives the returned inode; a symlink is returned only when the last component is not followed |
| PathResolutionTheorems.ResolveIdempotent | ext4-view-rs/src/resolve.rs:61-232 | resolving a result again in the same mode returns the same inode and path |
| PathResolutionTheorems.StepsBound | ext4-view-rs/src/resolve.rs:102-211 | iterations needed are bounded by the components left and 2048 per symlink left |
| PathResolutionTheorems.GuardTrips | ext4-view-rs/src/resolve.rs:103-111 | the guard trips if and only if more iterations are needed than it allows, and otherwise changes nothing |
| PathResolutionTheorems.StepsExact | ext4-view-rs/src/resolve.rs:102-211 | a walk takes at most one iteration for each component of the path and of every symlink target it follows, and exactly that many when it leads somewhere |
| PathResolutionTheorems.ResolveTerminates | ext4-view-rs/src/resolve.rs:76-111 | at most 41 * 2048 iterations without the guard, and with a guard of any size the same answer unless it trips |
| PathResolutionTheorems.GuardUnreached | ext4-view-rs/src/resolve.rs:103-111 | when no symlink target has more than k components, a path with at most 1000 - 40 * k components never trips the guard, wherever it leads |
| PathResolutionTheorems.LongPathsTrip | ext4-view-rs/src/resolve.rs:103-111 | on every filesystem, a path of more than 1000 components that leads somewhere trips the guard |
| PathResolutionTheorems.GuardTripsExactly | ext4-view-rs/src/resolve.rs:103-111 | on every filesystem, a path that leads somewhere trips the guard if and only if its components and those of the symlink targets followed are more than 1000 together |
| PathResolutionTheorems.ShortPathsNeverPanic | ext4-view-rs/src/resolve.rs:103-111 | on every filesystem, with at most 1000 components in the path and the targets followed the guard never trips, wherever the path leads |
| PathResolutionTheorems.GuardWithoutSymlinks | ext4-view-rs/src/resolve.rs:103-111 | on a filesystem without symlinks, a path that leads somewhere trips the guard if and only if it has more than 1000 components |
| PathResolutionTheorems.GuardIsReachable | ext4-view-rs/src/resolve.rs:103-111 | contrary to the comment at the guard, 1001 "." components reach it on every filesystem with a readable root |
| VectorClocks.VectorClock.Increment | crates/galleonfs/src/replication.rs:89-92 | one node's entry goes up by one, all others stay |
| VectorClocks.VectorClock.Update | crates/galleonfs/src/replication.rs:94-99 | the entry-by-entry loop gives the pointwise maximum |
| VectorClocks.VectorClock.HappensBefore | crates/galleonfs/src/replication.rs:105-125 | true exactly when every entry is at most the other clock's and some entry is less |
| VectorClocks.VectorClock.ConcurrentWith | crates/galleonfs/src/replication.rs:127-129 | true exactly when neither clock is before the other |
| VectorClocks.Replica.Replicate | crates/galleonfs/src/replication.rs:255-270 | sending numbers, stamps and logs the message and moves only the own entry |
| VectorClocks.Replica.Handle | crates/galleonfs/src/replication.rs:320-345 | receiving merges the message's clock and logs it |
| ReplicaRuns.Drive | crates/galleonfs/src/replication.rs:255-345 | replica objects driven through any run by their own methods hold the clocks, counters and messages that the theorems speak of |
| Causality.SequenceIsOwnEntry | crates/galleonfs/src/replication.rs:255-270 | in every run a message's sequence number is its sender's own entry in its stamp |
| Causality.EntryCountsPast | crates/galleonfs/src/replication.rs:255-345 | a message is in the causal past of an event exactly when the event's stamp has reached the message's number |
| Causality.StampsGrow | crates/galleonfs/src/replication.rs:89-129 | stamps only grow along causality |
| Causality.ClocksDecideCausality | crates/galleonfs/src/replication.rs:105-125 | for any run with any delivery order, loss and duplication: a message causally precedes another if and only if its clock happens before the other's |
| Causality.ConcurrentMeansUnordered | crates/galleonfs/src/replication.rs:127-129 | two messages' clocks are concurrent exactly when neither causally precedes the other |
| Causality.CountersBounded | crates/galleonfs/src/replication.rs:89-92 | no entry exceeds the messages sent, so 64-bit counters suffice for every run shorter than 2^64 |
| BlockCaching.Geometry.NumBlocksToRead | ext4-view-rs/src/block_cache.rs:129-143 | the read-ahead stays within the filesystem and is cut short only at its end |
| BlockCaching.BlockCache.constructor | ext4-view-rs/src/block_cache.rs:96-118 | all entries exist up front, tagged as block zero with zero data |
| BlockCaching.BlockCache.InsertBlock | ext4-view-rs/src/block_cache.rs:226-252 | the back entry is refilled from the read buffer and becomes the front; the rest move back by one |
| BlockCaching.BlockCache.GetOrInsertBlocks | ext4-view-rs/src/block_cache.rs:159-216 | a hit moves to the front, a miss puts the read-ahead group in order before the old list without its tail, a failed read changes no entry; the front entry's data is returned |
| BlockCaching.BlockCache.FindEntry | ext4-view-rs/src/block_cache.rs:169-174 | the first entry with a block's index |
| BlockCaching.RequestCoherent | ext4-view-rs/src/block_cache.rs:159-252 | one request keeps every entry with a nonzero index equal to its disk block |
| BlockCaching.RunCoherent | ext4-view-rs/src/block_cache.rs:159-252 | so does any mix of hits, misses and failed reads from a new cache |
| BlockRecency.StaysCached | ext4-view-rs/src/block_cache.rs:159-245 | a block at the front is found in the cache, with its data, as long as the requests since have not together used or inserted as many entries as the cache has |
| BlockZero.FirstReadOfBlockZero | ext4-view-rs/src/block_cache.rs:96-118 | the first request for block zero returns the disk's data if and only if that block is all zeros or every initial entry has been pushed out |
| BlockZero.RunOfBlockZero | ext4-view-rs/src/block_cache.rs:96-252 | in any run, entries for block zero are zeroed ones until those have all been pushed out, and hold the disk's block from then on |
| BlockZero.BlockZeroExactly | ext4-view-rs/src/block_cache.rs:96-252 | after any run, a request for block zero that is answered returns the disk's data if and only if that block is all zeros or the zeroed entries have all been pushed out |
| BlockZero.BlockZeroCanBeStale | ext4-view-rs/src/block_cache.rs:96-118 | a new cache answers for block zero with zeros although the disk holds something else |
| FileReading.Ext4.constructor | ext4-view-rs/src/lib.rs:204-229 | a loaded filesystem starts with an empty journal map and a coherent cache, whose entries for block zero all hold that block or are all still zeroed |
| FileReading.Ext4.SetJournal | ext4-view-rs/src/lib.rs:230-232 | replacing the journal map later keeps the cache coherent and its entries as they are |
| FileReading.Ext4.ReadFromBlock | ext4-view-rs/src/lib.rs:300-364 | fails with BlockRead exactly on refused requests and on a start byte past 64 bits, with Io exactly when the read it needs fails, and otherwise copies the disk's bytes of the block the journal has for the index, or of that block itself, from the offset on, or zeros for block zero while zeroed entries for it are left, and touches nothing else in the destination |
| FileReading.Ext4.ReadableExactly | ext4-view-rs/src/lib.rs:300-335 | a read is allowed exactly within one block of the filesystem and not in its first 1024 bytes, after the journal is applied |
| FileReading.File.ReadBytes | ext4-view-rs/src/file.rs:86-197 | returns the slice of the file as read at the old position, as long as the file, the buffer and the block allow, and moves the position past it; an error changes neither position nor buffer; as read means the flat content, with zeros for blocks mapped to block zero while zeroed entries for it are left |
| FileReading.ChunkMaximal | ext4-view-rs/src/file.rs:86-176 | a read is short only at the end of the file or of a block |
| FileReading.File.ContentAt | ext4-view-rs/src/file.rs:139-176 | byte i of the content is zero in a hole, and otherwise byte i modulo the block size of the block the journal has for the file's block at i, or of that block itself, straight from the disk |
| FileReading.File.SeenAt | ext4-view-rs/src/file.rs:139-176 | the bytes as read before block zero is clean differ from the content only where the journal has block zero, in blocks over 1024 bytes |
| FileReading.File.SeekTo | ext4-view-rs/src/file.rs:208-223 | restarts the block iterator and puts the cursor at any position, also past the end |
| FileReading.File.ChunkContent | ext4-view-rs/src/file.rs:139-176 | within one block the bytes as read are that block seen through the journal, or zeros in a hole or in a block zero not yet read |
| FileReading.File.SeenApart | ext4-view-rs/src/file.rs:86-197 | the bytes as read are the flat content from the start when no readable block is mapped to block zero |
| FileReading.Session | ext4-view-rs/src/file.rs:86-223 | any sequence of reads and seeks yields exactly the slices of one flat byte sequence: of the content, except that up to one operation blocks mapped to block zero read as zeros; it never fails when no read fails and every block is on the disk |
| FileReading.ReadsConcatenate | ext4-view-rs/src/file.rs:86-197 | reading on in chunks of any lengths spells out the content from the starting position without gap or overlap |
| FileReading.ReadInodeFile | ext4-view-rs/src/lib.rs:372-389 | the loop over a shrinking buffer returns the whole content, except that up to one position blocks mapped to block zero are zeros; none are once the zeroed entries are gone or when no readable block is mapped there |
| DirectoryLayout.SlotRoundTrip | ext4-view-rs/src/dir_entry.rs:232-304 | a record laid out with inode, length, name length, file type and name is read back with exactly these fields, whatever follows it; one with inode zero is skipped |
| DirectoryLayout.ReadsExactly | ext4-view-rs/src/dir_entry.rs:232-304 | bytes are read as a record if and only if they begin with its fields: a length of at least eight, and an inode of zero or a valid name and a file type from 1 to 7 |
| DirectoryLayout.LeafRoundTrip | ext4-view-rs/src/dir_entry.rs:232-304 | every leaf block laid out from entries and unused records that fit their fields is read as exactly its entries, in order |
| DirectoryLayout.NodeRoundTrip | ext4-view-rs/src/dir_htree.rs:91-144 | every node laid out from its header and its hash and child pairs is read back with its count, its keys, the first being zero, and its children |
| DirectoryHtree.SearchStep | ext4-view-rs/src/dir_htree.rs:148-168 | each comparison narrows the search, and the subtraction cannot underflow because the header's key is zero |
| DirectoryHtree.LookupBlockByHash | ext4-view-rs/src/dir_htree.rs:148-168 | the binary search computes the searched child, and finds one whenever the header entry exists |
| DirectoryHtree.ChildForSlot | ext4-view-rs/src/dir_htree.rs:148-168 | in a sorted node the child is that of the last entry whose hash is at most the key |
| DirectoryHtree.FindLeafNode | ext4-view-rs/src/dir_htree.rs:283-341 | the level loop over one reused block buffer computes the recursive descent |
| DirectoryHtree.LeafAnswers | ext4-view-rs/src/dir_htree.rs:283-341 | in a tree with sorted nodes and disjoint ranges the leaf reached answers for the whole subtree |
| DirectoryHtree.ScanFinds | ext4-view-rs/src/dir_htree.rs:379-400 | the leaf scan finds the first entry with the name |
| DirectoryHtree.GetDirEntryViaHtree | ext4-view-rs/src/dir_htree.rs:352-401 | the lookup, with "." and ".." answered from the root block |
| DirectoryHtree.LookupIsScan | ext4-view-rs/src/dir_htree.rs:352-401 | at any depth, lookup returns the same entry or NotFound as a linear scan of ".", ".." and every leaf entry |
| DirectoryTree.TreeIsGood | ext4-view-rs/src/dir_htree.rs:283-341 | every tree laid out in blocks with the names of each leaf in its hash range is one that the descent is proved for |
| DirectoryTree.LaidOutIsGood | ext4-view-rs/src/dir_htree.rs:204-401 | so is every directory with its dot entries, header and root node in place |
| DirectoryTree.LookupFindsLaidOut | ext4-view-rs/src/dir_htree.rs:204-401 | in such a directory a lookup finds what a search of the entries laid out finds: those of "." and "..", then those of the leaves from left to right |
| DirectoryTree.OtherHashRefused | ext4-view-rs/src/dir_htree.rs:290-294 | a tree of another hash version is refused with that version, for every name but "." and ".." |
| DirectoryTree.WellFormedAtAnyDepth | ext4-view-rs/src/dir_htree.rs:283-401 | there is such a directory for every depth the header can hold |
| DeadlockDetection.DeadlockDetector.AddWaitEdge | crates/galleonfs/src/transaction.rs:407-410 | adds exactly that edge |
| DeadlockDetection.DeadlockDetector.RemoveWaitEdge | crates/galleonfs/src/transaction.rs:412-420 | removes exactly that edge and leaves no empty list behind |
| DeadlockDetection.DfsCycleDetection | crates/galleonfs/src/transaction.rs:442-471 | the search with one shared visited map ends, returns only simple cycles through the target, and otherwise leaves everything visited fully explored with no way back |
| DeadlockDetection.FindCycle | crates/galleonfs/src/transaction.rs:435-440 | a simple cycle from the start, or no deadlock passes through it |
| DeadlockDetection.NoDeadlockFrom | crates/galleonfs/src/transaction.rs:442-471 | after an unsuccessful search no closed walk through the target meets a second transaction |
| DeadlockDetection.DeadlockDetector.DetectDeadlock | crates/galleonfs/src/transaction.rs:422-433 | a returned list is a simple cycle of at least two transactions; none is returned if and only if there is no deadlock |
| Savepoints.ExtendedTransaction.Add | crates/galleonfs/src/transaction.rs:76-80 | appends the operation while the transaction is active, and otherwise changes nothing |
| Savepoints.ExtendedTransaction.Create | crates/galleonfs/src/transaction.rs:351-358 | the savepoint records the current operation count |
| Savepoints.ExtendedTransaction.RollbackToSavepoint | crates/galleonfs/src/transaction.rs:360-375 | cuts operations and later savepoints, or fails for an unknown savepoint |
| Savepoints.ExtendedTransaction.ReleaseSavepoint | crates/galleonfs/src/transaction.rs:377-384 | removes that savepoint, or fails for an unknown one |
| Savepoints.RunOrdered | crates/galleonfs/src/transaction.rs:343-393 | in every interleaving savepoint counts stay ordered and within the log |
| Savepoints.LiveRecords | crates/galleonfs/src/transaction.rs:343-393 | while a savepoint is live, the log still starts with the operations that existed when it was created |
| Savepoints.RollbackRestores | crates/galleonfs/src/transaction.rs:360-375 | rolling back to a live savepoint restores exactly those operations and keeps the savepoint as the last one |
| Savepoints.ListedExactly | crates/galleonfs/src/transaction.rs:351-384 | in every run a savepoint is still there exactly when it has not been released and no rollback went to an earlier one that was still there |
| Savepoints.OperationsExactly | crates/galleonfs/src/transaction.rs:76-384 | in every run a call adds its operation while the transaction is active, a rollback to a savepoint that is still there brings back the operations of when it was created, and no other call changes them |
| ObjectLocks.LockManager.CanAcquireLock | crates/galleonfs/src/transaction.rs:276-291 | granted exactly when nothing is held, or only shared locks are and a shared one is asked for |
| ObjectLocks.LockManager.TryAcquire | crates/galleonfs/src/transaction.rs:239-259 | one turn of the waiting loop is the attempt step |
| ObjectLocks.LockManager.ReleaseLock | crates/galleonfs/src/transaction.rs:261-274 | removes the transaction's locks on the object and an entry left empty |
| ObjectLocks.NoConflict | crates/galleonfs/src/transaction.rs:228-291 | in every run two locks on one object are both shared |
| ObjectLocks.HoldsExactly | crates/galleonfs/src/transaction.rs:239-274 | after any run a lock is held if and only if some attempt was granted it and the transaction did not release the object later |
| ObjectLocks.HeldByHistory | crates/galleonfs/src/transaction.rs:239-291 | from the history of calls alone: a lock is held exactly when an attempt for it came while nobody held the object, or while it and all locks held were shared, and no release by its transaction came after |
| ObjectIdGenerator.SimpleRng.NextU64 | crates/galleonfs/src/platform.rs:34-39 | the new state, 1103515245 times the old one plus 12345 modulo 2^64, is returned and stored |
| ObjectIdGenerator.NextExactly | crates/galleonfs/src/platform.rs:34-39 | the two wrapping operations are one on unbounded numbers, taken modulo 2^64 |
| ObjectIdGenerator.SumDivisible | crates/galleonfs/src/platform.rs:34-39 | for a multiplier that is 1 modulo 4, the geometric sum of n terms has exactly the powers of two that n has |
| ObjectIdGenerator.FullPeriod | crates/galleonfs/src/platform.rs:34-39 | a state returns if and only if the number of draws is a multiple of 2^64 |
| ObjectIdGenerator.DrawsDistinct | crates/galleonfs/src/platform.rs:34-39 | any 2^64 consecutive draws are pairwise distinct |
| ObjectIdGenerator.EveryValueDrawn | crates/galleonfs/src/lib.rs:44-48 | within a period every value is drawn, so also the root object's id |
| RunLists.MergeExact | crates/galleon2/src/allocation.rs:28-55 | for non-empty disjoint runs in order, merging joins adjacent runs and nothing else |
| EmptyRuns.EmptyRunSwallows | crates/galleon2/src/allocation.rs:28-55 | with 64-bit wrap-around an empty run at cluster zero claims to touch any run starting there and destroys its count |
| EmptyRuns.AddEmptyExactly | crates/galleon2/src/allocation.rs:70-105 | an empty run changes nothing where a run of the list ends, and leaves the list invalid anywhere else outside it |
| RunLists.AddRun | crates/galleon2/src/allocation.rs:70-105 | the sort and the merge loop compute the specified list and total |
| RunLists.AddRunCorrect | crates/galleon2/src/allocation.rs:70-105 | adding a disjoint non-empty run keeps the list sorted, disjoint and maximally merged with the right total, which does not wrap, and denotes exactly the union |
| RunLists.FindCluster | crates/galleon2/src/allocation.rs:107-117 | the scan with its wrapping counter, which is the virtual-to-physical mapping whenever the counts sum below 2^64 |
| RunLists.ScannedExact | crates/galleon2/src/allocation.rs:107-117 | on lists whose runs and sum stay below 2^64 the wrapping scan finds exactly the cluster with that number |
| RunLists.ClusterAtMember | crates/galleon2/src/allocation.rs:107-117 | every number below the total maps into the list |
| RunLists.ClusterAtIncreasing | crates/galleon2/src/allocation.rs:107-117 | the mapping is strictly increasing |
| RunLists.ClusterAtOnto | crates/galleon2/src/allocation.rs:107-117 | every cluster of the list has a number below the total |
| RunLists.AppendKeepsNumbers | crates/galleon2/src/allocation.rs:519-547 | a run at or above the end keeps all existing numbers and continues them |
| RunLists.NumbersKeptExactly | crates/galleon2/src/allocation.rs:70-105 | adding a run keeps all existing numbers if and only if it lies at or above the end of the list |
| ClusterBitmaps.ClusterBitmap.IsClusterFree | crates/galleon2/src/allocation.rs:251-269 | a cluster is free exactly when it exists and its bit is clear: bit number modulo 8, from the lowest, of byte number over 8 |
| ClusterBitmaps.ClusterBitmap.SetClusterUsed | crates/galleon2/src/allocation.rs:271-291 | sets that bit and no other, or fails past the end |
| ClusterBitmaps.ClusterBitmap.SetClusterFree | crates/galleon2/src/allocation.rs:293-313 | clears that bit and no other, or fails past the end |
| ClusterBitmaps.ClusterBitmap.MarkRunUsed | crates/galleon2/src/allocation.rs:426-431 | sets the bits of the range from the run's start to its wrapped end that exist, so none when the end wraps; fails exactly when that range is not empty and reaches past the disk |
| ClusterBitmaps.ClusterBitmap.MarkRunFree | crates/galleon2/src/allocation.rs:433-438 | clears them likewise |
| ClusterBitmaps.ClusterBitmap.GetFreeClusterCount | crates/galleon2/src/allocation.rs:440-457 | the number of clear bits |
| ClusterBitmaps.ClusterBitmap.FindFirstFit | crates/galleon2/src/allocation.rs:325-361 | the lowest start of a fully free window, or none when there is none |
| ClusterBitmaps.ClusterBitmap.FindBestFit | crates/galleon2/src/allocation.rs:363-418 | the start of the smallest sufficient maximal free segment, the earliest on ties, or none when there is none |
| ClusterBitmaps.ClusterBitmap.FindFreeClusters | crates/galleon2/src/allocation.rs:315-323 | dispatches on the strategy; next-fit is first-fit |
| ClusterBitmaps.BestFitNone | crates/galleon2/src/allocation.rs:325-418 | both strategies find nothing in exactly the same bitmaps |
| ClusterOwnership.GiveExactly | crates/galleon2/src/allocation.rs:490-503 | returning a run keeps ownership if and only if the file holds that very run, no cluster of it is in use, or its end wraps past 2^64 so that nothing is freed |
| ClusterOwnership.TakeEmptyExactly | crates/galleon2/src/allocation.rs:475-488 | handing out an empty run changes nothing where a run of the file ends, and breaks ownership at any other free cluster |
| ClusterAllocation.ClusterAllocator.AllocateClusters | crates/galleon2/src/allocation.rs:475-488 | takes a run the strategy finds and records it, or changes nothing |
| ClusterAllocation.ClusterAllocator.ExtendAllocation | crates/galleon2/src/allocation.rs:519-551 | extends in place when the range after the last run is free, which a wrapping range always is, else allocates elsewhere |
| ClusterAllocation.ClusterAllocator.DeallocateClusters | crates/galleon2/src/allocation.rs:490-503 | frees the bits of the run's range and removes the run from the file's list when it is there; fails exactly when the range reaches past the disk |
| ClusterAllocation.ClusterAllocator.DeallocateAllClusters | crates/galleon2/src/allocation.rs:505-513 | frees everything the file holds and forgets the file |
| ClusterAllocation.ClusterAllocator.DefragmentFile | crates/galleon2/src/allocation.rs:566-591 | moves a file to one run when there is room, else changes nothing |
| ClusterEffects.AllocateEffect | crates/galleon2/src/allocation.rs:475-488 | allocating some clusters gives the file a free window of that size, the lowest one or the smallest sufficient segment by strategy, changes no other file and no other bit, and fails exactly when there is none |
| ClusterEffects.ExtendEffect | crates/galleon2/src/allocation.rs:519-551 | extending takes exactly the clusters after the last run when they are all free, and otherwise allocates |
| ClusterEffects.DeallocateEffect | crates/galleon2/src/allocation.rs:490-503 | returning a run that the file holds frees exactly its clusters and takes them off the file's total; no other file or bit changes |
| ClusterEffects.DeallocateNothing | crates/galleon2/src/allocation.rs:490-503 | returning a run none of whose clusters is in use changes nothing |
| ClusterEffects.DeallocateAllEffect | crates/galleon2/src/allocation.rs:505-513 | the file is forgotten and exactly the clusters of its list are freed, as many as its total; no other file or bit changes |
| ClusterEffects.DefragmentEffect | crates/galleon2/src/allocation.rs:566-591 | the file's list is one run, the lowest free window of its size, the clusters it had are free, the free count and all other files and bits are as before; without such a window nothing changes |
| ClusterAllocation.StepConsistent | crates/galleon2/src/allocation.rs:475-591 | a step keeps the used bits the disjoint union of the reserved clusters and the files' clusters if and only if it is legal: a request for some clusters, or for none where a run of the file ends; an extension of a file that stays below 2^64; the return of a run that the file holds, that is not in use or whose end wraps |
| ClusterAllocation.Conservation | crates/galleon2/src/allocation.rs:440-457 | then free count + reserved + all files' totals is the size of the disk |
| ClusterAllocation.RunConserves | crates/galleon2/src/allocation.rs:475-591 | both hold at every point of every run of legal steps: no cluster has two owners and reserved clusters are never handed out or freed |
| ClusterAllocation.RunExactly | crates/galleon2/src/allocation.rs:475-591 | ownership holds all along a run if and only if every step of it is legal |
| ClusterAllocation.ZeroRequestLosesClusters | crates/galleon2/src/allocation.rs:475-488 | on a blank disk, allocating no clusters and then n to one file leaves it with an empty run and the n used clusters without an owner |
| ClusterAllocation.ExtensionKeepsNumbers | crates/galleon2/src/allocation.rs:519-547 | extending in place keeps every virtual cluster number of the file if and only if it is not a file of one run from cluster zero extended to exactly 2^64 |
| WrappedRuns.WrappingInvalid | crates/galleon2/src/allocation.rs:70-105 | a run that starts at the end of a list and reaches 2^64 always leaves the list invalid |
| WrappedRuns.WrappingNumbers | crates/galleon2/src/allocation.rs:70-117 | such a run keeps every virtual number if and only if the last run does not start at cluster zero or the sum is not 2^64 |
| ClusterAllocation.WrappingLosesCluster | crates/galleon2/src/allocation.rs:519-547 | extending a file that holds cluster zero by 2^64 - 1 clusters succeeds and leaves it with an empty run, and cluster zero in use without an owner |
| LittleEndian.LeRoundTrip | crates/galleon2/src/mft.rs:188-308 | a number that fits a field's width is read back as it was written |
| MftCodec.MftRecord.constructor | crates/galleon2/src/mft.rs:122-170 | a new record is well built and has no attributes |
| MftCodec.MftRecord.AddAttribute | crates/galleon2/src/mft.rs:172-186 | appends the attribute, counts it and recomputes the bytes in use; a well-built record stays one |
| MftCodec.SerializeAttribute | crates/galleon2/src/mft.rs:405-482 | header, body, run list and padding loop give the attribute's encoding |
| MftCodec.MftRecord.Serialize | crates/galleon2/src/mft.rs:188-233 | the buffer writes give the record's 1024 bytes, or panic where they run past the buffer |
| MftCodec.ReadAttributes | crates/galleon2/src/mft.rs:288-301 | the attribute loop, with its panics, errors and the endless case of a zero length |
| MftCodec.Deserialize | crates/galleon2/src/mft.rs:235-308 | decoding checks size, signature and byte counts, then reads the attributes |
| MftRoundTrip.Layout | crates/galleon2/src/mft.rs:188-233 | an encoded record is header, attributes, end marker and zeros; encoding panics if and only if that is more than 1024 bytes |
| MftRoundTrip.HeaderRoundTrip | crates/galleon2/src/mft.rs:192-282 | every header field is read back from its place |
| MftRoundTrip.ResidentRoundTrip | crates/galleon2/src/mft.rs:405-534 | a resident attribute is read back whatever follows it |
| MftRoundTrip.RecordRoundTrip | crates/galleon2/src/mft.rs:172-308 | a record that fits comes back as written if and only if all its attributes are resident with content lengths divisible by 8 |
| MftRoundTrip.OneByteLost | crates/galleon2/src/mft.rs:288-301 | a record with one byte of content does not come back |
| MftFormat.DecodeExactly | crates/galleon2/src/mft.rs:235-309 | data is decoded to a record if and only if it has 1024 bytes and begins with that header, field by field by offset, with "FILE", 1024 bytes allocated and no more in use, and with those attributes where the header says |
| MftFormat.DecodeRefuses | crates/galleon2/src/mft.rs:235-288 | data that is too short or whose signature or sizes are not a record's is an invalid parameter |
| MftFormat.HeaderWritten | crates/galleon2/src/mft.rs:188-215 | a record is written with each header field at its offset |
| MftFormat.ResidentWritten | crates/galleon2/src/mft.rs:358-433 | a new resident attribute is written with the code of its type, its length and its content at byte 24 |
| MftFormat.NonResidentWritten | crates/galleon2/src/mft.rs:434-467 | run i of a non-resident attribute is written at byte 64 + 16 * i, its count first |
| MftFormat.NonResidentShifts | crates/galleon2/src/mft.rs:434-530 | the sizes of a non-resident attribute are read eight bytes before where they are written, so it comes back with 40, the allocated size and the real size, and without its runs |
| MftStores.AddressExact | crates/galleon2/src/mft.rs:553-568 | for cluster sizes 1024, 2048 and 4096, record n lies at 1024 * (records before the table + n) modulo the wrap of the 32-bit sector number |
| MftStores.StoreRefuses | crates/galleon2/src/mft.rs:553-595 | clusters below 1024 bytes are an error, clusters over 4096 bytes panic, clusters not all on the drive are a drive error, and nothing else is refused before the record is looked at |
| MftStores.Slots | crates/galleon2/src/mft.rs:553-595 | two record numbers share bytes if and only if they agree modulo 2^31, and are disjoint otherwise |
| MftStores.WriteOneSlot | crates/galleon2/src/mft.rs:572-595 | writing a record sets its own slot and leaves every other slot as it was |
| MftStores.ReadsLastWrite | crates/galleon2/src/mft.rs:553-595 | after any run of writes, the last record written to a slot is read back if and only if its attributes allow it |
| MftStores.UntouchedStays | crates/galleon2/src/mft.rs:572-595 | slots no write names read as before the run |
| MftStores.MftManager.Read | crates/galleon2/src/mft.rs:553-570 | reading picks the record out of its cluster; a too small or too large cluster size is an error or a panic |
| MftStores.MftManager.Write | crates/galleon2/src/mft.rs:572-595 | read-modify-write of the cluster changes exactly the record's bytes; every failure leaves the drive as it was |
| PageManagers.RealMemoryManager.New | crates/Statue/src/memory.rs:109-139 | fails exactly on unaligned sizes; otherwise all pages are free and all memory zero |
| PageManagers.RealMemoryManager.AllocatePhysicalPage | crates/Statue/src/memory.rs:142-144 | pops the last free page, or fails when there is none |
| PageManagers.RealMemoryManager.Map | crates/Statue/src/memory.rs:152-173 | is the mapping step and keeps the partition |
| PageManagers.RealMemoryManager.Unmap | crates/Statue/src/memory.rs:176-185 | is the unmapping step and keeps the partition |
| PageManagers.RealMemoryManager.Protect | crates/Statue/src/memory.rs:188-197 | changes only the protection of that page |
| PageManagers.RealMemoryManager.MapEach | crates/Statue/src/memory.rs:248-271 | the mapping loop with its cleanup loop and its wrapping arithmetic is the specified step and keeps the partition on success and on failure |
| PageManagers.RealMemoryManager.ReadVirtual | crates/Statue/src/memory.rs:212-222 | the bytes behind the address, the error, or a panic on a slice that ends before it starts |
| PageManagers.ReadExactly | crates/Statue/src/memory.rs:212-222 | reading a mapped address panics if and only if address and size sum to 2^64 or more, is refused if and only if they otherwise reach past the memory, and else returns the bytes |
| PageManagers.RealMemoryManager.WriteVirtual | crates/Statue/src/memory.rs:225-245 | overwrites the bytes behind the address, or changes nothing |
| PageManagers.WriteExactly | crates/Statue/src/memory.rs:225-245 | writing is refused for an address that is not mapped, exactly with PermissionDenied for a mapped page that may not be written, exactly with InvalidOffset for an end past the memory, and otherwise replaces the bytes from the address on and no others |
| PageManagers.ProtectedStays | crates/Statue/src/memory.rs:188-245 | after write access is taken from a page every write to it is refused, after it is given none is for that reason, and reads are as before |
| PageManagers.RealMemoryManager.Stats | crates/Statue/src/memory.rs:274-285 | used memory is mapped pages times the page size, and used and free memory make up the whole |
| PageTables.RunPartition | crates/Statue/src/memory.rs:109-271 | in every reachable state each physical page is free exactly once or mapped exactly once, also after a failed map_range |
| PageTables.MapExactly | crates/Statue/src/memory.rs:152-173 | mapping succeeds exactly on a page that is not mapped while fewer pages are mapped than there are frames, gives it a frame no page had, keeps every other mapping, and unmapping it leads back to the state before |
| PageTables.UnmapExactly | crates/Statue/src/memory.rs:176-185 | unmapping succeeds exactly on a mapped page, keeps every other mapping, and its frame is the next one handed out |
| PageTables.ProtectExactly | crates/Statue/src/memory.rs:188-197 | protecting succeeds exactly on a mapped page and changes its protection, nothing else |
| PageTables.CountWraps | crates/Statue/src/memory.rs:249-252 | the page count is the true one modulo 2^52 |
| PageTables.RangeCovers | crates/Statue/src/memory.rs:248-257 | short of the whole address space, the pages gone through are exactly those that meet the range, also where it wraps past the last address |
| PageTables.RangeMapsPages | crates/Statue/src/memory.rs:248-271 | a successful map_range maps exactly the pages it goes through, none mapped before, each to the frame returned for it, and changes no other mapping |
| PageTables.RangeMapsCovering | crates/Statue/src/memory.rs:248-271 | a successful map_range has mapped exactly the pages that meet the range if and only if the range, counted from the start of its first page, leaves at least a page of the address space |
| PageTables.WholeSpaceMapsNothing | crates/Statue/src/memory.rs:248-271 | the largest range from address zero succeeds and maps nothing |
| PageTables.RangeFails | crates/Statue/src/memory.rs:248-271 | a failed map_range has mapped its first pages and then unmapped the addresses of their frames; the mappings are as before if and only if each of those pages is the address of one of those frames and none of them is that of a page mapped before |
| PageTables.FailedRangeLeaks | crates/Statue/src/memory.rs:248-271 | with one frame, mapping two pages fails and leaves the first one mapped |
| PageManagers.WriteReadBack | crates/Statue/src/memory.rs:212-245 | what was written is read back at the same address |
| PageManagers.InPageWrite | crates/Statue/src/memory.rs:225-245 | a write that stays in its page changes no byte behind any other mapping |
| PageManagers.WriteBytes | crates/Statue/src/memory.rs:225-245 | every byte behind every mapping after a write of any length: the data where the write reaches, the old byte elsewhere |
| PageManagers.OthersKeptExactly | crates/Statue/src/memory.rs:225-245 | writes of a length keep the bytes behind every other mapping if and only if no other mapped frame meets the bytes written |
| PageManagers.SpillIsReachable | crates/Statue/src/memory.rs:225-245 | after mapping two pages of a pool of two, one byte too many written to the second changes the first byte of the first |
| GalleonPathText.ParsePath | crates/galleonfs/src/directory.rs:197-229 | the component loop computes the parsed path or the first error |
| GalleonPathText.ParseExactly | crates/galleonfs/src/directory.rs:197-229 | the empty path is refused, otherwise the first component of more than 255 bytes or with a null byte, otherwise the path is absolute exactly when it starts with a separator and its components are the pieces between separators, in order |
| GalleonPathText.OwnedPath.Normalize | crates/galleonfs/src/directory.rs:231-267 | the loop over the drained list computes the normalised components |
| GalleonPathText.OwnedPath.JoinWith | crates/galleonfs/src/directory.rs:291-305 | joins without changing either path |
| GalleonPathText.OwnedPath.Render | crates/galleonfs/src/directory.rs:307-343 | the printing loop computes the printed path |
| GalleonPathText.PrintedExactly | crates/galleonfs/src/directory.rs:307-343 | the texts of the components joined by single separators, after one separator for an absolute path, or two where "." or ".." follows the root; "." for a path without a component |
| GalleonPaths.NormalizedIsNormal | crates/galleonfs/src/directory.rs:231-267 | the result is the root or leading ".."s, and then names |
| GalleonPaths.NormalizeKeepsMeaning | crates/galleonfs/src/directory.rs:231-267 | normalising keeps what a path does to every stack of directories, the root being its own parent |
| GalleonPaths.NormalFormUnique | crates/galleonfs/src/directory.rs:231-267 | two normal forms that mean the same are the same, component for component |
| GalleonPaths.NormalizeIdempotent | crates/galleonfs/src/directory.rs:231-267 | normalising twice is normalising once |
| GalleonPaths.SameMeaningIffNormalizedAlike | crates/galleonfs/src/directory.rs:231-267 | two paths mean the same if and only if they normalise alike |
| GalleonPaths.JoinComposes | crates/galleonfs/src/directory.rs:291-305 | the joined path means the first path followed by the second |
| GalleonPaths.JoinAssociative | crates/galleonfs/src/directory.rs:291-305 | joining is associative, also where absolute paths are returned as they are |
| GalleonPathText.PrintThenParse | crates/galleonfs/src/directory.rs:307-343 | a proper path is printed and parsed back to itself if and only if it has a component |
| GalleonPathText.ParsedExactly | crates/galleonfs/src/directory.rs:197-229 | parsing produces exactly the proper paths with a component |
| GalleonPathText.ParsePrintParse | crates/galleonfs/src/directory.rs:197-229 | every parsed path survives printing and parsing |
| GalleonPathText.JoinedRoundTrip | crates/galleonfs/src/directory.rs:291-343 | a joined path stays proper and survives unless it came to nothing |
| GalleonDirectories.LessTotal | crates/galleonfs/src/directory.rs:27-29 | the order of the map's keys is a strict total order |
| GalleonDirectories.LessExactly | crates/galleonfs/src/directory.rs:27-29 | a key is less at the first byte where the two differ, or where it ends first |
| GalleonDirectories.Directory.AddEntry | crates/galleonfs/src/directory.rs:38-45 | fails exactly on a name that is there; otherwise adds that entry at its place in the order |
| GalleonDirectories.Directory.Serialize | crates/galleonfs/src/directory.rs:75-114 | the loop computes the encoding or NameTooLong |
| GalleonDirectories.Directory.Deserialize | crates/galleonfs/src/directory.rs:116-177 | the loop computes the decoded, ordered directory or the error |
| GalleonDirectories.EncodeFails | crates/galleonfs/src/directory.rs:86-91 | serialising fails if and only if some name has more than 65535 bytes |
| GalleonDirectories.DecodeSorted | crates/galleonfs/src/directory.rs:116-177 | whatever bytes are decoded, the result is ordered and has each name once |
| GalleonDirectories.DirectoryRoundTrip | crates/galleonfs/src/directory.rs:75-177 | a serialised directory comes back as it was if and only if its entry count fits 32 bits |
| GalleonFormat.DecodeExactly | crates/galleonfs/src/directory.rs:116-177 | data is decoded if and only if it begins with an entry count and that many entries, byte by byte, with different names that are strings; the result is those entries in the order of their names |
| GalleonFormat.EncodeWrites | crates/galleonfs/src/directory.rs:75-114 | the low 32 bits of the count are written, then each entry where the one before it ends |

## Left out

- Drivers, boot code, the console, userspace loading and the shell: hardware and console plumbing.
- The sources of a file's block list (extents, block maps), directory iteration and the journal loader: block lists and journal maps are given sequences and maps.
- Checksums and the half-MD4 hash: the directory hash is a parameter, and blocks that fail their checksum count as unreadable.
- GalleonFS transaction states, two-phase commit, conflict detection, replay, compression, encryption and quotas: stubs in the source.
- The Galleon2 B-tree: the entry header it writes is shorter than the one it reads, so no search or round-trip claim would describe it.
- Statue's instruction interpreters, relocation and ELF parsing.
- Run list serialisation, `Path::parent`, `Path::file_name` and the directory lookups: they would only add easy members.
- Waiting in `acquire_lock`: an attempt is a step that is granted or not; nothing is said about progress.
- The mutexes around shared tables: each method is one atomic step.
- RunLists.AddRun: a run list is a value that the method returns changed, not an object updated in place, because the allocator keeps lists in a map by file.
- DeadlockDetection.DfsCycleDetection: the visited map and the path are passed in and returned, not updated through references.
- ClusterBitmaps.ClusterBitmap.FindFreeClusters: loading and flushing the bitmap are left out.
- MftStores.MftManager.Write: a drive ends where its bytes end; the driver's 28-bit address limit is not modelled.
- MftStores.Slots: stated for cluster sizes 1024, 2048 and 4096; for other sizes the slots of wrapped sector numbers may overlap partly.
- MftRoundTrip.RecordRoundTrip: an attribute's name is left out; both constructors leave it empty, and neither the encoder nor the decoder looks at it.
- GalleonDirectories.DirectoryRoundTrip: which byte strings are valid UTF-8 is a parameter.
- GalleonPathText.OwnedPath.JoinWith: an absolute path is returned itself, not a copy of it.
