# Verified models of the systems components

This project models the parts of the repository in which correctness is hard to see, and proves in
Dafny what they promise. Each group of files stands for one source file.

**Concurrent search tree** (`Bst*.dfy`, for `bst.c`). Threads, nodes with locks, and one step for each
lock acquisition or release, each write under a lock, each allocation and each free. `BstMachine` is the
step system; touching freed memory, releasing a lock that is not held and destroying a held lock are
the outcome `Fault`. `BstTree` and `BstEdits` are the sequential tree, its search paths, and what a
pointer write in the heap means for them. `BstInvariant` states that the search path of every thread
runs through the node it holds, and that nobody is on the part of a left spine that a deleter has
walked. `BstSteps`, `BstCases` and `BstDeletes` prove that every step keeps this, and `BstTheorems` draws
the conclusions for whole runs: linearizability to a finite map, results that the map and malloc determine, no fault, no deadlock.
`BstProgress` shows that every step brings its operation nearer to its end. A deletion of a
node with two children takes effect when the key of the successor is copied: from there until the
successor is cut out, the logical tree differs from the heap.

**Redo log and buffer cache** (`Log*.dfy`, for `log.c` and `bio.c`). Processes run operations
concurrently, the commit and the recovery write one block per step, and the machine may crash at any
step, also inside recovery. The proofs follow an abstract disk: what is durable, and what has been
logged on top of it. The writing of one block is atomic. The number of buffers is limited, and bget panics
when all are dirty or held.

mkfs makes the log LOGSIZE blocks long, header included, so it holds one block less than a full header,
and `log_write` checks the room without the lock. `LogPanic.HeaderOutgrows` is a run in which the header
gets more entries than the log has blocks. What follows depends on the buffers: `LogPanic.SafeExactly`
says for which configurations every run is crash safe. The disk of mkfs is (`LogPanic.MkfsDisk`), only
because a group of 30 blocks pins all 30 buffers: `LogPanic.MkfsCommitStops` is a run on that disk whose
commit panics before it writes, and `LogBuffers.CommitEndsExactly` says when a commit gets the buffers it
needs. With one more buffer a home block would be overwritten. `LogTheorems` has
what holds in the runs whose groups fit, `LogSound` why in those configurations they always do, `LogRoom`
what holds in every run. Panics of `log_write` are possible although no operation logs more than
MAXOPBLOCKS blocks: on a block that is in the header already, because the check stands before absorption
(`LogPanic.PanicsWithinBounds`), and on the disk of mkfs also on a new block
(`LogPanic.PanicsOnFreshBlock`); `LogRoom.LogWritePanics` says exactly when.

**File contents** (`Fs*.dfy`, for the content layer of `fs.c`). Direct blocks, an indirect block of
little-endian entries and a bit map behave as flat byte arrays that never share a block. `FsBlocks` holds
bits, entries and ownership, `FsContent` what single block writes do to the bytes of all files, `FsFile`
the operations. Files have no holes, so `Readi` needs no allocation, and what was written can always be read
back (`FsFile.FileSystem.WriteThenRead`).

**mmap regions and demand paging** (`Wmap*.dfy`, for `wmap.c`). `WmapRegions` is the sorted list of
regions with C's 32-bit sums written out, `WmapList` the list threaded through sixteen slots, `WmapPages`
present pages and frames, `WmapProc` the system calls and the page fault, `WmapFork` the copy that fork
makes. A wpunmap request that covers a whole region leaves a region of length 0, and one whose end wraps
round in 32 bits corrupts a region: `WmapProc.Proc.Wpunmap` and `WmapRegions.TrimExactly` give the exact
condition under which the list stays in order. A fault on a page that starts beyond the end of the file
behind its region returns FAILED but leaves the page mapped and not counted (`WmapProc.Proc.PageFault`).
A wpunmap that needs a slot for its second half and finds
none returns FAILED after it has freed the pages.

**Heap allocators** (`HeapLayout.dfy` and `P3Heap.dfy` for `p3Heap.c`, `Umalloc*.dfy` for `umalloc.c`).
The best-fit heap is an array of words with headers and footers, proved against a sequence of blocks.
The circular free list of `umalloc.c` is a memory of headers, proved against a sorted list in which
every unit obtained from sbrk belongs to one free block or one block in use. malloc computes the number
of units in unsigned 32-bit arithmetic: `Umalloc.UnitsSuffice` says exactly when they hold the request, and
`Umalloc.GrowsMemory` when sbrk is asked for a positive number of bytes. For other requests sbrk supplies no
memory, and the header that morecore writes lies beyond the end of the process (`Umalloc.SbrkSupplies`).

**Thread pool** (`Pool*.dfy`, for `threadpool.c`). The bounded ring and the critical sections on it are a
class; workers, submitters and the destroyer are a step system with the condition variables of POSIX.1
(IEEE Std 1003.1), spurious wakeups included. The description of threadpool_destroy promises -1 to a
submitter that it wakes. It frees the pool without waiting for that submitter, though:
`PoolTheorems.DestroyRace` is a run in which the submitter takes the mutex of the freed pool, and
`PoolTheorems.FaultExactly` and `FaultAheadExactly` say exactly when memory is safe.

**Cache simulator** (`LruStack.dfy`, `LruBlocks.dfy`, `CacheSim.dfy`, for `csim.c`). The table of lines with
timestamps refines the recency order of each set; `LruBlocks` says the same in terms of memory blocks.

**Matrix product** (`Gemm.dfy`, for `MatMatMultiply.cpp`). The blocked, packed kernel makes the same
additions and multiplications in the same order as the naive loop, for operations about which nothing
is assumed.

**Regular expressions** (`Grep.dfy`, for the matcher in `grep.c`). The backtracking matcher accepts
exactly the language of the parsed pattern.

**Magic square** (`MagicSquare.dfy`, for `my_magic_square.c`). The Siamese walk and the modular
arithmetic behind it.

`Counting.dfy` holds what the log header, the slot array and the cache need to know about sequences
without repetition.
`dafny verify dfyconfig.toml` checks the whole project.

## Model

| member | source | states |
|---|---|---|
| BstTheorems.Linearizable | Thread pool + 并发二叉树/solution/bst.c:91-322 | every run, in every interleaving of inserts, lookups and deletes, is step by step a run of the atomic map with the same calls, returns and results; the logical tree always has the map's contents |
| BstTheorems.TakesEffectOnce | Thread pool + 并发二叉树/solution/bst.c:91-322 | each completed operation takes effect in exactly one step between its call and its return, and its result is what the map answered in that step |
| BstTheorems.CodesTell | Thread pool + 并发二叉树/solution/bst.c:87-90 | 0 is returned for an insertion that was made and for a lookup or deletion of a key that was there; -1 means that nothing has changed |
| BstTheorems.Determined | Thread pool + 并发二叉树/solution/bst.c:87-148 | in every run the calls are those asked for, and the result of an operation is determined by the map and by malloc in the step in which it takes effect: an insertion of an absent key is made if malloc has memory and answers -1 with nothing changed if it has not, so while malloc does not fail an insertion is made if and only if its key is absent |
| BstTheorems.AnswerOf | Thread pool + 并发二叉树/solution/bst.c:123-148 | bst_insert answers that there is no memory only in a step in which malloc fails, and that it made the insertion only in one in which malloc does not |
| BstProgress.StepWorks | Thread pool + 并发二叉树/solution/bst.c:91-322 | every step of an operation lowers the bound on the steps that it still takes, four for each level of the tree below its place and a fixed number after that |
| BstProgress.FinishesAlone | Thread pool + 并发二叉树/solution/bst.c:91-322 | in every run, a thread that runs without the others getting in between finishes within a number of steps bounded by the height of the tree |
| BstTheorems.HistoryReplays | Thread pool + 并发二叉树/solution/bst.c:91-322 | the operations in the order in which they took effect are a legal sequential history that ends in the map's contents |
| BstTheorems.EveryRunSettled | Thread pool + 并发二叉树/solution/bst.c:91-322 | in any run, when no copying of a successor is under way, the heap is a search tree holding exactly the map; when all threads are idle it holds nothing else and no lock is held |
| BstTheorems.EveryRunSafe | Thread pool + 并发二叉树/solution/bst.c:112-156 | in any run no step faults: no access to freed memory, no unlock of a lock not held, no destruction of a held lock, and no thread holds or waits for the lock of a freed node |
| BstTheorems.EveryRunAcyclic | Thread pool + 并发二叉树/solution/bst.c:112-156 | in any run a chain of threads waiting for each other's locks never closes |
| BstTheorems.EveryRunGoesOn | Thread pool + 并发二叉树/solution/bst.c:112-156 | in any run, while an operation is unfinished, some unfinished operation can take a step, whatever free memory malloc hands out or if it fails |
| BstTheorems.RunTrees | Thread pool + 并发二叉树/solution/bst.c:91-322 | every run is explained by a sequence of trees, each step changing the tree as one step of the atomic map or not at all |
| BstTheorems.Safe | Thread pool + 并发二叉树/solution/bst.c:173-194 | from the invariant: no fault, and whatever is held or wanted is allocated |
| BstTheorems.DownTheTree | Thread pool + 并发二叉树/solution/bst.c:204-232 | the lock a thread wants lies strictly below every lock it holds, also on the successor walk |
| BstTheorems.NoWaitCycle | Thread pool + 并发二叉树/solution/bst.c:241-319 | along a chain of waiting threads the wanted locks lie deeper and deeper |
| BstTheorems.NoDeadlock | Thread pool + 并发二叉树/solution/bst.c:241-319 | an unfinished operation can step, or one it waits for, directly or through others, can, with every outcome of malloc |
| BstTheorems.Settled | Thread pool + 并发二叉树/solution/bst.c:204-232 | outside a copy, the raw heap spells out the logical tree |
| BstDeletes.StepKeeps | Thread pool + 并发二叉树/solution/bst.c:91-322 | every step of every thread keeps the invariant (search paths run through held nodes, segments walked stay clear, lock ownership, no leaks) and acts as one step of the atomic map |
| BstDeletes.UnlinkCase | Thread pool + 并发二叉树/solution/bst.c:253-318 | writing the child pointer of the parent removes exactly the deleted key, at the unlink |
| BstDeletes.CopyCase | Thread pool + 并发二叉树/solution/bst.c:220-220 | overwriting cur->key with the successor's key is the linearization point of a two-children delete; the contents lose exactly the deleted key although the successor is still linked |
| BstDeletes.CopyValueCase | Thread pool + 并发二叉树/solution/bst.c:221-221 | copying the value does not show in the logical tree |
| BstDeletes.SpliceCase | Thread pool + 并发二叉树/solution/bst.c:223-228 | cutting the successor out does not show in the logical tree |
| BstDeletes.FreeCase | Thread pool + 并发二叉树/solution/bst.c:230-256 | a node is freed only when nobody holds or waits for its lock |
| BstSteps.NotWalked | Thread pool + 并发二叉树/solution/bst.c:209-218 | lock coupling forbids overtaking: what a deleter has walked of the left spine stays out of everyone else's reach |
| BstSteps.AcquireStep | Thread pool + 并发二叉树/solution/bst.c:136-138 | locking a child of a held node keeps every search path running through the node its thread holds |
| BstCases.InsertCase | Thread pool + 并发二叉树/solution/bst.c:123-148 | linking a new leaf adds exactly the new pair and is answered 0; when the allocation fails nothing changes and the answer is -1 |
| BstCases.CompareCase | Thread pool + 并发二叉树/solution/bst.c:117-156 | a duplicate or a lookup is answered by the comparison under the lock, and the answer is the map's |
| BstInvariant.FrameRem | Thread pool + 并发二叉树/solution/bst.c:204-232 | a removal keeps the search path of every other thread through the node that thread holds |
| BstInvariant.FrameIns | Thread pool + 并发二叉树/solution/bst.c:123-148 | linking a leaf keeps the position of every other thread |
| BstEdits.RemTwoRep | Thread pool + 并发二叉树/solution/bst.c:204-232 | on the heap, copying the successor and cutting it out is the removal of the key from the tree |
| BstEdits.RemOneRep | Thread pool + 并发二叉树/solution/bst.c:307-310 | on the heap, linking the only child to the parent is the removal of the key from the tree |
| BstEdits.InsRep | Thread pool + 并发二叉树/solution/bst.c:123-148 | on the heap, linking a leaf at the end of the search path is the insertion into the tree |
| BstEdits.RemValue | Thread pool + 并发二叉树/solution/bst.c:235-322 | the removed key is gone, every other key keeps its value, and the tree stays ordered |
| BstEdits.InsValue | Thread pool + 并发二叉树/solution/bst.c:91-158 | the inserted key has its value, every other key keeps its own, and the tree stays ordered |
| BstEdits.SpineWhole | Thread pool + 并发二叉树/solution/bst.c:209-218 | the walk ends at the in-order successor and has covered the whole left spine |
| LogTheorems.CrashSafe | xv6 wmap/solution/log.c:68-202 | at every point of every run whose groups fit in the log, with crashes anywhere, recovery from the disk as it stands would restore exactly the durable contents, and these change only in one step, from one whole committed group to the next, with no operation under way |
| LogTheorems.RecoveryCompletes | xv6 wmap/solution/log.c:115-122 | in such a run, after any number of crashes also inside recovery, a completed recovery leaves on every home block what recovery from the disk at its start promises, and recovering once more changes nothing |
| LogTheorems.StepWholeGroups | xv6 wmap/solution/log.c:192-202 | one step makes all of the logged contents durable or none of them |
| LogSound.SoundContains | xv6 wmap/solution/log.c:214-221 | if the log holds a full header, or holds nothing, or has at least as many blocks as there are buffers, every group that is copied to the log fits there, in every run |
| LogSound.ContainedLosesNothing | xv6 wmap/solution/log.c:68-202 | in a run whose groups fit, every step leaves what recovery would restore as it was, but for the writing of the header, which replaces it on all home blocks by what has been logged |
| LogPanic.SafeExactly | xv6 wmap/solution/log.c:176-221 | on any disk with room behind the log, every step of every run is atomic for recovery, the writing of the header included, if and only if the log holds a full header, or holds nothing, or has at least as many blocks as there are buffers |
| LogPanic.MkfsDisk | xv6 wmap/solution/mkfs.c:94-104 | the disk that mkfs makes, whose log holds one block less than a full header, is crash safe in this sense in every run with the kernel's 30 buffers, and would not be with 31 |
| LogPanic.MkfsCommitStops | xv6 wmap/solution/mkfs.c:94-104 | a run on that disk fills the header with 30 entries, one more than the log holds, and ends in the panic of the commit with every home block unchanged |
| LogPanic.CommitStops | xv6 wmap/solution/log.c:176-190 | the same for every log of up to LOGSIZE blocks with as many buffers |
| LogPanic.HeaderOutgrows | xv6 wmap/solution/log.c:214-233 | on every log with fewer blocks than a full header, two processes pass the unlocked check and the header gets more entries than the log has blocks |
| LogPanic.CommitOverwrites | xv6 wmap/solution/log.c:176-190 | with a buffer to spare, the commit of such a group overwrites the home block behind the log before anything is committed |
| LogBuffers.CommitEndsExactly | xv6 wmap/solution/bio.c:62-93 | in a run whose earlier groups fit, when nobody holds a buffer, the commit of a group that fits in the log or takes all buffers can run to its end by itself if and only if it has fewer blocks than there are buffers; otherwise its first bread panics |
| LogTheorems.ReadsLatest | xv6 wmap/solution/bio.c:96-106 | bread returns the latest logged contents of a home block, wherever the commit stands |
| LogTheorems.CleanBuffer | xv6 wmap/solution/bio.c:78-91 | a clean buffer that nobody holds equals its disk block, so recycling it loses nothing |
| LogTheorems.LoggedPinned | xv6 wmap/solution/log.c:214-233 | a logged block stays dirty in the cache and cannot be recycled until it has been installed |
| LogRoom.NoWriteInOp | xv6 wmap/solution/log.c:125-174 | in every run, while an operation is outstanding no step changes the disk |
| LogRoom.LogSpace | xv6 wmap/solution/log.c:125-174 | in every run, whatever the size of the log, the header never exceeds LOGSIZE and never names a block twice, committing excludes operations, and begin_op sleeps only while somebody is there to wake it |
| LogRoom.BeginAdmits | xv6 wmap/solution/log.c:125-142 | in every run, begin_op lets an operation in exactly when no commit is going on and the header has room for its entries, for MAXOPBLOCKS of every operation under way and for MAXOPBLOCKS more, and sleeps otherwise; with no commit and no operation under way there always is room |
| LogRoom.EndNeverPanics | xv6 wmap/solution/log.c:146-174 | end_op never finds the log committing |
| LogRoom.LogWritePanics | xv6 wmap/solution/log.c:214-221 | log_write panics if and only if the header or the log area is full; for an operation that has logged fewer than MAXOPBLOCKS blocks, if and only if the area is; and when the area is not full the caller has used up its share and the block is in the header already |
| LogRoom.RoomKeeps | xv6 wmap/solution/log.c:125-233 | every step keeps the reservations of log space, whatever becomes of the disk |
| LogPanic.PanicsWithinBounds | xv6 wmap/solution/log.c:214-233 | with room for a full header, a run in which every operation logs at most MAXOPBLOCKS distinct blocks and log_write panics on a block that is in the header already |
| LogPanic.PanicsOnFreshBlock | xv6 wmap/solution/log.c:214-221 | with less room, as on the disk of mkfs, a run in which an operation with fewer than MAXOPBLOCKS blocks panics on a block that nobody has logged |
| LogProofs.StepKeeps | xv6 wmap/solution/log.c:68-233 | every step of every process, of the commit, of recovery and every crash keeps the invariant, with the abstract disk stepping along, as long as a group that starts to be copied fits |
| LogProofs.LoadKeeps | xv6 wmap/solution/bio.c:62-106 | bringing blocks into free buffers keeps the invariant |
| LogProofs.RecoveredDurable | xv6 wmap/solution/log.c:68-122 | what recovery would restore is the durable contents |
| LogProofs.HeadCase | xv6 wmap/solution/log.c:101-113 | the one write of the header block makes the whole group durable |
| LogProofs.CopyCase | xv6 wmap/solution/log.c:176-190 | for a group that fits, copying a block to the log changes nothing that recovery would restore |
| LogProofs.InstallCase | xv6 wmap/solution/log.c:68-82 | installing one block after the commit point changes nothing that recovery would restore |
| LogProofs.SameRecovered | xv6 wmap/solution/log.c:68-82 | overwriting the home block of a header entry with its log copy changes nothing that recovery would restore |
| LogProofs.ReinstallCase | xv6 wmap/solution/log.c:115-122 | installing during recovery keeps the promise of recovery, so a crash there is harmless |
| LogProofs.CheckCase | xv6 wmap/solution/log.c:214-221 | the unlocked check of log_write keeps the invariant, or panics with nothing lost |
| LogProofs.AppendRoom | xv6 wmap/solution/log.c:223-233 | under the lock the header has room: the process has reserved its entry |
| LogProofs.EvictCase | xv6 wmap/solution/bio.c:78-91 | recycling a clean buffer keeps the invariant |
| LogProofs.CrashCase | xv6 wmap/solution/log.c:115-122 | a crash at any moment loses only what was not durable |
| MagicSquare.Generate | 底层系统/misc-algorithms/my_magic_square.c:111-137 | for odd n the walk fills a square in which each of 1..n*n stands exactly once and every row, column and both diagonals have the same sum n(n*n+1)/2 |
| MagicSquare.ValueInjective | 底层系统/misc-algorithms/my_magic_square.c:115-134 | no two numbers are placed in the same cell: the walk never overwrites |
| MagicSquare.ValueOfCell | 底层系统/misc-algorithms/my_magic_square.c:115-134 | cell and number determine each other: with q, r the quotient and remainder of num-1 by n, the cell is row 2q-r, column n/2-q+r modulo n |
| MagicSquare.NextCell | 底层系统/misc-algorithms/my_magic_square.c:120-133 | the step up and right, or down when that cell is occupied, leads to the cell of the next number; the occupied test fails exactly after n steps |
| MagicSquare.ResiduesTotal | 底层系统/misc-algorithms/my_magic_square.c:111-134 | along a line that moves by one or by two, the remainders modulo n add up to n(n-1)/2, wherever it starts |
| MagicSquare.LineTotal | 底层系统/misc-algorithms/my_magic_square.c:111-134 | every row and column sums to n(n*n+1)/2 |
| MagicSquare.OppositeSum | 底层系统/misc-algorithms/my_magic_square.c:111-134 | cells opposite through the centre sum to n*n+1 |
| MagicSquare.DiagonalTotals | 底层系统/misc-algorithms/my_magic_square.c:111-134 | both diagonals sum to n(n*n+1)/2, also when 3 divides n |
| MagicSquare.IsMagic | 底层系统/misc-algorithms/my_magic_square.c:111-137 | the cells the walk visits form a magic square |
| FsFile.FileSystem.Writei | xv6 wmap/solution/fs.c:480-511 | writei fails exactly at the bounds, and panics exactly when fewer blocks are free than the range lacks, with its indirect block; after success the file holds src at off, every other byte of this and every other file is unchanged, the size is the larger of old size and off+n, and exactly the lacking blocks were taken |
| FsFile.FileSystem.WriteThenRead | xv6 wmap/solution/fs.c:450-511 | after a successful writei, readi of the same range succeeds and returns src |
| FsFile.FileSystem.Readi | xv6 wmap/solution/fs.c:450-477 | readi returns exactly the bytes of the file from off, cut off at its size; it never panics, and allocates and changes nothing, because no file has a hole |
| FsFile.FileSystem.ByteOnDisk | xv6 wmap/solution/fs.c:372-400 | byte k of a file is byte k%512 of the block that the inode names in place k/512, or, from 6144 on, of the block that entry k/512-12 of the indirect block names |
| FsFile.FileSystem.Itrunc | xv6 wmap/solution/fs.c:407-435 | the file loses all its blocks and bytes, every other file is unchanged, and bfree never panics |
| FsFile.FileSystem.Bmap | xv6 wmap/solution/fs.c:372-400 | returns the block of the given slot, allocating it and the indirect block if need be, and panics exactly when fewer blocks are free than it lacks; no byte of any file changes, no block gets a second owner, and a block that is there is returned with nothing changed |
| FsFile.FileSystem.BmapListed | xv6 wmap/solution/fs.c:383-397 | the same for the branch through the indirect block |
| FsContent.MissingNext | xv6 wmap/solution/fs.c:372-400 | bmap of the next block of a range uses up exactly its share of the blocks that the range lacks |
| FsFile.NewSize | xv6 wmap/solution/fs.c:506-510 | after a write no file has a hole, with the old size and with the new one |
| FsBlocks.ClearLess | xv6 wmap/solution/fs.c:66-71 | setting a clear bit leaves one free block less |
| FsFile.FileSystem.Balloc | xv6 wmap/solution/fs.c:56-78 | takes the first clear bit below the file system's size and zeroes that block; panics exactly when every bit is set |
| FsFile.FileSystem.Bfree | xv6 wmap/solution/fs.c:81-95 | clears the bit, or panics if it is clear already |
| FsFile.FileSystem.TakeDirectBlock | xv6 wmap/solution/fs.c:378-381 | a fresh block in a direct slot or as the indirect block |
| FsFile.FileSystem.TakeListedBlock | xv6 wmap/solution/fs.c:388-396 | a fresh block listed in the indirect block |
| FsFile.FileSystem.FreeIndirect | xv6 wmap/solution/fs.c:421-431 | frees the listed blocks and the indirect block |
| FsFile.FileSystem.constructor | xv6 wmap/solution/fs.c:56-78 | a file system with no file blocks satisfies the invariant |
| FsBlocks.BitmapExactly | xv6 wmap/solution/fs.c:56-95 | a bit is set if and only if the block is metadata or some inode holds it, and then exactly one inode does, in one slot |
| FsBlocks.TakeKeeps | xv6 wmap/solution/fs.c:56-78 | taking a free block keeps the bitmap exact and every block singly owned |
| FsBlocks.GiveKeeps | xv6 wmap/solution/fs.c:81-95 | freeing an owned block finds its bit set and keeps the bitmap exact |
| FsBlocks.BitUpdate | xv6 wmap/solution/fs.c:66-92 | setting or clearing one bit of the map leaves every other bit alone |
| FsBlocks.WordPut | xv6 wmap/solution/fs.c:388-396 | a 32-bit entry of the indirect block reads back and leaves the other entries alone |
| FsContent.TakeIndirect | xv6 wmap/solution/fs.c:383-399 | writing the entry changes exactly one reference of one file |
| FsContent.WriteBytes | xv6 wmap/solution/fs.c:498-504 | writing a data block changes the bytes of that block of that file only |
| FsFile.WroteMore | xv6 wmap/solution/fs.c:498-504 | one more chunk of src is in place |
| FsFile.ReadChunk | xv6 wmap/solution/fs.c:469-475 | one more chunk of the file has been read |
| P3Heap.Heap.Alloc | 底层系统/memory-allocator/p3Heap.c:156-236 | NULL exactly when the size is not positive or no free block is large enough, and then nothing changes; otherwise the first of the smallest sufficient blocks, split when 8 bytes or more remain, and no live payload is touched; the pointer is a multiple of 8 |
| P3Heap.Heap.FreeBlock | 底层系统/memory-allocator/p3Heap.c:259-339 | 0 exactly for a pointer to the payload of a live block, which is freed and merged with its free neighbours with no other live payload touched; -1 and no change for any other |
| P3Heap.Heap.AllocThenFree | 底层系统/memory-allocator/p3Heap.c:156-339 | free_block of the pointer that alloc has just returned gives 0 and restores the exact block layout, and when alloc returns NULL it gives -1 |
| P3Heap.Heap.AllocatedPasses | 底层系统/memory-allocator/p3Heap.c:259-285 | the pointer to the payload of any live block passes the checks of free_block |
| P3Heap.Heap.OthersFail | 底层系统/memory-allocator/p3Heap.c:259-285 | NULL, a pointer that is no multiple of 8, one outside the heap, and the payload of a free block do not pass them |
| P3Heap.Heap.Occupy | 底层系统/memory-allocator/p3Heap.c:193-231 | the words alloc writes, with and without a split, encode the placed layout |
| P3Heap.Heap.WriteMerged | 底层系统/memory-allocator/p3Heap.c:316-336 | header and footer of the merged block and the cleared p-bit encode the layout after the free |
| P3Heap.Heap.FindBest | 底层系统/memory-allocator/p3Heap.c:172-192 | the scan finds the first of the smallest free blocks that are large enough |
| P3Heap.Heap.Release | 底层系统/memory-allocator/p3Heap.c:288-336 | header, footer, both merges and the p-bit of the next block |
| P3Heap.Heap.constructor | 底层系统/memory-allocator/p3Heap.c:396-416 | one free block between heap_start and the end mark |
| HeapLayout.PlaceDispose | 底层系统/memory-allocator/p3Heap.c:193-336 | freeing what has just been allocated restores the exact block layout |
| HeapLayout.PlaceKeeps | 底层系统/memory-allocator/p3Heap.c:193-231 | placement keeps sizes multiples of 8 and no two free blocks adjacent, and never leaves an unusable remainder |
| HeapLayout.DisposeKeeps | 底层系统/memory-allocator/p3Heap.c:288-336 | freeing and merging keep sizes multiples of 8 and no two free blocks adjacent |
| HeapLayout.NeedFacts | 底层系统/memory-allocator/p3Heap.c:162-168 | the rounded size holds header and payload, is a multiple of 8, and wastes less than 8 bytes |
| HeapLayout.PayloadsDisjoint | 底层系统/memory-allocator/p3Heap.c:156-236 | payloads of different blocks do not overlap |
| P3Heap.EncodeReplace | 底层系统/memory-allocator/p3Heap.c:193-231 | rewriting a run of blocks and the next block's p-bit leaves every other block's header and footer valid |
| P3Heap.DisposeWords | 底层系统/memory-allocator/p3Heap.c:288-336 | the words free_block writes encode the merged layout |
| P3Heap.HeaderBits | 底层系统/memory-allocator/p3Heap.c:104-113 | size, a-bit and p-bit are read back from a header independently of each other |
| Umalloc.Allocator.Malloc | xv6 wmap/solution/umalloc.c:63-90 | null exactly when no entry is large enough and sbrk is asked to grow and fails, a result of its own exactly when no entry is large enough and sbrk is not asked to grow; otherwise the first sufficient entry after freep in circular order, cut at its tail, or one from the memory sbrk supplied, also when that memory merged into the entry at freep; no word of a block in use is written |
| Umalloc.Allocator.Free | xv6 wmap/solution/umalloc.c:24-44 | the block goes to its place in address order, merged with the free blocks it touches; no word of a block in use is written |
| Umalloc.Allocator.Morecore | xv6 wmap/solution/umalloc.c:46-61 | at least 4096 units join the list through free, if sbrk is asked to grow and succeeds, and nothing changes otherwise |
| Umalloc.Allocator.FindPlace | xv6 wmap/solution/umalloc.c:29-32 | the circular scan of free terminates at the entry before the block, from any freep |
| Umalloc.Allocator.Scan | xv6 wmap/solution/umalloc.c:74-89 | the circular scan of malloc terminates with the first sufficient entry after freep, or having seen them all |
| Umalloc.Allocator.Carve | xv6 wmap/solution/umalloc.c:75-84 | the whole entry or its tail leaves the list; every unit stays accounted for |
| Umalloc.Stops | xv6 wmap/solution/umalloc.c:30-32 | the loop condition of free holds exactly at the last entry before the block, counting the wrap |
| Umalloc.PutOk | xv6 wmap/solution/umalloc.c:33-43 | after free, every unit from sbrk belongs to exactly one free block or one block in use |
| Umalloc.TakeOk | xv6 wmap/solution/umalloc.c:75-84 | after malloc, every unit from sbrk belongs to exactly one free block or one block in use |
| Umalloc.GrowOk | xv6 wmap/solution/umalloc.c:52-59 | fresh memory overlaps nothing and can be freed like a block in use |
| Umalloc.UnitsSuffice | xv6 wmap/solution/umalloc.c:69-69 | the units asked for hold the header and nbytes if and only if nbytes+7 does not wrap round in 32 bits |
| Umalloc.GrowsMemory | xv6 wmap/solution/umalloc.c:46-60 | sbrk is asked for a positive number of bytes if and only if the request is at most 2 to the 31 less 16 bytes, or its rounding wraps round |
| Umalloc.Grown | xv6 wmap/solution/umalloc.c:51-52 | morecore asks for the larger of the units needed and 4096 |
| Umalloc.SbrkSupplies | xv6 wmap/solution/proc.c:162-178 | sbrk supplies the memory that morecore will use if and only if it is asked for a positive number of bytes; otherwise it returns an address at or beyond the end of the memory, or fails |
| UmallocList.PutSorted | xv6 wmap/solution/umalloc.c:33-43 | the list stays in address order and its blocks never touch |
| UmallocList.PutUnits | xv6 wmap/solution/umalloc.c:33-43 | merging neither loses nor invents a unit |
| UmallocList.TakeUnits | xv6 wmap/solution/umalloc.c:75-84 | the list loses exactly the units handed out |
| UmallocList.PutRep | xv6 wmap/solution/umalloc.c:33-43 | the headers free writes link the new list in a circle |
| UmallocList.TakeRep | xv6 wmap/solution/umalloc.c:75-84 | the headers malloc writes link the new list in a circle |
| WmapProc.Proc.Wmap | xv6 wmap/solution/wmap.c:40-97 | FAILED exactly when the length is not positive, the mapping is both or neither of shared and private, it needs a file and has none, 16 regions exist, a fixed region would be out of order or its place is taken, or no place exists; otherwise a fixed region stands where it was asked for and any other at the first fit, with no page loaded; the list stays sorted, page-disjoint and in range |
| WmapProc.ValidMeans | xv6 wmap/solution/wmap.c:296-331 | validate_input admits exactly the requests of positive length that are shared or private and not both, with a file unless anonymous, and if fixed, at an address at which the region would be in order |
| WmapProc.Proc.Wunmap | xv6 wmap/solution/wmap.c:105-123 | the region that starts at the address goes, its frames become free again, and every other region, page and count stays |
| WmapProc.Proc.Wpunmap | xv6 wmap/solution/wmap.c:132-222 | frees the pages of the range and trims or splits the region; below KERNBASE it succeeds if and only if the range is of whole pages, lies in one region, and does not need a slot when there is none; list, counts and frames stay in order if and only if the call fails or the request is proper |
| WmapProc.Proc.PageFault | xv6 wmap/solution/wmap.c:601-647 | the page of an address in a region gets one free frame and one more count; without region or frame FAILED; a page that is present panics; for a page beyond the end of the file of its region FAILED with the frame in place, and this is exactly when the counts are not in order afterwards |
| WmapProc.NotCounted | xv6 wmap/solution/wmap.c:630-645 | a frame that stays in place after readi has failed makes the count of its region wrong by one |
| WmapProc.Proc.FindAddr | xv6 wmap/solution/wmap.c:399-420 | first fit: the lowest page-aligned address below KERNBASE whose range meets no region, and failure only if there is none; no 32-bit sum wraps |
| WmapProc.Proc.FixPlace | xv6 wmap/solution/wmap.c:357-391 | fails exactly on overlap or without a slot; otherwise the slot is linked in before the regions that start later |
| WmapProc.Proc.FindUnused | xv6 wmap/solution/wmap.c:340-347 | an unused slot, or none exactly when 16 are in use |
| WmapProc.Proc.IsFree | xv6 wmap/solution/wmap.c:361-369 | the overlap test |
| WmapProc.Proc.Link | xv6 wmap/solution/wmap.c:374-388 | insertion keeps the list linked through distinct slots, in address order |
| WmapProc.Proc.ClearPages | xv6 wmap/solution/wmap.c:460-476 | frees exactly the present pages of the range and counts them |
| WmapProc.Proc.Split | xv6 wmap/solution/wmap.c:194-218 | the region is cut in two and both parts are recounted |
| WmapRegions.TrimExactly | xv6 wmap/solution/wmap.c:186-218 | the list stays well formed if and only if the request ends at or below KERNBASE and does not cover a whole region |
| WmapRegions.TrimMeans | xv6 wmap/solution/wmap.c:186-218 | a proper request takes away exactly the addresses it names |
| WmapRegions.AcceptsExactly | xv6 wmap/solution/wmap.c:132-200 | the checks of sys_wpunmap pass, below KERNBASE, exactly for whole pages that lie in one region and, if they split it, leave a slot for its second part |
| WmapRegions.OverlapsMeans | xv6 wmap/solution/wmap.c:361-369 | two ranges overlap in the sense of the test exactly if they have an address in common |
| WmapRegions.ScanEnd | xv6 wmap/solution/wmap.c:399-420 | when the scan stops, its place is the lowest candidate, or there is no candidate |
| WmapRegions.ScanStep | xv6 wmap/solution/wmap.c:404-412 | moving past a region and rounding up skips no candidate |
| WmapRegions.InsertKeeps | xv6 wmap/solution/wmap.c:357-391 | placing a region on a free place keeps the list sorted and disjoint |
| WmapRegions.InsertRemove | xv6 wmap/solution/wmap.c:436-494 | removing a region just placed restores the list |
| WmapRegions.PagesDisjoint | xv6 wmap/solution/wmap.c:357-391 | no page belongs to two regions, although lengths need not be whole pages |
| WmapList.UnusedSlots | xv6 wmap/solution/wmap.c:340-347 | a slot is unused exactly while fewer than 16 are linked |
| WmapList.LinkKeeps | xv6 wmap/solution/wmap.c:374-388 | linking a slot in keeps the list well linked |
| WmapList.TakeKeeps | xv6 wmap/solution/wmap.c:478-490 | unlinking and resetting a slot keeps the list well linked |
| WmapPages.FillDrop | xv6 wmap/solution/wmap.c:616-628 | filling a page and dropping it again restores page table and free list |
| WmapPages.ClearMeans | xv6 wmap/solution/wmap.c:460-476 | the page loop clears the present pages of its range and nothing else |
| WmapPages.ClearCounts | xv6 wmap/solution/wmap.c:460-476 | as many frames come free as pages were loaded |
| WmapPages.ClearKeeps | xv6 wmap/solution/wmap.c:460-476 | mapped and free frames stay a partition of all frames |
| WmapPages.FillKeeps | xv6 wmap/solution/wmap.c:616-628 | mapped and free frames stay a partition of all frames |
| WmapProc.TrimDone | xv6 wmap/solution/wmap.c:186-218 | after a proper request every count is the number of present pages again |
| WmapProc.TrimFailed | xv6 wmap/solution/wmap.c:194-200 | a split that fails for want of a slot has freed the pages of its range, and the counts know it |
| WmapFork.Kernel.CopyMaps | xv6 wmap/solution/wmap.c:660-733 | the child has the parent's regions in order with the same counts, threaded through its own slots, and maps the same pages: the parent's frames where shared, fresh frames with equal contents and nobody else's where private; the parent's pages are as they were; it fails if and only if fewer frames are free than private regions have present pages |
| WmapFork.Kernel.CopyPages | xv6 wmap/solution/wmap.c:680-716 | the page loops copy the pages of one region and count them in its slot, and fail exactly when fewer frames are free than a private region needs |
| WmapFork.Kernel.Append | xv6 wmap/solution/wmap.c:719-727 | the new slot is linked in at the end of the child's list |
| PoolTheorems.NoLostWakeup | Thread pool + 并发二叉树/solution/threadpool.c:11-30 | while a worker sleeps, those woken that have not looked again number at least queue_size; while a submitter sleeps, at least the free slots; after shutdown nobody sleeps |
| PoolTheorems.FirstInFirstOut | Thread pool + 并发二叉树/solution/threadpool.c:20-27 | the tasks whose submit returned 0 are those dequeued followed by those queued, in the order of acceptance; each dequeued task has run or is running |
| PoolTheorems.NothingAfterShutdown | Thread pool + 并发二叉树/solution/threadpool.c:116-127 | after shutdown every submit returns -1 and nothing more is accepted |
| PoolTheorems.ResultsTell | Thread pool + 并发二叉树/solution/threadpool.c:114-141 | over every run, each result is 0 or -1 and made by the critical section of a submit, and it is -1 if and only if the pool was shut down when that section ran |
| PoolTheorems.SubmitAnswers | Thread pool + 并发二叉树/solution/threadpool.c:116-139 | threadpool_submit answers -1 exactly after shutdown, falls asleep exactly while the queue is full and the pool is not shut down, and otherwise answers 0 with its task queued last |
| PoolTheorems.WorkAnswers | Thread pool + 并发二叉树/solution/threadpool.c:11-24 | a worker takes the oldest task if there is one, otherwise returns exactly after shutdown and sleeps before |
| PoolTheorems.CreateExactly | Thread pool + 并发二叉树/solution/threadpool.c:37-105 | threadpool_create refuses exactly the sizes that are not positive, and otherwise makes an empty pool of that many workers and slots |
| PoolTheorems.ClientGoesOn | Thread pool + 并发二叉树/solution/threadpool.c:114-141 | a client that is about to take the mutex can do so until the pool is freed |
| PoolTheorems.Drained | Thread pool + 并发二叉树/solution/threadpool.c:15-18 | once all workers have returned the queue is empty and exactly the accepted tasks have run, each once |
| PoolTheorems.WorkIsDone | Thread pool + 并发二叉树/solution/threadpool.c:8-34 | while tasks are queued some worker can go on |
| PoolTheorems.SubmittersAreServed | Thread pool + 并发二叉树/solution/threadpool.c:116-138 | while a submitter sleeps, a woken submitter or a worker can go on |
| PoolTheorems.ShutdownTerminates | Thread pool + 并发二叉树/solution/threadpool.c:143-156 | after shutdown the workers take only boundedly many more steps, whatever the others do |
| PoolTheorems.DestroyGoesOn | Thread pool + 并发二叉树/solution/threadpool.c:153-156 | until all workers have returned each that has not can go on, and then threadpool_destroy can |
| PoolTheorems.RemainingZero | Thread pool + 并发二叉树/solution/threadpool.c:153-156 | the bound is used up exactly when all workers have returned |
| PoolTheorems.FaultExactly | Thread pool + 并发二叉树/solution/threadpool.c:143-165 | the pool is touched after it was freed if and only if a thread still inside threadpool_submit takes the mutex then; a worker never does |
| PoolTheorems.QuietFree | Thread pool + 并发二叉树/solution/threadpool.c:143-165 | with no submit call in progress when the pool is freed and none later, nothing faults |
| PoolTheorems.FaultAheadExactly | Thread pool + 并发二叉树/solution/threadpool.c:143-165 | when the pool has been freed, it can still be touched without a new call of threadpool_submit if and only if some client is inside threadpool_submit |
| PoolTheorems.DestroyRace | Thread pool + 并发二叉树/solution/threadpool.c:143-165 | a run in which a submitter that slept is woken by threadpool_destroy and takes the mutex of the freed pool instead of returning -1 |
| PoolProofs.StepKeeps | Thread pool + 并发二叉树/solution/threadpool.c:5-156 | every step of every thread keeps the invariant of queue, wakeups and shutdown |
| PoolProofs.SignalCovered | Thread pool + 并发二叉树/solution/threadpool.c:27-27 | one signal makes up for one more task or slot |
| PoolQueue.WorkerTakesOldest | Thread pool + 并发二叉树/solution/threadpool.c:11-24 | a worker waits, quits or takes the oldest task, exactly as queue and shutdown say |
| PoolQueue.SubmitAppends | Thread pool + 并发二叉树/solution/threadpool.c:116-134 | a submitter waits, is refused or appends its task, exactly as queue and shutdown say |
| PoolQueue.Queue.Work | Thread pool + 并发二叉树/solution/threadpool.c:11-24 | the ring loses its oldest task |
| PoolQueue.Queue.Submit | Thread pool + 并发二叉树/solution/threadpool.c:116-134 | the ring gains a newest task |
| PoolQueue.Queue.Shutdown | Thread pool + 并发二叉树/solution/threadpool.c:146-151 | shutdown is set and the queued tasks stay |
| CacheSim.Cache.Access | 底层系统/cache-memory/csim.c:170-228 | a hit if and only if the memory block of the address has been accessed before and since then fewer other blocks of its set than the set has lines; an eviction if and only if it misses and at least as many blocks of the set have been accessed; the table then holds and the counters count what it prescribes for the longer trace |
| LruBlocks.SameBlock | 底层系统/cache-memory/csim.c:172-173 | two addresses have the same set index and tag if and only if they lie in the same memory block of 2 to the b bytes |
| LruBlocks.NextBlock | 底层系统/cache-memory/csim.c:172-173 | the next memory block belongs to the next set, going round |
| LruBlocks.HitMeans | 底层系统/cache-memory/csim.c:170-228 | the recency order of the tags of a set, cut off after E, holds the tag of an address if and only if its block has been accessed before and fewer than E other blocks of its set since |
| LruBlocks.FullMeans | 底层系统/cache-memory/csim.c:170-228 | a set is full if and only if at least as many of its blocks have been accessed as it has lines |
| LruBlocks.SinceMeans | 底层系统/cache-memory/csim.c:170-228 | the blocks counted since an access are those of the same set accessed after the last access to the block |
| CacheSim.AccessesJoin | 底层系统/cache-memory/csim.c:258-285 | records are replayed one after the other |
| CacheSim.AccessesOne | 底层系统/cache-memory/csim.c:266-281 | a load or a store is one access, a modify two, any other record none |
| CacheSim.Cache.ValidTags | 底层系统/cache-memory/csim.c:170-228 | the valid tags of a set are exactly the most recently used tags of that set, as many as it has lines |
| CacheSim.Cache.Replay | 底层系统/cache-memory/csim.c:258-285 | a trace of records makes the accesses of its loads, stores and modifies |
| CacheSim.Cache.constructor | 底层系统/cache-memory/csim.c:115-142 | the empty cache |
| CacheSim.EvictKeeps | 底层系统/cache-memory/csim.c:211-227 | in a full set the line with the smallest counter holds the least recently used tag |
| CacheSim.HitKeeps | 底层系统/cache-memory/csim.c:178-189 | a hit moves its tag to the front |
| CacheSim.FillKeeps | 底层系统/cache-memory/csim.c:197-206 | a miss fills a line that is not valid, and there is room |
| CacheSim.ModifyHits | 底层系统/cache-memory/csim.c:277-280 | the second access of a modify always hits |
| LruStack.RecentOrder | 底层系统/cache-memory/csim.c:170-228 | the recency list holds exactly the tags of the trace, each once, ordered by last use |
| LruStack.TouchTake | 底层系统/cache-memory/csim.c:170-228 | replacement on E lines keeps the first E tags of the recency list |
| LruStack.Shape.Inclusion | 底层系统/cache-memory/csim.c:170-228 | the contents with fewer lines are a prefix of the contents with more |
| LruStack.Shape.HitsMonotone | 底层系统/cache-memory/csim.c:170-228 | more lines never make fewer hits, for any trace |
| LruStack.Shape.MissesBalance | 底层系统/cache-memory/csim.c:170-228 | misses are evictions plus valid lines, for any trace |
| Gemm.MatMatMultiply | 多维GEMM优化/矩阵/MatMatMultiply.cpp:13-56 | for block sizes dividing the dimensions, any addition and multiplication and any order of the bi iterations, every cell is the left-to-right sum of the naive loop |
| Gemm.Band | 多维GEMM优化/矩阵/MatMatMultiply.cpp:29-56 | one iteration of the parallel loop writes exactly its rows |
| Gemm.Tile | 多维GEMM优化/矩阵/MatMatMultiply.cpp:33-51 | the local tile is the left-to-right sum along k |
| Gemm.Accumulate | 多维GEMM优化/矩阵/MatMatMultiply.cpp:46-50 | the kernel extends each sum by one tile, one term after another |
| Gemm.Pack | 多维GEMM优化/矩阵/MatMatMultiply.cpp:40-44 | the packed tiles are the tiles of the two matrices |
| Gemm.WriteBack | 多维GEMM优化/矩阵/MatMatMultiply.cpp:53-55 | the tile goes to its place and no other cell changes |
| Gemm.Reinterpret | 多维GEMM优化/矩阵/MatMatMultiply.cpp:20-31 | the four-dimensional view and the matrix address the same cell |
| Grep.Match | xv6 wmap/solution/grep.c:71-82 | match accepts exactly when a part of the text, at a place the anchor allows, matches the pattern |
| Grep.MatchHere | xv6 wmap/solution/grep.c:84-96 | matchhere accepts exactly when a prefix is in the language of the parsed pattern, the whole text if it ends with '$' |
| Grep.MatchStar | xv6 wmap/solution/grep.c:98-106 | matchstar accepts exactly when repetitions of the character followed by the pattern match a prefix |
| Grep.FoundMeans | xv6 wmap/solution/grep.c:71-106 | match accepts exactly when some substring, starting at 0 after '^' and reaching the end before '$', is in the language of the items |
| Grep.ParseExactly | xv6 wmap/solution/grep.c:84-96 | a pattern is read in exactly one way: Parse(re) has the text re, and no other sequence of items does in which no single character is followed by '*' and no final '$' fails to anchor |

## Left out

- Files of the repository other than the ones above: boot code, drivers, the shell, user programs, pipes, directories and path names, the square matrix kernel and `p3Heap-2.c`, which repeat a modelled file.
- Tree: `bst_init`, `bst_destroy`, the lock counter and null arguments. The heap of the tree is a map that each step replaces, because threads interleave between writes; failure of the allocation is modelled. Keys and values are unbounded integers.
- Log: the order of the buffer list, processes that wait for a buffer that another has just released, and the disk driver; any clean buffer that nobody holds may be the one that bget recycles. Code under a spinlock is one step.
- LogTheorems.CrashSafe: assumes that the write of one disk block is atomic, and that every group copied to the log fits there; `LogPanic.SafeExactly` says for which configurations that is no restriction.
- LogBuffers.CommitEndsExactly: is about commits during which no other process holds a buffer, in runs whose earlier groups fit in the log; a group that does not fit and leaves a buffer free is the subject of `LogPanic.CommitOverwrites`.
- File contents: device files, inode numbers and `iupdate`, and the split of the bit map into blocks of BPB bits; the bit map is one array of bytes. The cache and the log behind `bread` and `log_write` are modelled apart, so a block is read and written here directly. Disk, inodes and bit map are sequences that the methods reassign.
- FsFile.FileSystem.Writei: after a panic for want of blocks it promises only that a first part of the data has been written.
- Regions: contents of file-backed mappings, writing them back, file reference counts, regions shared with a child after `copy_maps` has returned (`refcnt` above 0 in the parent's calls), `delete_mmaps`, and the information system calls. Failure of the page-table allocation in `mappages` is left out.
- WmapFork.Kernel.CopyMaps: file references; after a failure nothing is promised of the child's list.
- WmapProc.Proc.PageFault: the panic on a page that is present is a result, since the kernel stops there; the size of the file is a parameter, and devices behind a region are left out.
- Best-fit heap: requests above INT_MAX - 11, whose rounding overflows, and the system calls of `init_heap`.
- P3Heap.Heap.FreeBlock: asks that a pointer which passes all checks be one that `alloc` returned, as the source asks of its callers.
- Umalloc.Allocator.Malloc: it ends with a result of its own when sbrk has been asked for a number of bytes that is not positive; what the writes beyond the end of the memory do then, a page fault or not, is left out. The size of the process is a parameter, a multiple of 8 and above all earlier memory. The payload of blocks in use is part of the memory only in that no word of it is written.
- Thread pool: failure of `pthread_create`, of mutex and condition variable initialization and of malloc. A critical section is one step; more than one call of `threadpool_destroy` is not modelled.
- Cache simulator: wrap-round of the 64-bit timestamp and of the int counters, `fopen` and parsing of trace lines, and the printed output. Shift and mask of an address are written as division and remainder by powers of two.
- Gemm.MatMatMultiply: block sizes that do not divide the dimensions; the parallel loop is any sequential order of its iterations, each with its own local tiles; rounding does not matter because addition and multiplication are arbitrary.
- Matcher: the loop of `grep` that reads lines; characters are those of the pattern and the text without the final NUL.
- MagicSquare.Generate: n*n above INT_MAX, failure of malloc, and input and output.
