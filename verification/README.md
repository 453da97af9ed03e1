# NSOS kernel: verified models

NSOS is a small i386 kernel written in C.  This project models its parts with the most state in Dafny and proves what
they keep, over single calls and over whole runs.

| file | what it models |
|---|---|
| `PmmSpec.dfy`, `PmmMemory.dfy`, `PmmLinks.dfy`, `PmmHeap.dfy`, `PmmHeadStep.dfy`, `PmmRuns.dfy` | the heap of `src/pmm.c`: a list of blocks, the bytes of memory, the headers they spell and their links, the code on bytes, its head step, and whole runs |
| `SimpleLock.dfy` | the nested locks of `src/libos/simple_lock.c` over one interrupt flag |
| `Kmt.dfy` | the round robin scheduler and the sleeping semaphores of `src/kmt.c` |
| `Kvfs.dfy`, `VfsAppend.dfy` | file contents of `src/fs/kvfs.c`, and threads that append to one file under `vfs_sem` |
| `Dcache.dfy`, `DcacheMake.dfy`, `DcacheMount.dfy`, `DcacheRuns.dfy`, `DcacheRemount.dfy`, `Path.dfy` | the dentry tree, path walk, path creation and mount table of `src/fs/path.c` and `src/vfs.c`; `Path.dfy` has the code on strings, the others the functions it is proved against |
| `Layout.dfy`, `Console.dfy` | a reference layout of text in rows, and the ring of rows of `src/console/console.c` that refines it |
| `Vsprintf.dfy`, `Format.dfy` | printing and reading numbers, and the walk over a format string, of `src/nslibc/vsprintf.c` |
| `Stdlib.dfy` | the generator of `src/nslibc/stdlib.c` |
| `Words.dfy`, `Wrappers.dfy` | 32-bit words and powers of two; optional values |

`dafny verify dfyconfig.toml` checks the whole project.

## How to read it

**Heap.**  `PmmSpec` says what allocation and release do to a list of blocks.  `PmmHeap.Heap` is the C code on the
bytes of memory: it reads and stores words and bytes, in the order of the code.  A ghost map names the headers that
are intact; `Agree` says that the bytes spell them, and a store that overlaps a header removes it.  The back links are
not a doubly linked list: when a free block absorbs its right neighbour, the block behind keeps a link to the absorbed
header, and that header leads back to the block that absorbed it.  `Reaches` is that forwarding path and `Linked` the
invariant over it.  `Alloc` always cuts the list as specified and spares every payload.  Its head branch (lines
116-120) leaves two words unwritten: the `front` field of the new first header, and the back link of the successor
when no tail is split off.  The first is whatever the bytes there happen to be, which for a header moved by less than
twelve bytes are bytes of the old header.  The links are right afterwards if and only if `HeadStepOk` holds, a
condition on the bytes and links before the call; `HeadStepExactly` spells it out.  When it fails the bytes describe
the heap in no reading (`Spelled`).  Moved by eight bytes, the field is the old `next` and always wrong:
`GapOfEightIsReached` is such a heap after one call, and by `FreeNeverEnds` giving that block back does not end.  For a
caller the exact condition is that a gap stays behind at the start of the heap (`CallerCondition`), which in a heap
aligned to 32 bytes holds for the sizes above 16; for every other size that leaves some room `NarrowGapIsReached` runs
the code into a heap that the next call breaks.  `PmmRuns` has whole runs on memory under either condition.

**Interleavings.**  With interrupts off inside every locked section, a section is one atomic step.  Runs are sequences
of such steps in any order; the invariants are proved for every state of every run.

**Tree and mounts.**  Dentries and mounts live in stores keyed by address.  `Ok` is the invariant of the tree and the
mount table: unique sibling names, parents before children, `d_mounted` equal to the number of mounts.  `NdOk` says
that `nd->mnt` owns the tree that holds `nd->dentry`.  `Walk` is the left fold that a path means, and
`MissingPathIsMade` says what exactly make_path adds for the end of a path that is missing.  vfs_unmount names
the mount that goes by a path, so it need not be the one that was made with the same path: `RemountExactly` says when
the two calls cancel, `NamedDirectoryEnters` what that means to a caller, and `MountedTwice` and `MountedFromBelow` are
paths for which they do not.

**Formats.**  A format string is read as a list of items.  Reading and spelling are inverse in both directions, and
`Sprint` prints what the items mean.  The cursor is not moved past a `*` (lines 164-171 and 178-181), so a width or a
precision passed as an argument is taken but never obeyed, and the `*` is printed: `StarIsPrinted` and
`PrecisionStarIsPrinted` for all inputs, `StarIsNotAWidth` against every width that could have been meant.

Where comments in the source and the code differ, the code is followed: `kvfs_write` overlays at the position, it is
not "merely just an append operation" (`src/fs/kvfs.c:230`); a cached dentry always counts as valid because of the `||`
in `src/fs/path.c:239`; of several mounts on one path the last is not always the one that is seen
(`src/fs/path.c:243`), see `PathLeadsToNewRoot`.

## Model

| member | source | states |
|---|---|---|
| PmmSpec.AlignmentIsPowerOfTwo | src/pmm.c:49-52 | the alignment of a request is a power of two, and by `Alignment` at least the size and less than twice the size |
| PmmSpec.AlignmentIsLeast | src/pmm.c:49-52 | no smaller power of two covers the request |
| PmmSpec.PlaceIsAligned | src/pmm.c:54-57 | the payload goes to the first aligned address behind the header |
| PmmSpec.FirstFit | src/pmm.c:58-67 | the block chosen fits and no earlier block does |
| PmmSpec.CarveKeepsHeap | src/pmm.c:76-134 | cutting a block keeps the heap in order (blocks tile it, no two free neighbours, payloads aligned, a free first block at the start) and makes exactly one block used |
| PmmSpec.CutWastesLittle | src/pmm.c:76-134 | at most twelve bytes stay unused behind the payload, else the rest is a free block; and as many in front of the new header, else the block found stays |
| PmmSpec.PayloadsApart | src/pmm.c:76-134 | a payload meets no other payload and no header of the chain |
| PmmSpec.ReleaseKeepsHeap | src/pmm.c:137-161 | giving a block back keeps the heap in order and ends exactly that allocation |
| PmmSpec.NothingLiveMeansOneFreeBlock | src/pmm.c:141-158 | freeing is complete: nothing allocated means one free block from the start |
| PmmLinks.FitTestExact | src/pmm.c:60 | the wrapping comparison decides the true one exactly when the difference fits a 32-bit `int` |
| PmmLinks.HugeRequestPassesFitTest | src/pmm.c:60 | a request of 2^30 + 1 bytes passes in a block of 64 KiB, so the bound on requests cannot be raised |
| PmmLinks.FitTest | src/pmm.c:58-60 | within the machine's limits the comparison decides whether the block at hand fits |
| PmmLinks.ReachesThrough | src/pmm.c:156 | a back link into an absorbed header leads on to the block that absorbed it |
| PmmLinks.SpliceLinks | src/pmm.c:76-158 | if only the links around a replaced stretch changed and those are right, all links of the chain are right |
| PmmLinks.CutDone | src/pmm.c:76-134 | after any cut, all links are right if and only if the bytes found at the moved header and the successor's back link were right before |
| PmmLinks.LeftLinks | src/pmm.c:141-154 | after merging to the left all links are right |
| PmmLinks.AbsorbLinks | src/pmm.c:155-158 | after absorbing the right neighbour all links are right, although only the absorbed header's `front` was set |
| PmmLinks.UserByteKeepsLinks | src/pmm.c:133 | no link depends on a byte that a holder may write |
| PmmLinks.RoundingNeverEnds | src/pmm.c:49-52 | for a request above 2^31 the doubling in `size_t` never reaches the size |
| PmmHeap.Heap.constructor | src/pmm.c:28-36 | in any memory, the bytes stored make the heap one free block |
| PmmHeap.Heap.RoundUp | src/pmm.c:49-52 | the doubling loop in `size_t` computes the least power of two and its exponent |
| PmmHeap.Heap.Aim | src/pmm.c:54-57 | the shifts in `size_t` yield the aligned address, without wrap-around |
| PmmHeap.Heap.Look | src/pmm.c:59-60 | the two fields read decide whether the block at hand fits |
| PmmHeap.Heap.Search | src/pmm.c:47-67 | following `next` through memory finds the first block of the list that fits, and `_heap.end`, never NULL, when none does |
| PmmHeap.Heap.SplitTail | src/pmm.c:106-113 | the tail header and the links to it; the word found at the new first header is the one foretold |
| PmmHeap.Heap.CloseWithTail | src/pmm.c:80-87 | the tail becomes a free header between the new header and the next one, and all four links are set |
| PmmHeap.Heap.CutBehindGap | src/pmm.c:76-102 | the header goes into the gap, the found block stays, tail and back links are right |
| PmmHeap.Heap.CutTail | src/pmm.c:105-114 | the tail is split off exactly when it is wide enough; no header below changes |
| PmmHeap.Heap.MoveHead | src/pmm.c:116-120 | the first header is moved up to the payload; its `front` is the word that memory holds there |
| PmmHeap.Heap.MoveHeader | src/pmm.c:121-131 | another header is moved up and its neighbours are relinked |
| PmmHeap.Heap.CutAtFront | src/pmm.c:103-134 | tail split and header move together |
| PmmHeap.Heap.CutBlock | src/pmm.c:76-134 | the bytes represent the cut list if and only if `HeadStepOk` held of the bytes before; all payloads survive |
| PmmHeap.Heap.Alloc | src/pmm.c:38-135 | the first block that fits is cut, its aligned address returned, every payload kept; the bytes describe the cut heap, in some reading of their headers, if and only if `HeadStepOk` held of the bytes before; when none fits an address behind the heap is returned, not NULL |
| PmmHeap.AllocOnBytes | src/pmm.c:76-134 | whatever headers one reads into the bytes after the call, they describe the heap only if the head step was right |
| PmmHeap.Heap.PassOver | src/pmm.c:143-144 | one turn of the backward walk: which two fields change |
| PmmHeap.Heap.WalkBack | src/pmm.c:142-146 | the backward walk ends, at the free predecessor, which then reaches up to the next block |
| PmmHeap.Heap.ResetHead | src/pmm.c:147-154 | a first block that becomes free is moved to the start of the heap |
| PmmHeap.Heap.AbsorbOne | src/pmm.c:156-157 | one turn of that loop: the neighbour joins, and which two fields changed |
| PmmHeap.Heap.AbsorbRight | src/pmm.c:155-158 | the loop absorbs the right neighbour if it is free, and stops |
| PmmHeap.Heap.MeltLeft | src/pmm.c:140-154 | the freed block and a free predecessor become one block |
| PmmHeap.Heap.Free | src/pmm.c:137-161 | the list changes as `Release` says, the heap stays valid, every other payload is kept |
| PmmHeap.Heap.Store | src/pmm.c:133 | a holder's store changes one byte of data and leaves the heap valid |
| PmmHeadStep.HeadWordIsNull | src/pmm.c:113-119 | the word found is zero if and only if four given bytes of the old header, the new `next` and the body are |
| PmmHeadStep.HeadWordAtOneAndEight | src/pmm.c:113-119 | moved by one byte it is zero, by eight it is `next` |
| PmmHeadStep.HeadWordInPadding | src/pmm.c:113-119 | moved by two to four bytes it is zero if and only if padding bytes are |
| PmmHeadStep.HeadStepExactly | src/pmm.c:105-120 | the head step is right if and only if those bytes are zero and, without a tail, the successor's back link is already exact |
| PmmHeadStep.GapOfEightBreaks | src/pmm.c:105-120 | a gap of eight bytes always breaks the heap |
| PmmHeadStep.WideGapIsRight | src/pmm.c:76-102 | a size that leaves a gap at the start never meets the head branch |
| PmmHeadStep.WideGapAtAlignedStart | src/pmm.c:54-57 | in a heap aligned to 32 bytes these are exactly the sizes above 16 |
| PmmHeadStep.NarrowGapCanFail | src/pmm.c:105-120 | for every other size there is a heap in order that the call breaks |
| PmmHeadStep.CallerCondition | src/pmm.c:76-120 | so a caller is safe in every heap if and only if a gap stays behind at the start |
| PmmHeadStep.TakeAndGive | src/pmm.c:38-161 | `m + 1` empty allocations, `m` given back: the first block is free and the link of the header behind it leads to the header just before |
| PmmHeadStep.StaleLinkIsReached | src/pmm.c:38-161 | for every size with a gap of at most one byte: after such a run the call breaks the heap, in any memory, because that link is not rewritten |
| PmmHeadStep.FoundWordIsReached | src/pmm.c:38-135 | for every size with a gap of two to twelve bytes: on memory that holds ones the first call breaks the heap |
| PmmHeadStep.NarrowGapIsReached | src/pmm.c:38-161 | so for every size that leaves no gap, and fits with room for four headers, the code itself reaches a heap that the call breaks |
| PmmHeadStep.GapOfEightIsReached | src/pmm.c:38-135 | one request of 16 bytes in a heap that begins at 0x10000C leaves, in the bytes, a first header whose `front` is its own tail |
| PmmHeadStep.FreeNeverEnds | src/pmm.c:141-146 | on such bytes, giving that block back goes round any number of times and goes on |
| PmmRuns.RunKeepsHeap | src/pmm.c:38-161 | over every run on memory whose head steps were right: the bytes spell a heap in order, its used blocks are those held, and every byte stored in a held block is still there |
| PmmRuns.RunBreaksExactly | src/pmm.c:105-120 | after the first head step that is not right, and after no other, the bytes describe the heap in no reading of their headers |
| PmmRuns.RunsEndWhereTheyBegan | src/pmm.c:137-161 | when everything was given back the bytes spell one free block from start to end |
| PmmRuns.HeldIsAlignedAndApart | src/pmm.c:38-135 | whatever is held is aligned, inside the heap, and apart from everything else held and all its headers |
| PmmRuns.CarefulCallersAreSafe | src/pmm.c:38-161 | callers whose sizes leave a gap at the start never meet a wrong head step |
| PmmRuns.ServeOne | src/pmm.c:38-161 | one request of such a caller, served by the code |
| PmmRuns.Serve | src/pmm.c:38-161 | the code serves any legal sequence of requests, and what it does is a run with all its properties |
| SimpleLock.Locks.constructor | src/libos/simple_lock.c:5-6 | no lock is held at first |
| SimpleLock.Locks.Init | src/libos/simple_lock.c:8-11 | initialising a lock changes nothing else |
| SimpleLock.Locks.Try | src/libos/simple_lock.c:13-27 | the lock is taken and counted, the flag saved by the first one, interrupts go off; a held lock only switches interrupts off |
| SimpleLock.Locks.Unlock | src/libos/simple_lock.c:29-41 | the lock is free and counted off, the last one restores a flag that was on; a free lock changes nothing |
| SimpleLock.CountIsHeldLocks | src/libos/simple_lock.c:13-41 | over every run the counter is the number of held locks and interrupts are off while it is positive |
| SimpleLock.LastDecides | src/libos/simple_lock.c:13-41 | over every run a lock is held exactly when what was done to it last was to take it |
| SimpleLock.SavedWhileInside | src/libos/simple_lock.c:21-23 | the saved flag stays the one found at the first acquire |
| SimpleLock.UnreleasedLockStays | src/libos/simple_lock.c:13-41 | a lock that is never released keeps interrupts off for good |
| SimpleLock.LastReleaseRestores | src/libos/simple_lock.c:36-39 | in any release order, interrupts are off throughout and the last release restores the flag |
| Kmt.Distance | src/kmt.c:150-151 | going round, every slot is 1 to 1024 steps away |
| Kmt.OneSlotFurther | src/kmt.c:150-151 | the index arithmetic visits the slots in order of distance |
| Kmt.DistanceIs | src/kmt.c:150-151 | the slots above come first, then those from 1 on, the slot itself last |
| Kmt.BoundedWaiting | src/kmt.c:128-156 | whatever happens between calls, a slot that stays runnable is picked after at most its distance, so within 1024 calls |
| Kmt.Kernel.constructor | src/kmt.c:31-46 | all slots are empty |
| Kmt.Kernel.Schedule | src/kmt.c:128-156 | the pick is the nearest runnable slot after the current one, going round |
| Kmt.Kernel.Create | src/kmt.c:48-95 | the first empty slot becomes a runnable thread, or none is empty and nothing changes |
| Kmt.Kernel.Teardown | src/kmt.c:98-126 | the first slot of the thread is emptied; not found, and a thread that runs, are told apart and change nothing |
| Kmt.Kernel.SemInit | src/kmt.c:170-173 | the count is set, whatever it was; the order survives exactly as the next row says |
| Kmt.InitKeepsSemOk | src/kmt.c:170-173 | giving a count, also to a semaphore in use, keeps the invariant if and only if it is not negative and, while a thread sleeps, not above the number of woken threads |
| Kmt.Kernel.TryWait | src/kmt.c:175-187 | one locked section of a wait: at zero the thread sleeps on the semaphore and no count changes, otherwise one unit is taken and nobody sleeps |
| Kmt.Kernel.FindSleeper | src/kmt.c:195-199 | the first thread in the pool that sleeps on the semaphore |
| Kmt.Kernel.Signal | src/kmt.c:189-206 | the count grows by one, and of the threads that sleep on the semaphore the one in the first slot is woken and nobody else; without a sleeper no slot changes |
| Kmt.SignalWakesFirst | src/kmt.c:195-203 | the step wakes exactly the first sleeper, and one sleeper fewer is left |
| Kmt.SignalWakesNobody | src/kmt.c:195-203 | without a sleeper only the count changes |
| Kmt.SleeperIsWoken | src/kmt.c:175-206 | over every run: as long as nobody in a slot in front goes to sleep, as many signals as there are sleepers up to a slot have woken the one in it |
| Kmt.TryKeepsSemOk | src/kmt.c:175-187 | a wait step keeps: nobody sleeps while there are more units than woken threads about to take them |
| Kmt.WakeKeeps | src/kmt.c:193-203 | waking one sleeper pays for one more unit, and disturbs no other semaphore |
| Kmt.SignalKeepsSemOk | src/kmt.c:189-206 | a signal keeps it |
| Kmt.CreateKeepsSemOk | src/kmt.c:48-72 | creating a thread keeps it |
| Kmt.TeardownKeepsSemOk | src/kmt.c:98-126 | tearing down a thread that waits for nothing keeps it |
| Kmt.EveryRunWakes | src/kmt.c:175-206 | no interleaving of waits, signals, creations and teardowns loses a wake-up |
| Kmt.CountIsConserved | src/kmt.c:175-206 | over every run: count = initial + signals - completed waits |
| Kmt.SleepersAreServed | src/kmt.c:175-206 | while a thread sleeps, that balance lies between zero and the number of woken threads |
| Kvfs.WrittenIsReadBack | src/fs/kvfs.c:213-259 | reading where it was written delivers what was written, without the extra newline; with it when more is asked for at the end of the file |
| Kvfs.AppendedAtTheEnd | src/fs/kvfs.c:234-236 | a write at the end is concatenation |
| Kvfs.PiecewiseWrite | src/fs/kvfs.c:231-259 | a record written in two pieces is the record written at once |
| Kvfs.DisjointWritesCommute | src/fs/kvfs.c:240-256 | writes to ranges that do not meet can be exchanged, although each may grow the file |
| Kvfs.LastWriteWins | src/fs/kvfs.c:231-259 | over any history of writes every byte is the one written to its place last |
| Kvfs.NeverWritten | src/fs/kvfs.c:240-250 | bytes no write ever reached are the original ones, or zero |
| Kvfs.LengthGrows | src/fs/kvfs.c:240-252 | over any history the file ends where it did or where some write did, whichever is furthest |
| Kvfs.DeliveredExactly | src/fs/kvfs.c:213-228 | a read delivers the rest of the file as far as asked for, byte by byte, and one newline when more was asked for |
| Kvfs.File.Seek | src/fs/kvfs.c:197-211 | the new position for each `whence`, and failure without a move for any other |
| Kvfs.Kvfs.constructor | src/fs/kvfs.c:294-301 | all slots start free |
| Kvfs.Kvfs.Create | src/fs/kvfs.c:117-137 | the first free slot becomes an empty file, or none is free and nothing changes |
| Kvfs.Kvfs.Read | src/fs/kvfs.c:213-228 | the bytes from the position on, as many as asked for or as there are, and then one newline (10) when more was asked for; the position stays |
| Kvfs.Kvfs.Lay | src/fs/kvfs.c:240-250 | growing, copying and overwriting buffers yields the bytes laid over the old contents |
| Kvfs.Kvfs.Write | src/fs/kvfs.c:231-259 | a permitted write overlays at the position (the end with O_APPEND) and advances; a refused one changes only the position; no other file changes |
| Kvfs.Kvfs.WriteAndRewind | src/fs/kvfs.c:197-259 | a write and a seek back by what it returned stand where it was written |
| Kvfs.Kvfs.WriteThenRead | src/fs/kvfs.c:197-259 | write, seek back, read: delivers what was written, and at the end of the file one newline when more is asked for |
| VfsAppend.TryKeepsOk | src/kmt.c:175-187 | entering the section keeps: the count and the threads inside add up to 1 |
| VfsAppend.Alone | src/vfs.c:265-281 | a thread in the section is the only one |
| VfsAppend.AdvanceKeepsOk | src/fs/kvfs.c:231-259 | every step inside keeps: the file is its old contents and whole records |
| VfsAppend.OneAdvance | src/fs/kvfs.c:234-259 | a thread inside can always take its next step, and each brings it one step nearer to the way out |
| VfsAppend.WriterLeaves | src/fs/kvfs.c:234-259 | scheduled as often as it has steps left, it is out and its record stands at the end of the file |
| VfsAppend.WriteAppends | src/vfs.c:265-281 | a whole vfs_write from a free section: seven steps append exactly the next record and leave the semaphore at 1 |
| VfsAppend.EveryRunIsOk | src/vfs.c:265-281 | so does every interleaving of any number of writers |
| VfsAppend.SectionIsExclusive | src/vfs.c:39 | the count of `vfs_sem` plus the threads in a section is always 1 |
| VfsAppend.AppendsAreAtomic | src/vfs.c:265-281 | the file is its old contents followed by whole records, each thread's in its own order |
| VfsAppend.StoredRecordIsWhole | src/fs/kvfs.c:250-256 | each record that was stored stands in the file unsplit |
| VfsAppend.EntriesCountUp | src/vfs.c:265-281 | no record is stored twice |
| VfsAppend.ReturnedIsStored | src/vfs.c:265-281 | each vfs_write that returned has its entry in the log: the returns counted in the run are the entries, but for one on its way out |
| VfsAppend.TextIsAllRecords | src/fs/kvfs.c:250-256 | the file has grown by exactly the bytes of the records in the log |
| VfsAppend.NothingIsLost | src/vfs.c:265-281 | when every vfs_write has returned, the file has grown by all records of all threads |
| Layout.OpenOrClosed | src/console/console.c:171-178 | a line that fills its rows exactly differs, before its newline, only by the row already begun |
| Layout.RowsGrow | src/console/console.c:156-195 | one more character changes the rows of a text in one step: a new row, a swallowed newline, or a longer last row |
| Layout.FillGrows | src/console/console.c:177-192 | when the next newline will be swallowed |
| Layout.RowsHoldTheText | src/console/console.c:176 | the rows hold the text without its newlines: nothing lost, doubled or moved |
| Layout.CharacterStands | src/console/console.c:171-192 | behind finished lines, character q * w + r of a line stands q rows below the row its line begins in, at column r |
| Layout.RowsConcat | src/console/console.c:177-192 | finished lines keep their rows, and what follows begins in the row below |
| Layout.LineTakesRows | src/console/console.c:177-192 | a finished line of q full rows and 1 to w more characters takes q + 1 rows, an empty one takes one |
| Layout.RowsFit | src/console/console.c:177-188 | no row is wider than the screen |
| Console.Ring | src/console/console.c:101 | the buffer row behind a screen row |
| Console.LastIsShown | src/console/console.c:171-195 | a character that is no newline is shown behind the last one, in a row that has scrolled by one exactly when it filled the last row of the screen |
| Console.Screen.constructor | src/console/console.c:107-131 | a new screen shows the empty text |
| Console.Screen.ClearScreen | src/console/console.c:33-38 | every cell on display is blank |
| Console.Screen.NewRow | src/console/console.c:159-169 | after the step the display shows one more, empty row: the last rows, scrolled when the screen is full |
| Console.Screen.Put | src/console/console.c:176 | the character appears at the end of the last row and nowhere else |
| Console.Screen.Step | src/console/console.c:156-195 | the display changes as the rows of a text do |
| Console.Screen.PrintChar | src/console/console.c:151-200 | the ring shows the last rows of everything printed so far, laid out as a text, and the cursor stands behind it |
| Console.Screen.PrintString | src/console/console.c:202-207 | so for strings |
| Vsprintf.FieldWidth | src/nslibc/vsprintf.c:88-124 | a field is as wide as asked for, or as its sign, prefix and digits need |
| Vsprintf.Fill | src/nslibc/vsprintf.c:102-104 | the padding loop, and the count it leaves behind |
| Vsprintf.Convert | src/nslibc/vsprintf.c:95-99 | the reversed buffer holds the digits of the 32-bit value and is never overrun |
| Vsprintf.Emit | src/nslibc/vsprintf.c:120-121 | the buffer is written backwards |
| Vsprintf.TakeSign | src/nslibc/vsprintf.c:83-94 | sign, magnitude (also of the least `int`) and remaining width; `FieldLooks` says which sign |
| Vsprintf.LayOut | src/nslibc/vsprintf.c:102-124 | padding, sign, prefix, zeros and digits come in order, padding on one side only |
| Vsprintf.Number | src/nslibc/vsprintf.c:72-125 | the field is appended, which `FieldLooks` describes part by part; a base outside 2 to 36 yields nothing |
| Vsprintf.SimpleStrtoul | src/nslibc/vsprintf.c:22-45 | prefix, digits, value modulo 2^32 and where reading stops |
| Vsprintf.DigitsAreRead | src/nslibc/vsprintf.c:99 | digits evaluate to the number they were made from, in every base from 2 to 16 |
| Vsprintf.ScanReads | src/nslibc/vsprintf.c:37-41 | the wrapping loop stops behind the run of digits with its value modulo 2^32 |
| Vsprintf.PlainFieldIsReadBack | src/nslibc/vsprintf.c:22-125 | a field without sign and prefix is read back completely if and only if it has no padding spaces |
| Vsprintf.PrefixedFieldIsReadBack | src/nslibc/vsprintf.c:22-125 | a prefixed field is read back completely with base 0 if and only if it has no padding spaces and its prefix is not `0X` |
| Vsprintf.DigitsOfTheTable | src/nslibc/vsprintf.c:76-78 | the digits are those of the two tables, and each is read as its place in them |
| Vsprintf.FieldLooks | src/nslibc/vsprintf.c:72-125 | every field is spaces, sign, prefix, zeros, digits, spaces: '-' for a negative signed number and otherwise '+' or a space if asked for, the digits of the magnitude (also of -2^31) without leading zeros, the width filled on one side only, zeros inside behind the sign |
| Vsprintf.FieldIsReadBack | src/nslibc/vsprintf.c:22-125 | with any flags, sign and width, the magnitude is read back from behind sign and prefix, up to the last digit; in decimal without leading zeros also with base 0 |
| Vsprintf.SkipAtoi | src/nslibc/vsprintf.c:50-57 | the value of the longest run of decimal digits |
| Format.ItemsSpellTheFormat | src/nslibc/vsprintf.c:142-257 | nothing of a format is lost or read twice, for every string |
| Format.DirectiveIsRead | src/nslibc/vsprintf.c:149-190 | a conversion is read with its flags, width, precision and qualifier, whatever follows |
| Format.SpelledItemsAreRead | src/nslibc/vsprintf.c:142-257 | every list of well-formed conversions and characters is read back from its spelling |
| Format.PrintChar | src/nslibc/vsprintf.c:193-198 | one character, padded left or right |
| Format.PrintText | src/nslibc/vsprintf.c:201-216 | a string cut to the precision and padded to the width |
| Format.ReadFlags | src/nslibc/vsprintf.c:149-159 | the flags are the set of flag characters, in any order and number |
| Format.ReadWidth | src/nslibc/vsprintf.c:160-171 | digits are the width; a `*` takes an argument and stays in the format |
| Format.ReadPrecision | src/nslibc/vsprintf.c:172-184 | digits behind the point are the precision, none mean zero |
| Format.ReadHeader | src/nslibc/vsprintf.c:149-190 | everything in front of the conversion is read as the directive says |
| Format.Switch | src/nslibc/vsprintf.c:191-256 | each conversion takes its argument and prints it, as the rows from `NumberIsRendered` to `OthersAreRendered` say |
| Format.PrintDirective | src/nslibc/vsprintf.c:146-256 | one directive, including unknown letters and a format that ends early |
| Format.Sprint | src/nslibc/vsprintf.c:127-262 | the output is what the items of the format mean, one after the other |
| Format.EscapedTextIsPrinted | src/nslibc/vsprintf.c:248-252 | with every percent sign doubled, any text prints as itself |
| Format.StarIsPrinted | src/nslibc/vsprintf.c:164-171 | a `*` for the width takes an argument and is printed |
| Format.PrecisionStarIsPrinted | src/nslibc/vsprintf.c:173-184 | so does a `*` for the precision, and the width in front of it is dropped |
| Format.StarIsNotAWidth | src/nslibc/vsprintf.c:164-171 | no width written into the format would print the same |
| Format.PrintedIsReadBack | src/nslibc/vsprintf.c:22-262 | a printed unsigned number is read back completely if and only if its field has no padding spaces |
| Format.NumberIsRendered | src/nslibc/vsprintf.c:218-243 | d, i, u, o, x, X and p with all flags, widths and precisions: base, sign, prefix, letters and magnitude of what is printed, how the field is filled, and one argument is taken |
| Format.DecimalIsRendered | src/nslibc/vsprintf.c:236-241 | `%d` and `%i` print a '-' exactly for a negative argument, and decimal digits that are read back as the argument without its sign |
| Format.CharIsRendered | src/nslibc/vsprintf.c:193-198 | `%c` prints the low byte at the end of its field, or at the start with '-' |
| Format.StringIsRendered | src/nslibc/vsprintf.c:201-216 | `%s` prints the string cut to the precision at the end of its field, or at the start with '-'; `<NULL>` for a null pointer |
| Format.CutOffIsRendered | src/nslibc/vsprintf.c:248-254 | a format that ends within a directive prints its percent sign |
| Format.OthersAreRendered | src/nslibc/vsprintf.c:244-256 | `%%` prints one percent sign, `%n` nothing, an unknown letter itself behind a percent sign |
| Stdlib.Generator.Srand | src/nslibc/stdlib.c:3-5 | the sequence of the new seed begins, whatever was drawn before |
| Stdlib.Generator.Rand | src/nslibc/stdlib.c:7-13 | the n-th call since srand answers the n-th value of the sequence of that seed, below 2^31 |
| Stdlib.NextIsModular | src/nslibc/stdlib.c:10 | 32-bit wrap-around and mask are one reduction modulo 2^31 of x * 1103515245 + 12345 |
| Stdlib.Displacement | src/nslibc/stdlib.c:10 | how far n steps move a value: a geometric sum times an odd number |
| Stdlib.SumHasTheSameTwos | src/nslibc/stdlib.c:10 | that sum is divisible by exactly the powers of two that divide n |
| Stdlib.ReturnsExactlyAtThePeriod | src/nslibc/stdlib.c:7-13 | n steps return to a value if and only if 2^31 divides n |
| Stdlib.NoEarlyRepeat | src/nslibc/stdlib.c:7-13 | no value repeats within 2^31 steps |
| Stdlib.SeedModulo | src/nslibc/stdlib.c:3-13 | only the low 31 bits of a seed matter |
| Stdlib.VisitsEveryValue | src/nslibc/stdlib.c:3-13 | from any seed the first 2^31 calls return every value |
| Dcache.WalkConcat | src/fs/path.c:31-80 | a walk is a fold: a path walked in two parts |
| Dcache.DotsDoNotMatter | src/fs/path.c:45-61 | `.` components never matter, except that a last one asks for a directory |
| Dcache.LookupNeverPanics | src/fs/path.c:242-248 | a dentry that is mounted on has its mount in the list |
| Dcache.LookupKeepsNdOk | src/fs/path.c:226-256 | after a step by name, also into a mount, the mount owns the dentry |
| Dcache.DotDotKeepsNdOk | src/fs/path.c:214-224 | so after `..`, which leads from a directory to a directory |
| Dcache.DotDotUndoesLookup | src/fs/path.c:214-253 | `..` takes back any step by name, dentry and mount, also across a mount |
| Dcache.WalkKeepsNdOk | src/fs/path.c:31-80 | so for every walk |
| DcacheMake.CreateKeepsOk | src/fs/path.c:160-191 | adding a missing name keeps the tree in order and loses nothing that was found |
| DcacheMake.GrowsWalk | src/fs/path.c:189-191 | every path that resolved still resolves to the same dentry |
| DcacheMake.FindOrMakeIsFound | src/fs/path.c:149-192 | a component that was found or made is what the next lookup of it finds |
| DcacheMake.MadePathIsFound | src/fs/path.c:83-212 | what make_path answers is what a lookup of the path then finds, of the kind asked for; older paths are kept, also when it fails half-way |
| DcacheMake.DeniedExactly | src/fs/acl.c:9-45 | the check for reading and writing passes exactly when both bits of the owner, of the group or of the others are set |
| DcacheMake.MissingNameIsMade | src/fs/path.c:149-192 | a missing component is made exactly when the directory's bits allow it and, for a file, a slot is free; what then is there and what it costs; otherwise nothing changes |
| DcacheMake.MakeSkips | src/fs/path.c:110-212 | components that are there lead on without a change, and a file in the way stops everything |
| DcacheMake.FirstOfSeveral | src/fs/path.c:149-200 | a missing component with more behind it becomes a directory, from which the rest of the path, whatever it is, is made, or stops everything |
| DcacheMake.MissingPathIsMade | src/fs/path.c:83-212 | for any path of which names are missing at the end: how many are made, which dentries then form the chain, at which addresses and with which inode, what else stays, and when the last is answered |
| DcacheMake.ExistingPathIsAnswered | src/fs/path.c:83-212 | a path that is there is answered exactly when it is of the kind asked for, and nothing is made |
| DcacheMount.MountKeepsOk | src/vfs.c:144-152 | mounting keeps the mount table in order if the directory is not itself the root of a tree; what a caller sees otherwise is in `PathLeadsToNewRoot` and `SecondMountIsNotUndone` |
| DcacheMount.MountedExactly | src/vfs.c:137-152 | the new root, the new mount at the head of the list and the count of the mountpoint; everything else stays |
| DcacheMount.LookupWhileMounted | src/fs/path.c:242-251 | a step by name leads to the mounted root if it meets the mountpoint, and is as before otherwise |
| DcacheMount.OtherWalksAreUnchanged | src/fs/path.c:242-251 | a walk that never steps onto the mountpoint does not notice the mount |
| DcacheMount.WalkContinuesInMount | src/fs/path.c:242-251 | a walk that does continues from the mounted root |
| DcacheMount.PathLeadsToNewRoot | src/vfs.c:137-152 | the mounted path leads to the new root if and only if no tree was mounted there before |
| DcacheMount.UnmountUndoesMount | src/vfs.c:193-202 | taking the new mount out of the list restores the result of every walk |
| DcacheMount.GrownAfterUnmount | src/vfs.c:193-202 | a tree that gained any dentries while the new mount was there is, without it, the old tree with more dentries |
| DcacheMount.UnmountRestoresOldWalks | src/vfs.c:193-202 | so unmounting restores every walk that resolved before the mount, whatever was created in between |
| DcacheMount.UnmountKeepsOk | src/vfs.c:193-202 | unmounting keeps the table in order if and only if it is not the root file system and has no child mount |
| DcacheRuns.EveryRunIsOk | src/vfs.c:101-210 | so is every state of every run of make_path, mount and unmount |
| DcacheRuns.MountTableIsSound | src/fs/path.c:242-248 | over every run `d_mounted` counts the mounts, the panic is unreachable and `..` undoes every step |
| DcacheRemount.RemountExactly | src/vfs.c:101-210 | mounting on a path and unmounting the same path restores every walk if and only if the path leads to the new root in between or is "/", and leaves the table in order only in the first case |
| DcacheRemount.EntersExactly | src/fs/path.c:214-256 | whether it will lead there, foretold for every path from the tree before the mount |
| DcacheRemount.NamedDirectoryEnters | src/vfs.c:101-210 | for a path without `..`: if and only if it has a component other than `.` and its directory is not the root of a mounted tree |
| DcacheRemount.DotDotNeverEnters | src/vfs.c:101-210 | a path that ends in `..` never does |
| DcacheRemount.SecondMountIsNotUndone | src/vfs.c:183-202 | on the root of a mounted tree the first mount goes instead of the second, walks change and the table is broken |
| DcacheRemount.RootMountIsLost | src/vfs.c:183-202 | on "/" the root mount goes; no walk changes, but the table is broken |
| DcacheRemount.MountedTwice | src/vfs.c:183-202 | an instance with a directory mounted on twice |
| DcacheRemount.MountedFromBelow | src/vfs.c:175-181 | an instance in which the path is not found after the mount and unmounting it fails |
| Path.SpelledComponents | src/fs/path.c:24-43 | the components of a path do not depend on how many slashes separate or follow them |
| Path.SpelledRelative | src/fs/path.c:16-43 | so for a path without a leading slash, and it asks for a directory exactly when a slash ends it |
| Path.FileSystem.constructor | src/vfs.c:36-63 | the first thread stands in the root directory, which belongs to user 0 with mode 0x755 and is the root of the one mount; three descriptors are taken |
| DcacheRuns.FirstName | src/vfs.c:36-63 | in that directory user 0 and nobody else can make a directory or a file |
| Path.FileSystem.Take | src/fs/path.c:32-43 | the cursor takes one component, skips slashes, and knows whether a slash ends the path |
| Path.FileSystem.PathLookup | src/fs/path.c:11-81 | the loop over characters answers the fold over the components, for every string: from the root with a leading slash, from the working directory without |
| Path.FileSystem.FindOrCreate | src/fs/path.c:149-192 | one component is found, made, or refused for want of permission or inode slots, as `MissingNameIsMade` says |
| Path.FileSystem.MakeComponents | src/fs/path.c:110-211 | the loop over characters makes the components one after the other, as `MakeSkips` and `FirstOfSeveral` say |
| Path.FileSystem.MakePath | src/fs/path.c:83-212 | make_path keeps the tree in order; with names missing at the end it makes exactly what `MissingPathIsMade` says |
| Path.FileSystem.Mkdir | src/vfs.c:306-328 | an existing path is refused unchanged; with names missing it succeeds exactly when the directory allows it and, for several, the bits asked for do, and then all of them are directories in a chain |
| Path.FileSystem.Open | src/vfs.c:213-252 | a missing file is opened exactly when its directory allows it, a slot and a descriptor are free and no slash ends the path; the first free descriptor is bound to the file of that path; when it fails no descriptor changes |
| Path.FileSystem.MountOn | src/vfs.c:101-158 | exactly when it succeeds, what then hangs where, and exactly when that leaves the table in order |
| Path.FileSystem.FindRooted | src/vfs.c:183-191 | the first mount of the list whose root is the directory found |
| Path.FileSystem.Unmount | src/vfs.c:161-210 | exactly when it succeeds, which mount goes, and exactly when that leaves the table and the caller's directories in order |
| Path.FileSystem.MountAndUnmount | src/vfs.c:101-210 | both calls in turn restore every walk if and only if the path, before them, enters the directory by name |

## Left out

- PmmHeap.Heap.Alloc: when no block fits, line 69 does not notice, and the code goes on with the bytes behind the heap as a header; what it stores there is not modelled, only the address it returns.
- PmmHeap.Heap.Alloc: requires a heap of at most 2 GiB below 3 GiB and a request of at most 2^30 bytes; `FitTestExact`, `HugeRequestPassesFitTest` and `RoundingNeverEnds` say what happens beyond.
- PmmHeap.Heap.Free: `ptr` must come from an allocation that is still held, as line 140 takes for granted.
- PmmHeap.Heap.constructor: the twelve bytes at `_heap.end` can be read and written, because lines 127, 144 and 151 store there.
- PmmHeadStep.NarrowGapIsReached: sizes that fit, but with room for fewer than four headers behind them, are left to `HeadStepExactly`.
- PmmRuns.Serve: callers pass sizes that leave a gap at the start and that fit; for other sizes the runs are under the condition of `RunKeepsHeap`.
- The kernel memory lock: each call of the allocator is one step; `pmm_print_memory_layout`.
- Kmt.Kernel.Schedule: requires a runnable thread, without which the loop of lines 149-152 does not end; stack fences, pool magic and their panics are left out.
- Kmt.Kernel.Signal: an empty slot counts as not matching, where line 196 reads through a null pointer; the count is not bounded by 32 bits.
- Kmt.Kernel.Create: stack, register set, credentials and descriptors of the new thread are left out, and the failure of its stack allocation.
- Kmt.Kernel.Teardown: only threads that wait for nothing are torn down; that `thread_lock` stays held when the thread is not found (lines 106-109) is told by the result alone, its consequence is `UnreleasedLockStays`.
- Kmt.TeardownKeepsSemOk: the same.
- SimpleLock.Locks.Try: the messages for misuse are left out; `lockcount` is not bounded by 32 bits.
- SimpleLock.CountIsHeldLocks: nobody else switches interrupts while a lock is held.
- Kvfs.Kvfs.Read: positions are not negative; the position is not bounded by 32 bits, nor in `Kvfs.Kvfs.Write`.
- Kvfs.Kvfs.Write: allocation does not fail, and the old buffer is dropped, not given back to the allocator.
- `kvfs_truncate`, `kvfs_truncate_range`, `kvfs_rmdir`, `kvfs_open`: not reached from the file operations modelled.
- VfsAppend.AppendsAreAtomic: all writers have the file open with O_APPEND and O_WRONLY; readers and other files are left out.
- The file systems behind a tree know no names beyond its dentries, which holds for kvfs (`src/fs/kvfs.c:112-115`); procfs and devfs, whose lookups may add dentries, are left out, as are `d_drop` and revalidation.
- DcacheRuns.EveryRunIsOk: callers do not mount on the root of a tree, unmount "/", or unmount a tree that carries other mounts; `MountKeepsOk` and `UnmountKeepsOk` say that the invariant fails otherwise.
- Path.FileSystem.MountOn: the file system's own `mount` is a parameter that says whether it yields a root, whose inode is any that `roots` names; that root is empty, as that of kvfs is; one-level crossing only, as in the code.
- Path.FileSystem.MountAndUnmount: stops after the mount when the directory is the root of a tree, because the table is then broken; `RemountExactly` covers that case on the table.
- Path.FileSystem.Unmount: `umount_begin` and the two calls of `pmm->free`.  The one in line 205 passes `mnt_fs`, which is a static object (`kvfs_obj`, `procfs_obj`, `devfs_obj`) and was never handed out, so it violates what `PmmHeap.Heap.Free` requires; line 206 gives back the mount.
- Path.FileSystem.Open: the `struct file` and its flags; the memory of a file that found no descriptor is not given back, as in the code.
- Dentries, mounts and inodes are values in stores keyed by addresses that rise and are never reused, and the chain `d_subdirs`/`d_child` is a sequence: aliasing through stale pointers is not captured.  Allocation failure in the VFS is left out.
- `vfs_access`, `vfs_read`, `vfs_lseek`, `vfs_close`: thin wrappers.
- Console.Screen.PrintChar: drawing of pixels and of the cursor, `setcursor` and the console lock; the screen measures at most 199 by 200 cells, which the array requires.
- Vsprintf.SimpleStrtoul: the string is a sequence without a terminating zero; `end` is a position in it.
- Vsprintf.SkipAtoi: overflow of `int`, which C leaves undefined.
- Format.Switch: `%n` prints nothing and takes its argument; its store through that argument is not modelled.
- Format.Sprint: arguments are words on the stack and the strings they may point to; a caller that passes too few has no answer, where the code reads on.  The terminating zero, the return value, `sprintf`, `printf` and `syslog` are left out.
