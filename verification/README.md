# A model of CatKernel's heap, paging, file readers and small state machines

The project models the parts of the kernel whose correctness rests on pointer
surgery, address arithmetic or many steps taken in any order, and proves what
they promise. Run `dafny verify dfyconfig.toml`.

**The heap** (`Heap*.dfy`, `LibAlloc*.dfy`). `HeapModel` describes liballoc on
values: page runs, each with its blocks in address order, the hint, the byte
memory and the running totals. `HeapSafety`, `HeapContents` and `HeapRuns`
prove the allocator's promises about that description, `HeapEffects` what each
call returns, counts, takes from the provider and gives back. `LibAlloc` is the
allocator itself, a class with the list heads, the counters, the headers found
by address and the memory, updated in place with the loops and branches of the
C code; every operation is proved to do exactly what the description says.
`HeapImage` and `HeapFlat` put headers and bodies into one flat memory: every
header survives being encoded, every call becomes a set of header, note and
payload writes, and over every run none of them touches another live payload
and all headers stay in place.
`HeapSections`, `HeapThreads` and `HeapTraces` put the spinlock around the heap,
for any number of threads, any interleaving of word-by-word write-backs, and
callers storing into their blocks, copying between them and freeing null all the
while; `HeapProgress` shows that the lock is never stuck.

**Paging** (`PageEntries.dfy`, `PageTables.dfy`, `Mmu.dfy`). Directories and
tables are frames in memory; `Walk` is the processor's two-level walk (Intel
SDM volume 3A, section 4.3). It is proved equal to an abstract partial map over
every run of map and unmap calls, in every address space at once. An unmap in a
slot that never had a table is a page fault, which ends the run.

**Readers** (`CStrings.dfy`, `Ustar.dfy`, `Ext2Volume.dfy`, `Ext2Dir.dfy`,
`Ext2File.dfy`). The archive walk is checked against a list of files laid out
one behind the other, the ext2 path walk against a recursive resolver over
decoded directory entries, the ext2 file reader against the logical blocks of
the file.

**Small machines** (`Ring.dfy`, `Tty.dfy`, `SchedModel.dfy`, `Sched.dfy`,
`Itoa.dfy`). The ring buffer against a bounded queue, line input against a pure
line editor, the timer-driven scheduler over all its runs, and both integer
printers against one text.

Several statements come out as conditions, because the code does not meet the
plain one. They are proved in both directions, with a failing input:

- 32-bit sums in malloc are right exactly for requests up to a limit
  (`HeapRuns.WrapLimit`, `HeapRuns.WrapExample`).
- free and realloc go by the word at the header alone: they go astray exactly at
  a header that shows the magic without being a live block's
  (`HeapSafety.FreeStrays`, `HeapFlat.RejectedExactly`, `HeapFlat.ForgedHeader`).
- realloc copies to address 0 exactly if a block with bytes in it has to grow,
  nothing fits and no pages are granted (`HeapContents.ReallocFaults`,
  `HeapRuns.GrowingFaults`).
- free of null counts its warning without the lock, so the counter is exact
  exactly if no two increments overlapped (`HeapTraces.WarningsAreSerial`,
  `HeapTraces.LostWarning`).
- The mask meant to clear the ignored bits of a page table entry clears none
  (`PageEntries.MaskClearsNothing`; the comments at `src/cpu/mmu.c:106` say
  otherwise, the code is followed), so they are clear exactly for user flags
  below 128 (`PageEntries.IgnoredBitsClear`).
- Unmapping faults exactly in a slot nothing was ever mapped into
  (`PageTables.UnmapFaults`, `PageTables.FaultsWithoutMap`), so from the start
  exactly from 12 MiB on (`Mmu.FirstUnmapFaults`).
- Rounding a region up to pages covers it exactly if the sum does not wrap
  (`Mmu.PagesCover`, `Mmu.LargeRegionUncovered`).
- A bulk read of the ring runs past the buffer exactly if it crosses the end
  (`Ring.RingBuffer.Read`, `Ring.BulkReadOverruns`).
- Look-ups by name compare with the kernel's strcmp, which looks at the length
  of its first argument only. For names that are there and names that are not,
  when they are exact is stated by `Ustar.ExactLookup` and `Ext2Dir.FindExact`,
  and for whole paths by `Ext2Dir.ResolveExact` and `Ext2Dir.TrailExact`
  (`Ustar.LongerNameAnswers`, `Ext2Dir.PrefixShadows`).
- The search of a directory ends exactly if it comes to no used entry of size 0
  that does not match (`Ext2Dir.SearchEnds`, `Ext2Dir.DirectoryEnds`,
  `Ext2Dir.LoopingBlock`).
- Inodes are read at the right place exactly if inodes have 128 bytes or stand
  first in their block (`Ext2Volume.SlotIsEntry`,
  `Ext2Volume.LargeInodesMissed`), and files are read as they are exactly if
  they have no holes (`Ext2File.ReadsTheFile`, `Ext2File.HoleEndsReading`) and
  their size rounds up in 32 bits (`Ext2File.BlocksCover`,
  `Ext2File.LargeFileUnread`).
- The scheduler's scan passes over the slot behind each free one, so a switch
  only ever goes to the first even slot in use (`SchedModel.WhoIsNext`); once
  the task in slot 0 runs no other does (`SchedModel.FirstForever`). From the
  start that is the first task, and no other is ever entered
  (`SchedModel.BootRunsOneTask`).
- A task that never ran finds its own page directory exactly if it was loaded
  already (`SchedModel.OwnDirectory`, `SchedModel.ForeignDirectory`).
  This, like the frames kept for other tasks, concerns states the boot sequence
  does not reach.
- atoi inverts itoa exactly from -1 on (`Itoa.AtoiInverts`).

## Model

| member | source | states |
|---|---|---|
| `HeapGeometry.PayloadInBody` | src/mem/liballoc.c:28-41 | The pointer handed out is 16-byte aligned; its offset note and the requested bytes lie inside the block's own body and do not overlap |
| `HeapGeometry.UnalignInvertsAlign` | src/mem/liballoc.c:44-52 | For every raw address, UNALIGN of an aligned pointer gives the exact header address back |
| `HeapGeometry.UnalignByNote` | src/mem/liballoc.c:44-52 | UNALIGN goes back by the note 16 bytes before the pointer if it is below 32, and leaves the pointer otherwise |
| `HeapGeometry.DifferencesWrap` | src/mem/liballoc.c:702-705 | Differences of addresses are modulo 2^32, and as a C int the representative nearest to 0 |
| `HeapGeometry.PayloadsDiffer` | src/mem/liballoc.c:28-41 | The requested bytes of one block end before the note of the next |
| `HeapGeometry.FreeIsSumOfGaps` | src/mem/liballoc.c:336 | size - usage of a major is exactly the sum of its front, middle and tail gaps |
| `HeapGeometry.NoGapExceedsFree` | src/mem/liballoc.c:349-354 | No gap is larger than size - usage, which is why CASE 1 may skip a major without looking at its gaps |
| `HeapGeometry.InsertGood` | src/mem/liballoc.c:424-541 | A block put at the start of a gap it fits keeps the major's blocks ordered, inside it and disjoint |
| `HeapGeometry.RemoveGood` | src/mem/liballoc.c:678-681 | Taking a block out keeps them so |
| `HeapSafety.RoomOfOne` | src/mem/liballoc.c:391-541 | The gap taken in a major is the first that fits, and none is taken only if none fits |
| `HeapSafety.WalkIsFirstFit` | src/mem/liballoc.c:334-575 | The walk with its skipping, hint start and single restart ends, finds the first gap that fits in visiting order, and gives up only when no gap of any major fits |
| `HeapSafety.WalkKeepsHint` | src/mem/liballoc.c:339-344 | The best-bet hint stays null or in the list throughout the walk |
| `HeapSafety.SearchIsFirstFit` | src/mem/liballoc.c:324-339 | The same for the whole search from the start: starting at the hint loses nothing |
| `HeapSafety.FreshRunHasRoom` | src/mem/liballoc.c:208-226 | The page count requested always suffices for the two headers and the padded request |
| `HeapSafety.PlaceKeeps` | src/mem/liballoc.c:391-541 | Placing a block keeps the whole heap well formed: order, disjointness, notes, totals, hint |
| `HeapSafety.MallocKeeps` | src/mem/liballoc.c:262-588 | malloc keeps the heap well formed; it returns null exactly when no gap of any major fits and the provider refuses, and then only the hint and the warning counter change |
| `HeapSafety.MallocSpot` | src/mem/liballoc.c:366-541 | A run is requested only when nothing fits; otherwise the block goes to the start of the first fitting gap of its major and nothing else in the lists changes |
| `HeapSafety.MallocPointer` | src/mem/liballoc.c:408-410 | The returned pointer leads back to the new block, whose sizes are the request and the padded request; one byte of memory, the note, is written |
| `HeapSafety.ReleaseKeeps` | src/mem/liballoc.c:671-709 | Unlinking a block, and discarding a major that became empty, keeps the heap well formed |
| `HeapSafety.FreeKeeps` | src/mem/liballoc.c:599-716 | free keeps the heap well formed for every argument, null and pointers to no block included, up to the point where it may go astray |
| `HeapSafety.FreeStrays` | src/mem/liballoc.c:614-671 | free goes astray exactly at a header that shows the magic without being a live block's, with nothing changed yet |
| `HeapSafety.ReallocStrays` | src/mem/liballoc.c:758-809 | So does realloc, whatever the new size, of a pointer not its own |
| `HeapSafety.FreeUndoesMalloc` | src/mem/liballoc.c:599-716 | free of malloc's pointer never goes astray and restores majors, blocks, gaps, totals and counters, whichever case placed the block and also from a requested run; only the hint and the note byte may differ |
| `HeapContents.MallocFrame` | src/mem/liballoc.c:391-541 | malloc moves no live block and changes none of its requested bytes |
| `HeapContents.NewBlockIsNew` | src/mem/liballoc.c:391-541 | The pointer returned never belongs to a block that was live before |
| `HeapContents.FreeFrame` | src/mem/liballoc.c:599-716 | free ends the life of the block its argument leads to; of any other argument it leaves every block and its bytes as they were, up to the point where it may go astray |
| `HeapContents.InsideKeeps` | src/mem/liballoc.c:28-41 | A caller writing within its requested bytes cannot harm the heap or another block |
| `HeapContents.ShrinkKeeps` | src/mem/liballoc.c:807-814 | Shrinking keeps the block, its bytes and the well-formed heap, with the smaller request |
| `HeapContents.CopiedKeeps` | src/mem/liballoc.c:819-820 | After the copy of a growing realloc the new block begins with the old bytes and all older blocks are untouched |
| `HeapContents.ReallocKeeps` | src/mem/liballoc.c:738-824 | realloc keeps the heap well formed for every argument, up to a fault or the point where it may go astray |
| `HeapContents.ReallocFaults` | src/mem/liballoc.c:819-820 | realloc of a live block copies to address 0 if and only if it has bytes to move, must grow, no gap fits and the provider refuses |
| `HeapContents.ReallocKeepsBytes` | src/mem/liballoc.c:738-824 | A successful realloc returns a block of the new size whose first min(old, new) bytes are the old ones; a moved block leaves nothing behind |
| `HeapContents.ReallocFrame` | src/mem/liballoc.c:738-824 | Every block but the one passed in keeps its place and its bytes, up to a fault or the point where realloc may go astray |
| `HeapEffects.PagesExact` | src/mem/liballoc.c:208-226 | The pages requested are the fewest, but no fewer than 16, that hold the two headers and the padded request |
| `HeapEffects.MallocAddsOne` | src/mem/liballoc.c:391-541 | After malloc exactly the blocks that were live before are live, and the one whose pointer is returned |
| `HeapEffects.FreeExactly` | src/mem/liballoc.c:671-709 | free of a live block ends its life and no other, writes no memory and counts nothing |
| `HeapEffects.FreeOfNoBlock` | src/mem/liballoc.c:604-661 | free of null counts one warning; of a rejected pointer one error, and a possible overrun exactly if the lowest byte is 0xde; nothing else changes |
| `HeapEffects.ReallocOfNoBlock` | src/mem/liballoc.c:752-803 | realloc of null returns a new block of the size asked for, or null exactly if nothing fits and the provider refuses; of a rejected pointer it returns null and counts as free does |
| `HeapEffects.ReallocToNothing` | src/mem/liballoc.c:745-749 | realloc to size 0 returns null; exactly the block passed in is gone |
| `HeapEffects.ReallocOfBlock` | src/mem/liballoc.c:807-823 | realloc of a live block never goes astray; it keeps the pointer if it shrinks, frees the old block and returns a new one if it grows, and returns null exactly if an empty block has to grow and cannot; before a fault only the hint and the warnings have changed |
| `HeapEffects.WalkHint` | src/mem/liballoc.c:346-354 | Over a walk the hint goes to a major with most free space of those looked at, if one has more than the old hint, and else stays |
| `HeapEffects.SearchFromHint` | src/mem/liballoc.c:324-339 | The search is first fit from the hint on if its major has more free space than needed, and from the root otherwise, and takes the hint along |
| `HeapEffects.HintAfterRequest` | src/mem/liballoc.c:346-371 | After a run was requested the hint is the new run if it has most free space and CASE 1 did not skip the last major, and else a major with most of all the others, or the old one |
| `HeapEffects.FreeHint` | src/mem/liballoc.c:688-706 | After free the hint is the better of the old one and the block's major, while majors are below 2 GiB, and null exactly if it was or its major went |
| `HeapEffects.MallocBooks` | src/mem/liballoc.c:228 | malloc takes one run from the provider, of the pages requested, exactly if no gap fits and there is one |
| `HeapEffects.FreeAtBooks` | src/mem/liballoc.c:696 | free gives back exactly the run whose last block went, with the pages it was requested with |
| `HeapEffects.ReallocBooks` | src/mem/liballoc.c:738-824 | What realloc takes is what the heap then holds more and what it gives back |
| `HeapRuns.FirstMalloc` | src/mem/liballoc.c:295-412 | The first malloc of all takes the front of the granted run, and its pointer is one that free and realloc know |
| `HeapRuns.StepKeeps` | src/mem/liballoc.c:262-824 | Every malloc, free, realloc and store by a caller that neither faults nor goes astray keeps the heap well formed |
| `HeapRuns.EveryStateValid` | src/mem/liballoc.c:262-824 | Every state of every run from the empty heap is well formed; a call that faults or goes astray ends the run |
| `HeapRuns.UntouchedOverRuns` | src/mem/liballoc.c:262-824 | Over such a run, a live block no call is aimed at keeps its place and all its bytes |
| `HeapRuns.CallsGoOn` | src/mem/liballoc.c:262-824 | Told from the heap before it, which calls go on: free and realloc unless a pointer to no block finds the magic, realloc unless it would copy to address 0 |
| `HeapRuns.PagesConserved` | src/mem/liballoc.c:228-696 | Over every run from the empty heap the page runs taken from the provider are those held and those given back, each once and with its pages; when no block is live all have been given back |
| `HeapRuns.GrowingFaults` | src/mem/liballoc.c:819-820 | A heap, a block of ten bytes and a request for which realloc copies to address 0 |
| `HeapRuns.WrapLimit` | src/mem/liballoc.c:213-226 | With 32-bit sums a fresh run holds the padded request if and only if the request is within the stated bound |
| `HeapRuns.WrapExample` | src/mem/liballoc.c:276 | A request of 0xfffffff0 bytes is padded to 16 |
| `HeapImage.HeadersRoundTrip` | src/mem/liballoc.c:66-89 | Every header of a well-formed heap survives being written as 24 bytes and read back |
| `HeapImage.MagicBytes` | src/mem/liballoc.c:56-57 | The magic and the dead mark, byte by byte as they stand in memory |
| `HeapImage.PartsApart` | src/mem/liballoc.c:66-89 | Major headers, minor headers and bodies share no byte and lie in the address space |
| `HeapImage.WriteIsLocal` | src/mem/liballoc.c:66-89 | Overwriting one of these parts leaves what every other one shows |
| `HeapFlat.HeadersReadBack` | src/mem/liballoc.c:66-89 | With its headers in memory, what is read at a header is what the header says, the magic included |
| `HeapFlat.RejectedExactly` | src/mem/liballoc.c:622 | With the word read from memory, free rejects a pointer if and only if the word is not the magic, every live header shows the magic, and free goes astray if and only if another one does |
| `HeapFlat.PayloadIsNoHeader` | src/mem/liballoc.c:28-41 | No block has its header where a caller got its bytes |
| `HeapFlat.ForgedHeader` | src/mem/liballoc.c:614-671 | A caller who writes two words of its own block, and a pointer into it at which free goes astray, in a heap that is in order |
| `HeapFlat.ForgedHeaderArises` | src/mem/liballoc.c:614-671 | One malloc of 100 bytes makes such a heap |
| `HeapFlat.ReleasedApart` | src/mem/liballoc.c:671-709 | What is left after a release shares no byte with the released header and body |
| `HeapFlat.BuriedKeeps` | src/mem/liballoc.c:676 | Marking the freed header dead harms no block that is left |
| `HeapFlat.WrittenOffHeaders` | src/mem/liballoc.c:262-824 | Notes, stores, copies and dead marks stay off every header of the heap the call leaves |
| `HeapFlat.RewriteKeeps` | src/mem/liballoc.c:262-824 | Writing the changed headers keeps notes and requested bytes of every block |
| `HeapFlat.RewriteImages` | src/mem/liballoc.c:262-824 | If only the headers that changed are written, all headers are in place: the others were there and nothing touched them |
| `HeapFlat.RewrittenExists` | src/mem/liballoc.c:262-824 | The changed headers can all be written; no two meet |
| `HeapFlat.FlatKeeps` | src/mem/liballoc.c:262-824 | In one memory with headers and bodies, a call that writes what it must and the headers it changed keeps the heap well formed with all headers in place, and every block it is not aimed at keeps its place and bytes |
| `HeapFlat.EveryFlatState` | src/mem/liballoc.c:262-824 | Over every run from such a heap, every state is one; words are read from the memory, and a call that faults or goes astray ends the run |
| `HeapFlat.EveryRunGoesOn` | src/mem/liballoc.c:262-824 | Every run can be continued by every call that is allowed: the steps exist |
| `HeapFlat.UntouchedInFlat` | src/mem/liballoc.c:262-824 | Over such a run a block no call is aimed at keeps its place and bytes |
| `HeapFlat.FreedTwice` | src/mem/liballoc.c:614-661 | Freeing a pointer again at once finds the dead mark, counts one error and changes nothing else |
| `HeapSections.PerformKeeps` | src/mem/liballoc.c:281-579 | Each critical section takes a well-formed heap to a well-formed heap |
| `HeapSections.PerformMemory` | src/mem/liballoc.c:39-40 | A section writes one byte of memory, the note of the block it makes, or none |
| `HeapSections.PerformFrame` | src/mem/liballoc.c:281-579 | A section that does not go astray leaves every block alone that it is not entered for |
| `HeapSections.PerformApart` | src/mem/liballoc.c:281-579 | No section looks at the counter of warnings, and none but a failing malloc changes it, by one |
| `HeapSections.PerformIsCall` | src/mem/liballoc.c:281-821 | A section entered for the header a pointer leads to does what malloc, free or the first part of realloc does alone |
| `HeapSections.ReallocInSections` | src/mem/liballoc.c:758-821 | realloc is a first section and, if it must grow, those of malloc and free around the copy, with the lock free in between |
| `HeapThreads.NextKeeps` | src/proc/spinlock.c:5-16 | Every step of every thread keeps the protocol invariant: calls, test-and-set, loads, writes one word at a time, releases, stores and copies by callers, and the two accesses by which free of null counts a warning without the lock |
| `HeapTraces.Serializable` | src/proc/spinlock.c:5-16 | In any interleaving, with stores, copies and unlocked warnings, at most one thread is inside, and whenever the lock is free the heap is well formed and in all but the counter of warnings what the events give one at a time |
| `HeapTraces.HolderSeesSerialHeap` | src/proc/spinlock.c:5-16 | The thread that got the lock sees that serial heap but for the counter of warnings, not a half-written one |
| `HeapTraces.SeenIsSerial` | src/proc/spinlock.c:5-16 | At every moment, also while a section is half written back, the requested bytes of every block in shared memory are those of the serial heap |
| `HeapTraces.UntouchedOverTrace` | src/proc/spinlock.c:5-16 | Whatever other threads do, a block no section is entered for and nothing is stored into keeps its place, and its bytes in shared memory never change |
| `HeapTraces.NoteLeadsBack` | src/mem/liballoc.c:44-52 | In every state the note of a block whose malloc has written it leads to its header |
| `HeapTraces.BlockOverTrace` | src/proc/spinlock.c:5-16 | A block stays the same while no section is entered for it, whatever is stored |
| `HeapTraces.EarlyHeader` | src/mem/liballoc.c:614-619 | The header found by reading the note before the lock is taken is the one found with the lock held |
| `HeapTraces.CallsEnter` | src/mem/liballoc.c:614-619 | The calls for a block whose note is written wait for a section entered for its header |
| `HeapTraces.LoadPerforms` | src/proc/spinlock.c:5-16 | The thread that has the lock performs its section on the serial heap, and no other thread changes by it |
| `HeapTraces.CopyOverTrace` | src/mem/liballoc.c:819-820 | While bytes are copied from one block to another outside the lock, each byte copied is in the new block, whatever happens elsewhere |
| `HeapTraces.ReallocOverTrace` | src/mem/liballoc.c:738-824 | A growing realloc whose sections and copies are interleaved with anything not aimed at its two blocks ends with the old block gone and a block of the new size that holds all its bytes |
| `HeapTraces.WarningsAreSerial` | src/mem/liballoc.c:604-611 | The counter of warnings never runs ahead of the serial one, and while no section owes it a write it is the serial one if and only if no two increments overlapped |
| `HeapTraces.AloneOverTrace` | src/mem/liballoc.c:604-611 | Overlapping, told from the steps alone: an increment completed between the two accesses of another |
| `HeapTraces.LostWarning` | src/mem/liballoc.c:604-611 | Two frees of null of which one is not counted |
| `HeapProgress.WriterFinishes` | src/proc/spinlock.c:5-16 | A thread that writes back can go on until it has released the lock, and then shared and serial heap agree but for the warnings |
| `HeapProgress.HolderFinishes` | src/proc/spinlock.c:5-16 | A thread that has the lock can perform its section and release it |
| `HeapProgress.LockIsReleased` | src/proc/spinlock.c:5-16 | In every state of every interleaving in which the lock is held, its holder can release it by steps of its own |
| `HeapProgress.WaitingCallCompletes` | src/proc/spinlock.c:5-16 | In every state in which the lock is free, each waiting call can be completed by steps of its own thread, with the effect it has alone |
| `HeapProgress.CallsStart` | src/mem/liballoc.c:262-824 | A thread outside can make any call, and store into any block it may store into, at once |
| `LibAllocStore.RepresentsInsert` | src/mem/liballoc.c:424-541 | Linking a header between its neighbours turns doubly linked lists for the old blocks into ones for the new |
| `LibAllocStore.RepresentsAppend` | src/mem/liballoc.c:566-568 | Linking a requested major to the end does the same for the list of majors |
| `LibAlloc.Allocator.Lock` | src/mem/liballoc.c:110-113 | The lock is never taken while held |
| `LibAlloc.Allocator.Unlock` | src/mem/liballoc.c:115-118 | The lock is released only while held |
| `LibAlloc.Allocator.AlignPointer` | src/mem/liballoc.c:28-41 | ALIGN gives the block's payload address and leaves exactly the note behind |
| `LibAlloc.Allocator.UnalignPointer` | src/mem/liballoc.c:44-52 | UNALIGN follows the note when it is plausible, else leaves the pointer |
| `LibAlloc.Allocator.MemCpy` | src/mem/liballoc.c:140-163 | Copying words and then the tail equals copying bytes, for every length and disjoint ranges |
| `LibAlloc.Allocator.AllocateNewPage` | src/mem/liballoc.c:208-256 | A grant gets its header and is counted; a refusal costs one warning and nothing else |
| `LibAlloc.Allocator.Install` | src/mem/liballoc.c:391-541 | The field writes of CASES 2, 3, 4.1 and 4.2 place the block in that gap and keep both lists |
| `LibAlloc.Allocator.SearchBehind` | src/mem/liballoc.c:456-541 | CASE 4 takes the first fitting gap behind a minor, or changes nothing |
| `LibAlloc.Allocator.SearchMajor` | src/mem/liballoc.c:391-541 | CASES 2 to 4 take the first fitting gap of the major, or change nothing |
| `LibAlloc.Allocator.Extend` | src/mem/liballoc.c:366-369 | The requested major is linked behind the last one |
| `LibAlloc.Allocator.Begin` | src/mem/liballoc.c:295-315 | The first major becomes the root |
| `LibAlloc.Allocator.ExtendAndUse` | src/mem/liballoc.c:366-371 | A major requested at the end of the list takes the block, after CASE 1 or CASE 5, with the right hint; a refusal is the last step |
| `LibAlloc.Allocator.Visit` | src/mem/liballoc.c:334-541 | One round improves the hint, and uses the major exactly if a gap of it fits |
| `LibAlloc.Allocator.Scan` | src/mem/liballoc.c:334-579 | malloc's loop terminates, releases the lock once and does what malloc is to do |
| `LibAlloc.Allocator.Malloc` | src/mem/liballoc.c:262-588 | malloc on the linked headers is malloc on the runs, memory, totals and hint included; lock free before and after |
| `LibAlloc.Allocator.Unlink` | src/mem/liballoc.c:673-681 | Unlinking one minor changes only its neighbours, its major and the total |
| `LibAlloc.Allocator.Discard` | src/mem/liballoc.c:688-696 | An empty major leaves the list, the root, the hint and the total, and goes back to the provider with its pages |
| `LibAlloc.Allocator.ImproveHint` | src/mem/liballoc.c:700-706 | The hint moves exactly if it exists and the major now has more free space, compared as C ints |
| `LibAlloc.Allocator.ReleaseBlock` | src/mem/liballoc.c:671-709 | The body of free is the release of that block |
| `LibAlloc.Allocator.ReportBadHeader` | src/mem/liballoc.c:622-639 | A bad header counts as one error, and as a possible overrun exactly if its lowest byte is the magic's; a dead header never does |
| `HeapModel.OverrunIsLowByte` | src/mem/liballoc.c:626-630 | The three comparisons of low bytes come to the last: they hold exactly if the lowest byte is 0xde |
| `LibAlloc.Allocator.Free` | src/mem/liballoc.c:599-716 | free on the linked headers is free on the runs, with all its error cases, for every pointer, and gives back the runs it is to give back; the lock is free before and after, unless it goes astray |
| `LibAlloc.Allocator.ShrinkInPlace` | src/mem/liballoc.c:809-814 | The header alone takes the new request |
| `LibAlloc.Allocator.MoveBlock` | src/mem/liballoc.c:819-823 | Growing is malloc, copy and free, or a fault |
| `LibAlloc.Allocator.Realloc` | src/mem/liballoc.c:738-824 | realloc on the linked headers is realloc on the runs, with all its branches and what it returns (ReallocOfNoBlock, ReallocToNothing, ReallocOfBlock) and gives back; the lock is free before and after, unless it goes astray |
| `PageEntries.MaskClearsNothing` | src/include/catk/virt.h:20 | The mask meant to clear bits 9 to 11 has all bits set |
| `PageEntries.IgnoredBitsClear` | src/cpu/mmu.c:105-112 | Bits 9 to 11 of an entry are clear if and only if its user flag is below 128, as with the flags 0 and 1 the callers pass |
| `PageEntries.EntryBits` | src/cpu/mmu.c:105-112 | An entry made from an aligned address and two flag bytes is present and write-through, names that address, and carries the rights of the flags, bit 1 of rw included in user |
| `PageEntries.ClearedEntry` | src/cpu/mmu.c:208 | Clearing the present bit keeps the address |
| `PageEntries.IndicesArePage` | src/include/catk/virt.h:46-52 | The two indices of two addresses agree exactly if the addresses lie on one page |
| `PageTables.StartWalk` | src/cpu/mmu.c:186-192 | Starting a slot with a zeroed table changes no translation |
| `PageTables.EntryWalk` | src/cpu/mmu.c:193-194 | An entry written into a slot's table is seen at one page of one address space |
| `PageTables.MapPageLook` | src/cpu/mmu.c:174-196 | Mapping sets one page, with the conjunction of the rights its slot was created with and its own, and leaves every other page |
| `PageTables.UnmapPageLook` | src/cpu/mmu.c:198-214 | Unmapping drops exactly the whole 4 MiB slot |
| `PageTables.RemapStartsEmpty` | src/cpu/mmu.c:186-194 | Mapping after an unmap brings back that page alone, with the rights of the new call only |
| `PageTables.UnmapFaults` | src/cpu/mmu.c:207-212 | unmap writes to address 0, a page fault, if and only if the slot has no table, and then before any other write |
| `PageTables.MappedKeeps` | src/cpu/mmu.c:174-196 | map keeps directories and tables in separate frames, one table per slot |
| `PageTables.MappedWalk` | src/cpu/mmu.c:174-196 | After map the walk gives the new page its frame and rights, and every other address of every address space what it had |
| `PageTables.MappedShows` | src/cpu/mmu.c:174-196 | The tables after map mean the abstract map after map |
| `PageTables.MapWrites` | src/cpu/mmu.c:174-196 | Besides its two entries map writes nothing but zeros into the frame of a table that starts; a table that is there stays in its slot |
| `PageTables.UnmappedKeeps` | src/cpu/mmu.c:198-214 | An unmap that does not fault keeps directories and tables in separate frames |
| `PageTables.UnmappedWalk` | src/cpu/mmu.c:198-214 | After an unmap that does not fault the walk gives nothing in that slot of that address space, and elsewhere what it gave |
| `PageTables.UnmappedShows` | src/cpu/mmu.c:198-214 | The tables after an unmap that does not fault mean the abstract map after unmap |
| `PageTables.UnmapWrites` | src/cpu/mmu.c:207-213 | unmap clears the present bits of the two entries of its address and writes nothing else |
| `PageTables.CallsGoOn` | src/cpu/mmu.c:174-214 | Told from the tables before it, which calls go on: a map with a frame of its own for a new table, an unmap in a slot that has a table |
| `PageTables.RunShows` | src/cpu/mmu.c:174-214 | Over every run of map and unmap up to a fault, in every address space, the two-level walk is the abstract partial map |
| `PageTables.FaultsWithoutMap` | src/cpu/mmu.c:174-214 | After any run an unmap faults if and only if its slot had no table at the start and nothing was mapped into it since |
| `Mmu.InitialTables` | src/cpu/mmu.c:121-163 | The tables set up at start translate exactly [4 KiB, 12 MiB), to itself, for the kernel only |
| `Mmu.FirstUnmapFaults` | src/cpu/mmu.c:198-214 | Under the tables paging_init leaves, unmapping faults exactly from 12 MiB on; the word it would write has no translation |
| `Mmu.PagesCover` | src/mem/vmm.c:36 | Rounding up in 32 bits covers every byte of the region if and only if the sum does not wrap; when it wraps no page is mapped |
| `Mmu.LargeRegionUncovered` | src/mem/vmm.c:36 | A size for which no page is mapped at all |
| `Mmu.RegionPage` | src/mem/vmm.c:38-40 | Page i of a region holds byte k exactly if k / 4096 is i, also where addresses wrap |
| `Mmu.RegionReaches` | src/mem/vmm.c:38-40 | Each byte of a mapped region is translated to its physical byte |
| `Mmu.RegionBytes` | src/mem/vmm.c:35-49 | After mapping a region, virt + k is translated to phys + k for every byte, also across directory slots |
| `Mmu.RegionFromInside` | src/mem/vmm.c:35-49 | From a base inside a page, byte k is translated to the offset of the base behind phys + k, as far as the pages reach |
| `Mmu.Tables.VirtmemMap` | src/cpu/mmu.c:174-196 | The writes of map give the tables, and the meaning of every directory, that the lemmas speak of; an unaligned frame changes nothing |
| `Mmu.Tables.VirtmemUnmap` | src/cpu/mmu.c:198-214 | unmap reports a fault exactly for a slot without table, with nothing changed, and otherwise makes the tables and meanings the lemmas speak of |
| `Mmu.Tables.FillIdentity` | src/cpu/mmu.c:139-150 | One filling loop writes 1024 consecutive pages and returns where it stopped |
| `Mmu.Tables.ClearDirectory` | src/cpu/mmu.c:136-138 | Every directory entry is made not present |
| `Mmu.Tables.PagingInit` | src/cpu/mmu.c:121-163 | paging_init leaves tables whose walk is the identity on [4 KiB, 12 MiB) and nothing elsewhere |
| `Mmu.Tables.MapRegion` | src/mem/vmm.c:35-49 | The loop maps every page of the region, from the page its base lies in, with the rights of the call, and those its directory entry had where one was there; it changes no translation off the region, in any address space |
| `Mmu.RightsStep` | src/cpu/mmu.c:186-194 | One more page of a region has the rights due to it, and the pages before keep theirs |
| `Mmu.Tables.MapKernelRegion` | src/mem/vmm.c:43-49 | No page of a kernel region is reachable for users, and each is writable unless its slot was there and is not |
| `Mmu.Tables.MapUserRegion` | src/mem/vmm.c:35-41 | A page of a user region is reachable for users unless its slot was there and is not, and writable exactly if rw is set and no slot that was there forbids it |
| `CStrings.MemCmp` | src/lib/common/memcmp.c:3-10 | The result is zero if and only if the first count bytes agree |
| `CStrings.StrCmp` | src/lib/common/strcmp.c:4-8 | strcmp finds no difference if and only if its first string is a prefix of its second |
| `CStrings.CopyTo` | src/include/catk/core.h:239-243 | The bytes arrive, and those before and behind stay |
| `Ustar.OctalRoundTrip` | src/fs/ustar/ustar.c:25-36 | A number that fits the digits is parsed back from its octal digits |
| `Ustar.Oct2Bin` | src/fs/ustar/ustar.c:25-32 | The loop computes the positional value of the digits |
| `Ustar.RecordLength` | src/fs/ustar/ustar.c:52 | One step of the walk is exactly a header, the data and its padding |
| `Ustar.StepFits` | src/fs/ustar/ustar.c:52 | The sums of a step are ints if and only if the size is at least two blocks below their limit |
| `Ustar.FileInPlace` | src/fs/ustar/ustar.c:56-79 | The header and the data of each file stand where the walk looks for them, and the next header one step further |
| `Ustar.HeaderInPlace` | src/fs/ustar/ustar.c:59-69 | What the walk reads at a header is that file's magic, size, name and fields |
| `Ustar.AtHeader` | src/fs/ustar/ustar.c:59 | The walk goes on exactly while there is a file left |
| `Ustar.ExactLookup` | src/fs/ustar/ustar.c:61 | A name finds the first file of exactly that name, and nothing if there is none, if and only if no earlier name begins with it |
| `Ustar.MissingLookup` | src/fs/ustar/ustar.c:61 | A name no file has is reported missing if and only if no name begins with it |
| `Ustar.LongerNameAnswers` | src/fs/ustar/ustar.c:61 | An archive with the one file "ab" that answers for "a" |
| `Ustar.WrittenFile` | src/include/lib/tar.h:20-30 | A header written with path, mode, owner and size is found under the path without its first byte and reads back as these, with its number, wherever it stands in the archive |
| `Ustar.Namei` | src/fs/ustar/ustar.c:56-79 | The walk ends, goes over the headers only, and returns the inode of the first matching file, with its number and the address of its header, or nothing if there is none |
| `Ustar.SpanIsData` | src/fs/ustar/ustar.c:48-49 | Within the file, what a read copies is the file's slice at fpos |
| `Ustar.ReadFile` | src/fs/ustar/ustar.c:38-54 | read copies from the same record namei finds, and fails exactly if there is none |
| `Ext2Volume.BlocksApart` | src/fs/ext2/ext2.c:52-55 | Different blocks lie in different sectors while sector numbers fit 32 bits |
| `Ext2Volume.BlockOnDevice` | src/fs/ext2/ext2.c:52-62 | As long as sector numbers fit 32 bits, byte j of a block is where it belongs on the device |
| `Ext2Volume.DescriptorsBehindSuperblock` | src/fs/ext2/ext2.c:399 | The descriptors are read from the block behind the one that holds byte 1024 |
| `Ext2Volume.InodeFromImage` | src/include/catk/ext2.h:73-96 | Size, direct and indirect pointers of an inode written as the structure are where they are read |
| `Ext2Volume.TableFromImage` | src/include/catk/ext2.h:62-71 | In a block of descriptors the inode table of each group is where it is read |
| `Ext2Volume.DescribedExactly` | src/fs/ext2/ext2.c:74-81 | With inodes of at least 128 bytes exactly the inodes whose group has its descriptor in the block read can be read |
| `Ext2Volume.ReadBlock` | src/fs/ext2/ext2.c:57-62 | A block is its sectors in order |
| `Ext2Volume.InodeFromPlace` | src/fs/ext2/ext2.c:37-50 | Group, table block and slot give the inode number back |
| `Ext2Volume.PlaceFromInode` | src/fs/ext2/ext2.c:37-50 | Every group, table block and slot is the place of the inode number computed from it |
| `Ext2Volume.InodeOnDevice` | src/fs/ext2/ext2.c:64-84 | What is read for an inode are the 128 bytes of the device at its place |
| `Ext2Volume.BlockInTable` | src/fs/ext2/ext2.c:75 | The block read for an inode is one of its group's table |
| `Ext2Volume.InodesApart` | src/fs/ext2/ext2.c:75-81 | Distinct inodes, of one group or of two, occupy disjoint bytes of the device |
| `Ext2Volume.SlotIsEntry` | src/fs/ext2/ext2.c:76-81 | The bytes read are those of the table entry if and only if inodes have 128 bytes or the inode is the first of its block |
| `Ext2Volume.InodeIsTableEntry` | src/fs/ext2/ext2.c:64-84 | With inodes of 128 bytes what is read for an inode is its entry in its group's table, byte by byte on the device |
| `Ext2Volume.LargeInodesMissed` | src/fs/ext2/ext2.c:76-81 | A volume with inodes of 256 bytes whose second inode is looked for inside the first |
| `Ext2Volume.ReadInode` | src/fs/ext2/ext2.c:64-84 | Two block reads give the inode found through its group's descriptor |
| `Ext2Dir.ComponentsOfJoin` | src/fs/ext2/ext2.c:162-166 | A path joined from names falls into these names again |
| `Ext2Dir.JoinOfComponents` | src/fs/ext2/ext2.c:162-166 | No byte of a path but a last slash is lost in taking it apart |
| `Ext2Dir.ComponentsSlashFree` | src/fs/ext2/ext2.c:162-166 | No component contains a slash |
| `Ext2Dir.NamesOfJoin` | src/fs/ext2/ext2.c:153-166 | A path of names behind a slash is walked from inode 2, one that does not begin with a slash from the directory passed in, and both through exactly these names |
| `Ext2Dir.PathExamples` | src/fs/ext2/ext2.c:153-166 | "/", "/b", "a/b" and the empty path |
| `Ext2Dir.IndexOf` | src/include/lib/ctype.h:32-42 | The first slash, or the length if there is none |
| `Ext2Dir.EntriesFromImage` | src/include/catk/ext2.h:98-104 | A directory block holds the entries that were put into it |
| `Ext2Dir.SearchEnds` | src/fs/ext2/ext2.c:174-192 | The search of a block whose entries lie inside it ends if and only if it comes to no used entry of size 0 that does not match, and then after at most as many rounds as the block has bytes and one |
| `Ext2Dir.LoopingBlock` | src/fs/ext2/ext2.c:174-192 | A block that is searched for ever, and an all-zero one that is searched at once |
| `Ext2Dir.DirectoryEnds` | src/fs/ext2/ext2.c:167-193 | The search of a directory ends if and only if it gets stuck in none of its blocks before a match, and then with what its entries hold |
| `Ext2Dir.FindExact` | src/fs/ext2/ext2.c:182 | A search finds the entry of that very name, and nothing for a name no entry has, if and only if no earlier entry's name is a proper prefix of it |
| `Ext2Dir.FindMissing` | src/fs/ext2/ext2.c:182 | A name no entry has is reported missing if and only if no entry's name is a proper prefix of it |
| `Ext2Dir.PrefixShadows` | src/fs/ext2/ext2.c:182 | An entry "a" answers for "ab", whether or not there is an "ab" |
| `Ext2Dir.FindAppend` | src/fs/ext2/ext2.c:169-193 | Searching blocks one after the other is searching all their entries |
| `Ext2Dir.ResolveAppend` | src/fs/ext2/ext2.c:162-200 | A path in two parts is resolved part by part, and is missing as soon as one part is |
| `Ext2Dir.ResolveExact` | src/fs/ext2/ext2.c:162-200 | Where no component is shadowed in its directory, the walk of a whole path ends where its exact names lead, and at 0 exactly if one is missing |
| `Ext2Dir.TrailExact` | src/fs/ext2/ext2.c:162-200 | Second links under shorter names aside, the walk goes through the inodes the exact names lead through if and only if none is shadowed |
| `Ext2Dir.SameName` | src/fs/ext2/ext2.c:179-182 | The comparison is a prefix test that does not depend on what stands behind the component |
| `Ext2Dir.SearchBlock` | src/fs/ext2/ext2.c:174-192 | The loop over a block whose search ends yields the first entry that matches |
| `Ext2Dir.SearchDirectory` | src/fs/ext2/ext2.c:167-193 | The loop over the direct blocks of a directory whose search ends finds the first match and leaves its inode loaded, or the directory's |
| `Ext2Dir.Namei` | src/fs/ext2/ext2.c:151-200 | The walk ends and returns what the recursive resolver returns from where NamesOfJoin says the path starts, and what the exact names lead to where none is shadowed, with the final inode loaded for every path but the root |
| `Ext2File.ConcatAt` | src/fs/ext2/ext2.c:326 | Byte i * size + j of what was read is byte j of block i |
| `Ext2File.BlocksCover` | src/fs/ext2/ext2.c:315 | Rounding up in 32 bits counts enough blocks for every byte if and only if the sum does not wrap, and never one too many |
| `Ext2File.LargeFileUnread` | src/fs/ext2/ext2.c:315 | A file of 2^32 - 1 bytes of which nothing is read |
| `Ext2File.BytesRead` | src/fs/ext2/ext2.c:306-347 | Byte k of a dense file is read from its logical block k / block size |
| `Ext2File.ReadsTheFile` | src/fs/ext2/ext2.c:269-332 | The blocks read are the logical blocks of the file in order if and only if it has no hole and nothing is listed behind its end |
| `Ext2File.HoleEndsReading` | src/fs/ext2/ext2.c:319-328 | A file of three blocks with a hole of which only the first is read |
| `Ext2File.ReadSingle` | src/fs/ext2/ext2.c:269-282 | The blocks an indirect block lists, up to a zero, are put behind the direct ones |
| `Ext2File.ReadDirect` | src/fs/ext2/ext2.c:319-328 | The direct blocks, up to the size or an invalid one, fill the buffer from its start |
| `Ext2File.ReadFile` | src/fs/ext2/ext2.c:306-347 | The buffer holds these blocks in a row and is otherwise unchanged, so that every byte of a dense file is in its place; inode 0 is refused |
| `Ring.RingBuffer.Write` | src/lib/ring/ring.c:19-29 | The byte joins the end of the queue, or the queue is full and unchanged; the tail moves by one from its reduced place |
| `Ring.RingBuffer.ReadSingle` | src/lib/ring/ring.c:50-58 | The first byte leaves the queue, or it is empty and unchanged |
| `Ring.RingBuffer.Clear` | src/lib/ring/ring.c:60-65 | The queue is empty, all bytes are zero and head and tail are back at 0 |
| `Ring.RingBuffer.Read` | src/lib/ring/ring.c:31-48 | The bulk read takes what that many single reads would, unless the bytes taken run past the end of the buffer: exactly then it overruns |
| `Ring.BulkReadOverruns` | src/lib/ring/ring.c:31-48 | A queue of size 2 whose bulk read runs past its buffer |
| `Ring.SlotReduce` | src/lib/ring/ring.c:24 | Reducing head or tail late moves no byte of the queue |
| `Tty.EditPlain` | src/drivers/tty/tty_io.c:81-97 | Without backspaces the line is what comes before the newline, cut at count |
| `Tty.EditSplit` | src/drivers/tty/tty_io.c:77-98 | Editing a stream in two parts is editing it at once |
| `Tty.BackspaceErases` | src/drivers/tty/tty_io.c:87-94 | A backspace takes back the byte before it, wherever the pair stands |
| `Tty.BackspaceAtStart` | src/drivers/tty/tty_io.c:88 | At the start of a line a backspace is ignored |
| `Tty.PutByte` | src/drivers/tty/tty_io.c:87-97 | One byte is appended, or one taken back and its place zeroed, inside the caller's buffer |
| `Tty.Deliver` | src/drivers/tty/tty_io.c:137-157 | Arriving bytes join the queue; those that find it full are lost |
| `Tty.QueuedIs` | src/lib/ring/ring.c:19-29 | Of what arrives the queue takes the first bytes, as many as there is room for |
| `Tty.NothingLost` | src/drivers/tty/tty_io.c:77-98 | As long as all that arrives fits, what the reader got and what is still queued are what was queued and what came, in order |
| `Tty.QueueStep` | src/drivers/tty/tty_io.c:78 | Each round adds what arrives to the queue and takes one byte, if there is one |
| `Tty.TtyRead` | src/drivers/tty/tty_io.c:72-102 | For every stream of arrivals, the result and its length are those of the line editor on the bytes taken; a full line leaves the rest of the stream in the queue, a newline empties it; with count bytes queued on entry it returns 0 and changes nothing |
| `Itoa.DivModC` | src/lib/common/itoa.c:34-35 | C's quotient and remainder of any int are those of its absolute value, up to sign |
| `Itoa.TableIsDigit` | src/lib/common/itoa.c:34 | Indexed from its middle, the table gives the digit of a remainder of either sign |
| `Itoa.LowDigits` | src/lib/common/itoa.c:32-36 | Only digits of the radix are written, and no leading zero |
| `Itoa.DigitsMean` | src/lib/common/itoa.c:32-43 | The text has the positional value of the number, in every radix |
| `Itoa.TextMeans` | src/lib/common/itoa.c:19-45 | A sign exactly for negative numbers in radix 10; behind it digits below the radix whose positional value is the absolute value, with no leading zero; nothing for a radix out of range |
| `Itoa.Reverse` | src/lib/common/itoa.c:5-17 | Swapping from both ends reverses the first bytes and leaves the others |
| `Itoa.PutDigits` | src/lib/common/itoa.c:32-36 | The loop writes the digits, least significant first, for every int including the least |
| `Itoa.ItoaKernel` | src/lib/common/itoa.c:19-45 | Digits, sign, and reversing the whole string give the text of the number |
| `Itoa.ItoaUser` | user/test/lib/stdio/stdio.c:155-191 | Sign, digits, and reversing the digits only give the same text |
| `Itoa.Atoi` | src/lib/common/atoi.c:5-16 | The value of a string of digits, -1 for any other |
| `Itoa.AtoiDigits` | src/lib/common/atoi.c:5-16 | The empty string is 0, each digit counts ten times what was before it and itself, and -1 is the answer exactly to a string with a character that is no digit |
| `Itoa.AtoiInverts` | src/lib/common/atoi.c:5-16 | atoi of the decimal text of an int is that int if and only if it is at least -1 |
| `SchedModel.ScanFirstEven` | src/proc/task.c:405-428 | The scan finds the first even slot in use, and never looks at an odd one |
| `SchedModel.WhoIsNext` | src/proc/task.c:402-435 | A switch goes to the first even slot in use, or stays with the only task there is |
| `SchedModel.TickOutcome` | src/proc/task.c:448-464 | Told from the state before it, a tick that ends a slice panics exactly if there is no task to go to or its stack is used up; else that task goes on with its frame if it ran before, under its directory, and with the one it was created with if not |
| `SchedModel.TickEffect` | src/proc/task.c:437-465 | No task comes, goes or moves; the running one loses a tick or gets a whole slice and its frame kept, the next one is alive, and nothing else of any task changes |
| `SchedModel.EventsGoOn` | src/proc/task.c:314-465 | Told from the state before it, which events go on |
| `SchedModel.AddKeeps` | src/proc/task.c:314-328 | Adding a task keeps waiting tasks with whole slices, new ones with the frame they were created with, and the count right |
| `SchedModel.AddEffect` | src/proc/task.c:314-328 | A task is added in the first free slot, or nowhere if there is none, and is the current one exactly if it is the first |
| `SchedModel.RemoveKeeps` | src/proc/task.c:330-345 | So does removing one that is not running |
| `SchedModel.RemoveEffect` | src/proc/task.c:330-345 | Removing a task leaves every other one where it is |
| `SchedModel.TickKeeps` | src/proc/task.c:437-465 | So does every timer tick that does not panic |
| `SchedModel.RunKeeps` | src/proc/task.c:314-465 | So does every run of these |
| `SchedModel.OwnDirectory` | src/proc/task.c:459-462 | Told from the state before the tick: the task chosen finds its own page directory loaded if and only if it ran before or that directory was loaded already |
| `SchedModel.ForeignDirectory` | src/proc/task.c:459-462 | A state in which a task is entered under another's page directory |
| `SchedModel.KeptFrame` | src/proc/task.c:451 | After any run the frame kept for a waiting task is the one its last slice ended with |
| `SchedModel.ResumesWhereItStopped` | src/proc/task.c:437-465 | After any run a switch restores exactly that frame, or enters a task that never ran through the one it was created with |
| `SchedModel.FreshSlice` | src/proc/task.c:448-463 | A task that gets the processor has a whole slice |
| `SchedModel.SliceLength` | src/proc/task.c:440-448 | It keeps the processor for exactly as many ticks as it has left, whoever is added or killed, and the tick after them takes it away |
| `SchedModel.FirstForever` | src/proc/task.c:405-410 | Once the task in slot 0 runs, no other task ever does, and it keeps its stack, quantum and directory |
| `SchedModel.BootRunsOneTask` | src/proc/task.c:405-486 | From the start, over every run, the first task is the current one; a tick lets it go on while it has time left, and otherwise restores the frame just interrupted, or panics exactly if its stack is used up; no other task is ever entered |
| `SchedModel.BootIsGood` | src/proc/task.c:477-486 | The start satisfies all of this, with the task in slot 0 running |
| `Sched.Task.constructor` | src/proc/task.c:263-288 | A new task has a whole slice and its first frame both in its record and on its stack |
| `Sched.Scheduler.constructor` | src/proc/task.c:477-486 | The list is emptied and the first task added and entered |
| `Sched.Scheduler.AddQueue` | src/proc/task.c:314-328 | The task takes the first free slot, and is the current one if it is the first of all; a full list is reported |
| `Sched.Scheduler.RemoveQueue` | src/proc/task.c:330-345 | The slot of a task in the list is freed and every other one left; a task not in the list only costs the count |
| `Sched.Scheduler.FirstContextSwitch` | src/proc/task.c:392-396 | The current task becomes alive and goes on with the frame on its own stack |
| `Sched.Scheduler.FindNext` | src/proc/task.c:402-435 | The loop with its double step finds the task the scan finds |
| `Sched.Scheduler.SwitchTask` | src/proc/task.c:452-463 | The task objects after a switch are those of the model, and the outcome is the one TickOutcome speaks of |
| `Sched.Scheduler.Schedule` | src/proc/task.c:437-465 | One timer interrupt on the task objects is one tick of the model, as TickOutcome and TickEffect describe it |

## Left out

- The physical page allocator behind the heap and the page tables (src/mem/pmm.c): what it grants is a parameter of each call, null or a range of its own; that it never grants a block twice is not true of the code as written.
- liballoc_alloc's own mapping of what it grants (src/mem/vmm.c:12-33): it maps the address of a local variable.
- LibAlloc.Allocator.Malloc: requests beyond the bound of Fits32 are not served; WrapLimit shows that the bound is exact. The branch for a padded size of zero (src/mem/liballoc.c:283-292) lies beyond it.
- LibAlloc.Allocator.Free: what is unlinked once it has gone astray, as the code then writes through whatever bytes it found; the header behind a freed block stays dead until it is written over.
- LibAlloc.Allocator.Realloc: what happens after a copy to address 0, where the old block is still live, or once it has gone astray; pointers into a live block, other than its own, that lead back to its header.
- LibAlloc.Allocator.Scan: the ends of CASE 1 and CASE 5, which do the same, are one branch.
- HeapEffects.FreeHint: that the hint names the major with most free space of all is not true; majors of 2 GiB and more, whose free space the code compares as negative ints.
- HeapTraces.Serializable: callers that store outside the requested bytes of live blocks, and sections that go astray.
- calloc, liballoc_memset and the debug dumps.
- LibAlloc.Allocator.Install: the class keeps headers by address, beside the byte memory; that they can stand in it is proved of the calls in HeapFlat.
- HeapFlat.FlatKeeps: the order of the writes within one call, and headers written with the value they already have.
- PageTables.RunShows: page tables are read at their physical addresses, as under the identity mapping the kernel sets up, and page 0 is not mapped in the directory in use; the translation cache and its flushes are not modelled.
- create_new_pgd, which does not zero its frame: a new directory has to come with a meaning.
- The bounds test on the two indices (src/cpu/mmu.c:183) compares with 1024 and is never true.
- Ring.RingBuffer.Read: what a read beyond the end of the buffer yields is not modelled, only when it happens.
- Releasing a ring buffer, and the tty's echo, signals and write side.
- Tty.TtyRead: an interrupt arrives between two rounds of the loop, not within one.
- Itoa.Atoi: a sum that leaves the range of int, which C leaves open.
- Ustar.Namei: file sizes above 2 GiB less 1 KiB, for which the int sums overflow (StepFits), and names of 512 bytes or more; the inode's memory and the link to the file-system operations.
- Ustar.ReadFile: the buffer and the archive are large enough for what is asked, since the code checks neither.
- Ext2Volume.ReadInode: block groups whose descriptor is not in the one descriptor block that is read.
- Ext2Dir.Namei: directories on the way whose entries reach out of their block; where the search of one gets stuck the walk does not end, as SearchEnds and DirectoryEnds say.
- Ext2File.ReadFile: the doubly indirect block, whose reader does not follow the second level, and the triply indirect one.
- Ext2File.ReadsTheFile: direct blocks beyond the end of the volume, which end the reading like holes.
- ext2 listing, opening, mounting and the conversion of inodes.
- SchedModel.RunKeeps: blocked tasks, sleeping and waking up, and killing the current task.
- Sched.Task.constructor: allocation of stacks and pids, priorities and the contents of registers; a frame is its stack pointer and the rest.
- Interrupts, port access, drivers, consoles, printf's arguments, program loading, devfs and FAT32.
