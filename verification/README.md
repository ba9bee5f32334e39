# Alpha OS, verified

Alpha OS is a small 32-bit x86 kernel. This project models its memory stack, its file-read path, its
task ring and the small scanners around them, and proves what they do over every input and every run.

The model follows the code as it stands. Where the code does not do what its callers would expect, the
behaviour is kept and stated exactly: when the expectation holds, and, in the lemmas and methods named
`...Example` and those cited below, an input on which it fails. Code that changes state step by step is a class or an array with methods and loops; each
method is proved against a specification function, and the laws are lemmas about that function.

How the parts build on each other:

- `Status`, `Bits`, `Arith`, `Memory`: error codes, 32-bit wrap-around, C's truncating division, and/or/shift on naturals,
  quotients by a variable, and 2^30 words of physical memory with byte access.
- `HeapTable`, `Heap`, `HeapRuns`: the block heap. The byte table is the flag encoding of a map from
  first block to number of blocks.
- `Kernel`: the heap together with the memory its blocks live in (`kzalloc`, `kfree`).
- `PageTables`, `Paging`: the two-level page table of section 4.3, "32-Bit Paging", of the Intel SDM
  Volume 3A, read as one flat map of 2^20 entries.
- `AddressSpace`, `AddressSpaceLife`: address spaces made of heap blocks, from construction to release.
- `Mmu`, `UserAccess`: what the processor does with an address, by sections 4.3 and 4.6 of the same volume, and
  what that lets a program read and write in the address spaces of the model.
- `ProcessMemory`, `ProcessRuns`, `ProcessIsolation`, `ProcessLife`, `ElfMap`, `InjectArguments`, `SystemRun`: a process's allocation table,
  its program image and stack, and the way from a command line to `argc` and `argv`.
- `CopyString`: copying a string out of another address space through a temporary identity mapping.
- `TaskRing`: the scheduler's doubly linked list.
- `Streamer`, `LookupArithmetic`, `Fat16`, `Fat16Meaning`: sectors, cluster chains, file bytes.
- `CommandLine`, `ParseCommand`, `ReadLine`, `Keyboard`, `KeyboardRuns`, `Path`, `Itoa`: the scanners and the key buffer.

## Where the code and the expectation part

- The heap scan accepts free blocks at the end of the table however few they are; a run can then stick
  out past the pool. First fit holds if and only if the request fits or the last block is taken
  (`HeapTable.FirstFitExactly`, `HeapRuns.RunKeeps`, `HeapRuns.OverrunExample`).
- A request of 0 bytes, and one of the last 4095 sizes, rounds to no block at all and is granted without
  marking anything (`Heap.BlockCountIs`, `ProcessRuns.ZeroSizeAliases`). `process_malloc` keeps its table in
  step with the heap exactly for sizes of at least 1 (`ProcessMemory.ProcessMalloc`); after a request for
  0 bytes, freeing can take another process's run (`ProcessIsolation.LostRunExample`).
- `process_free` hands the end address as the end of the physical range that starts at 0, so it unmaps
  from `ptr` on as many pages as lie below the end of the allocation (`ProcessRuns.FreeUnmaps`). Another
  allocation stays mapped exactly if it lies outside that range (`ProcessRuns.FreeKeepsMapped`,
  `ProcessRuns.UnmapExample`).
- Terminating a process calls `kfree(0)` once per unused slot; that walk starts below the heap table and
  frees the run at block 0 if it gets there (`HeapTable.WalkFromBelow`, `ProcessMemory.NullFreeExample`).
  The runs of others all survive a termination exactly under the condition of
  `ProcessMemory.TerminateAllocations`.
- An ELF segment is mapped page by page; its bytes are in place exactly if its address and its place in
  the file agree modulo the page size (`ElfMap.SegmentBytes`, `ElfMap.MisplacedExample`).
- `task_list_remove` leaves the successor's back link on the removed task. A later removal takes the right
  task out of the ring exactly under `TaskRing.RemovalOk` (`TaskRing.RemovalExactly`); otherwise the task
  stays (`TaskRing.RemovalFails`, `TaskRing.TwoRemovals`), or, when the heap has handed the removed task's
  block to a new one, listed tasks can be lost (`TaskRing.ReuseExample`). While the block is not a task
  again, the removal writes into memory that was freed and may be someone else's by then.
- `diskstreamer_read` always fetches the sector after an exact sector end, so the last byte of a disk
  cannot be read by a request that ends there (`Streamer.DiskStream.Read`, `Streamer.LastByteExample`).
- A file-allocation-table entry is looked up at the product of table start and entry offset. On no volume
  with reserved sectors is that ever the entry's place (`Fat16.NeverTheEntry`, `Fat16.WrongLinkExample`
  with the layout of src/boot/boot.asm). The value is tested with FAT12's markers (`Fat16.RefusedExactly`),
  and a read that starts inside a cluster runs on into the next cluster number (`Fat16Meaning.SliceExactly`,
  `Fat16Meaning.SpillExample`). What a volume must satisfy for reads to be right all the same is
  `Fat16Meaning.FileSliceExactly`.
- `strtok` ignores a new string while its saved position is set, and running out of memory leaves it set
  (`ParseCommand.Shell.Parse`, `ParseCommand.LostStartExample`).
- The key ring has no length: with 1024 characters waiting a push, and with none a backspace, leaves a
  state that stands for no queue (`Keyboard.PushIsEnqueue`, `Keyboard.BackspaceIsDrop`).
- `paging_new_4gb` does not look at what `kzalloc` returns; short of memory it writes to page 0 and keeps
  every block it got (`AddressSpace.New4GB`).
- In `terminal_readline` a backspace on an empty line is a character (`ReadLine.BackspaceOnEmpty`).

## Model

| member | source | states |
|---|---|---|
| `HeapTable.AddRun` | src/memory/heap/heap.c:107-123 | marking free blocks turns the encoding of the live runs into the encoding with one run more, also for a run that sticks out of the table |
| `HeapTable.DropRun` | src/memory/heap/heap.c:144-157 | clearing the bytes of a run gives the encoding of the other runs |
| `HeapTable.EncodingUnique` | src/memory/heap/heap.h:9-13 | live runs determine every byte of the table |
| `HeapTable.DecodingUnique` | src/memory/heap/heap.h:9-13 | the FIRST and HAS_NEXT flags determine the live runs: no two run maps share a table |
| `HeapTable.RunByteIs` | src/memory/heap/heap.c:107-123 | the bytes of a run: 0x41 for a lone block, 0xC1 first, 0x81 inside, 0x01 last |
| `HeapTable.FreeIs` | src/memory/heap/heap.c:65-68 | a block is free exactly if the low four bits of its byte are 0, whatever the flags |
| `HeapTable.ClearChainIsRun` | src/memory/heap/heap.c:144-157 | following HAS_NEXT from the first byte of a run stops exactly at its last byte |
| `HeapTable.FreeLive` | src/memory/heap/heap.c:144-157 | freeing a live run clears exactly its bytes, removes exactly that run, and touches nothing outside the table |
| `HeapTable.WalkFromBelow` | src/memory/heap/heap.c:144-157 | a walk that starts below the table, as kfree(0) does, frees exactly the run at block 0 if every byte before the table has HAS_NEXT, leaves the table alone otherwise, and never gets that far twice |
| `HeapTable.Conservation` | src/memory/heap/heap.c:107-176 | free blocks and the blocks of all live runs add up to the table |
| `HeapTable.ScanAnswerUnique` | src/memory/heap/heap.c:70-100 | the scan's specification allows one answer |
| `HeapTable.FirstFitExactly` | src/memory/heap/heap.c:70-100 | the scan is first-fit (least fitting start, failure only when none fits) if and only if the request fits somewhere or the last block is taken |
| `HeapTable.SingleBlock` | src/memory/heap/heap.c:70-100 | a request for one block succeeds if and only if a block is free |
| `Heap.BlockCountIs` | src/memory/heap/heap.c:54-63 | a size is rounded up to blocks, except that 0 and sizes above 0xFFFFF000 ask for no block |
| `Heap.BlockIndexOf` | src/memory/heap/heap.c:102-105 | the C division turns a block's address back into its index |
| `Heap.Heap.Create` | src/memory/heap/heap.c:29-52 | a heap is created exactly for aligned bounds and a table of matching length, with every block free; a refused table is left alone |
| `Heap.Heap.GetStartBlocks` | src/memory/heap/heap.c:70-100 | the loop over the table returns the scan's answer, including a free tail that is too short |
| `Heap.Heap.MarkBlockTaken` | src/memory/heap/heap.c:107-123 | the loop writes the flag bytes of one run over consecutive entries and nothing else, past the table if the run goes there |
| `Heap.Heap.MarkBlockFree` | src/memory/heap/heap.c:144-157 | the loop clears along HAS_NEXT up to the end of the table, wherever it is started |
| `Heap.Heap.Malloc` | src/memory/heap/heap.c:125-142 | the answer is the scan's; the run joins the live runs and the table stays their encoding; otherwise nothing changes |
| `Heap.Heap.Free` | src/memory/heap/heap.c:172-176 | a live address loses exactly its run, a free block changes nothing, an address below the pool frees the run at block 0 or nothing; any other clears along HAS_NEXT |
| `Heap.Heap.MallocThenFree` | src/memory/heap/heap.c:164-176 | for every size, freeing what was just allocated restores table and live runs |
| `HeapRuns.StepKeeps` | src/memory/heap/heap.c:125-176 | every allocation and release keeps the encoding; runs stay inside the pool exactly if the guard holds |
| `HeapRuns.RunKeeps` | src/memory/heap/heap.c:125-176 | over any run of allocations and releases every table is a partition into free blocks and flagged runs, and all runs stay in the pool if and only if every request met the guard |
| `HeapRuns.RunConserves` | src/memory/heap/heap.c:125-176 | in a guarded run live allocations are disjoint ranges of the pool and, with the free blocks, fill it |
| `HeapRuns.OverrunExample` | src/memory/heap/heap.c:95-99 | on an empty one-block table a two-block request is granted |
| `Kernel.Machine.Zero` | src/memory/memory.c:3-12 | the byte loop clears exactly [ptr, ptr + size), addresses wrapping at 2^32 |
| `Kernel.Machine.Kzalloc` | src/memory/heap/kheap.c:29-36 | the heap's answer, its blocks cleared, all other memory unchanged |
| `Kernel.Machine.KzallocPage` | src/memory/heap/kheap.c:29-36 | a page can be had if and only if a block is free; it is the block the scan answers with, and one free block fewer is left |
| `Kernel.Machine.Kfree` | src/memory/heap/kheap.c:38-41 | the heap's release, for live and free addresses and for null |
| `PageTables.SetIsFlatUpdate` | src/memory/paging/paging.c:150-170 | writing an entry through directory and table updates the flat map at that page only, and keeps the tree |
| `PageTables.FlatFrame` | src/memory/paging/paging.c:179-188 | the flat map depends on the words of the directory and its tables only |
| `PageTables.MapRangeStep` | src/memory/paging/paging.c:102-117 | mapping one page more extends the range by that page, across the wrap at 2^32 and over more than a full round |
| `PageTables.IdentityTranslates` | src/memory/paging/paging.c:9-30 | in the map of a new address space all 2^32 addresses translate to themselves |
| `PageTables.MapToTranslates` | src/memory/paging/paging.c:119-148 | a mapping succeeds exactly if the three addresses are aligned and the end is not below the start; then the target pages translate to physical + (v - virtual) and their entries carry exactly the flags, every other entry is the old one; a refused mapping changes nothing |
| `PageTables.FlagsOf` | src/memory/paging/paging.c:44-46 | masking with 0xFFFFF000 recovers a page-aligned pointer whatever its flags, and the present, write and user bits of the entry are those of the flags |
| `Paging.GetIndexes` | src/memory/paging/paging.c:61-75 | the two indexes name the page of an aligned address; an unaligned one is refused with both 0 |
| `Paging.AlignAddress` | src/memory/paging/paging.c:77-84 | rounds up to a page, within one page, up to 0xFFFFF000 |
| `Paging.AlignToLowerPage` | src/memory/paging/paging.c:86-91 | rounds down to the page of the address |
| `Paging.Get` | src/memory/paging/paging.c:179-188 | the flat map's entry of the page; of page 0 for an unaligned address |
| `Paging.GetPhysicalAddress` | src/memory/paging/paging.c:172-177 | the address translated through the flat map, offset in the page included |
| `Paging.Set` | src/memory/paging/paging.c:150-170 | an aligned address updates the flat map at one page, an unaligned one changes nothing |
| `Paging.Map` | src/memory/paging/paging.c:93-100 | success exactly for two aligned addresses; then one page maps to the given frame and flags |
| `Paging.MapPages` | src/memory/paging/paging.c:102-117 | the loop maps consecutive pages to consecutive frames for every count, or is refused without a change |
| `Paging.MapRegion` | src/memory/paging/paging.c:119-148 | result and flat map are those of the specification, including each refusal; only table pages are written |
| `AddressSpace.FillTable` | src/memory/paging/paging.c:17-23 | the inner loop fills a page with the identity entries of one table and writes nowhere else |
| `AddressSpace.EntryRights` | src/memory/paging/paging.c:22 | a directory entry has the present and user bits of the flags, and the write bit always |
| `AddressSpace.AddTable` | src/memory/paging/paging.c:14-24 | one pass of the outer loop takes a fresh block and makes it table i, with the present and user bits of the flags and the write bit in its directory entry, or writes page 0 when there is none |
| `AddressSpace.LaidIsIdentity` | src/memory/paging/paging.c:12-24 | 1024 linked tables denote the identity map |
| `AddressSpace.NewChunk` | src/memory/paging/paging.c:26-29 | the last allocation: a complete address space exists if and only if 1026 blocks were free |
| `AddressSpace.New4GB` | src/memory/paging/paging.c:9-30 | returns an identity address space made of exactly 1026 fresh one-block runs if and only if that many blocks were free, each of its 1024 directory entries with the present and user bits of the flags and the write bit; otherwise every free block is used up, old runs survive, and only page 0 and newly taken frames were written |
| `AddressSpaceLife.Free4GB` | src/memory/paging/paging.c:38-49 | gives back exactly the blocks of tables, directory and chunk |
| `AddressSpaceLife.RemapKeepsBlocks` | src/memory/paging/paging.c:150-170 | rewriting entries leaves the address space in the same heap blocks |
| `AddressSpaceLife.Perform` | src/memory/paging/paging.c:119-170 | one mapping or entry write acts on the flat map as specified and keeps the address space's blocks |
| `AddressSpaceLife.BuildUseFree` | src/memory/paging/paging.c:9-49 | building, any sequence of mappings and entry writes, then freeing restores the heap table byte for byte and the live runs, whenever the construction succeeds |
| `UserAccess.ReachIs` | src/memory/paging/paging.c:150-188 | the processor's walk through directory and table gets to the address of the flat map, or faults, by the bits of the two entries |
| `UserAccess.NewSpaceReaches` | src/memory/paging/paging.c:9-30 | in a new address space every address reaches itself: at all if the flags have the present bit, for users if they have the user bit, for users' writes if they have the write bit |
| `UserAccess.TaskReaches` | src/task/task.c:206-213 | in a task's address space a user's access is decided by the bits of the page's entry alone |
| `UserAccess.StartTask` | src/task/task.c:206-213 | with the flags of task creation, the program can read all of its address space at the same physical addresses, and write none of it |
| `UserAccess.ProgramReaches` | src/task/process.c:356-431 | the processor lets the program read each byte of its segments where the file put it, write it exactly if bit 1 of p_flags is set, and use its stack and its allocations |
| `UserAccess.MapElf` | src/task/process.c:370-431 | after the mapping of disjoint, congruent segments every access of the program to a segment or to its stack gets to the right byte, and a write through exactly if allowed |
| `UserAccess.AllocateForUser` | src/task/process.c:56-88 | every byte of a successful allocation can be read and written by the program at its address |
| `UserAccess.UnmappedFaults` | src/task/process.c:267-287 | an access to a page without the present bit faults, for user and kernel |
| `UserAccess.RemappedRights` | src/memory/paging/paging.c:150-170 | writing entries of the tables leaves the rights in the directory as they are |
| `ProcessMemory.NullFreeExactly` | src/task/process.c:123-130 | kfree(0) leaves the heap table alone if and only if a byte of the page below the table lacks HAS_NEXT or block 0 is free |
| `ProcessMemory.NullFreeExample` | src/task/process.c:123-130 | with the kernel's table and pool addresses and a page of 0x80 bytes below the table, kfree(0) frees block 0 |
| `ProcessMemory.Process.Find` | src/task/process.c:42-54 | the first slot with the given pointer, or -1 |
| `ProcessMemory.RecordSlot` | src/task/process.c:79-80 | recording a new run keeps the used slots distinct and in step with live runs |
| `ProcessMemory.EraseSlot` | src/task/process.c:101-110 | emptying a slot removes exactly its run from the process's |
| `ProcessMemory.KzallocBeside` | src/task/process.c:58-61 | allocating touches neither the page tables of the process nor its other allocations |
| `ProcessMemory.FreshRunKeeps` | src/task/process.c:58-61 | writing into a new run leaves the contents of all others, those included that stick out of the pool |
| `ProcessMemory.TablesKeepRuns` | src/task/process.c:68-77 | writing into a process's page tables leaves the contents of every run that is not one of its pages |
| `ProcessMemory.Undo` | src/task/process.c:83-87 | the error path gives the run back: table and live runs are those from before |
| `ProcessMemory.LeftPool` | src/task/process.c:68-77 | the identity mapping of an allocation is refused only if its run leaves the pool |
| `ProcessMemory.RunMapped` | src/task/process.c:68-74 | mapping a run to itself gives its bytes to the user and changes the entry of no page outside it |
| `ProcessMemory.ProcessMalloc` | src/task/process.c:56-88 | success records the run in the first unused slot and maps it to itself: every byte asked for translates to itself in an entry that is present, writable and the user's, and every page outside the run keeps its entry; the table stays in step with the heap if and only if the size is not 0; failure, for one of three stated reasons, leaves heap, table and address space as they were; for sizes of at least 1 the runs of others stay, and always every live run but the process's page tables keeps its contents |
| `ProcessMemory.ProcessFree` | src/task/process.c:265-287 | an unknown pointer changes nothing; a recorded one is unmapped as coded, its slot emptied, its run freed; a null pointer with an unused slot reaches kfree(0), which may take the run at block 0; every live run but the process's page tables keeps its contents |
| `ProcessMemory.UnmapAndErase` | src/task/process.c:265-285 | up to its kfree, process_free changes the flat map as coded and one slot, and keeps the address space in its blocks |
| `ProcessMemory.TerminateAllocations` | src/task/process.c:123-130 | the table is emptied and every allocation given back, whatever lies below the heap table; the runs of others are all left if and only if no slot is unused, a byte below the table stops the walk, block 0 is free, or its run is the process's own |
| `ProcessRuns.Run` | src/task/process.c:56-130 | any sequence of allocations and frees, of null too where a byte stops the walk of kfree(0), keeps slots and live runs in step and other runs untouched |
| `ProcessRuns.Perform` | src/task/process.c:56-287 | one such call, with the contents of all runs but the process's page tables unchanged |
| `ProcessRuns.RunThenTerminate` | src/task/process.c:56-130 | after any such sequence and termination the runs of others are left, at most without the one at block 0, and with it if a byte stops the walk of kfree(0) or that run is nobody else's |
| `ProcessRuns.ZeroSizeAliases` | src/memory/heap/heap.c:125-142 | two requests of size 0 in a row get the same address and no block |
| `ProcessRuns.FreeUnmaps` | src/task/process.c:274-280 | which pages process_free turns non-present: as many from ptr on as lie below the end address |
| `ProcessRuns.FreeKeepsMapped` | src/task/process.c:274-280 | another allocation of the pool keeps its mapping if and only if it lies below ptr or beyond that range |
| `ProcessRuns.UnmapExample` | src/task/process.c:274-280 | of two adjacent one-block allocations at 0x01000000, freeing the first unmaps the second |
| `ProcessIsolation.PerformBeside` | src/task/process.c:56-287 | a call by one process leaves another's slots, address space, runs and their contents alone, and the two share no block afterwards either |
| `ProcessIsolation.RunTogether` | src/task/process.c:56-287 | any interleaving of calls of two processes keeps both intact and apart, and every run of neither with its contents |
| `ProcessIsolation.Bystander` | src/task/process.c:56-287 | a process whose blocks stay allocated with their contents keeps its invariant and its map |
| `ProcessIsolation.LostRunExample` | src/task/process.c:56-88 | p asks for 0 bytes, q for one block: both get the same address, and the kfree of p's process_free takes q's run |
| `ProcessLife.NewProcess` | src/task/process.c:469-530 | an address space and an empty table make an intact process |
| `ProcessLife.MapImage` | src/task/process.c:402-431 | mapping program and stack keeps the process intact and its page tables where they are |
| `ProcessLife.WholeLife` | src/task/process.c:185-207 | address space, image, any sound calls, termination, release: the heap table is restored byte for byte, where a byte stops the walk of kfree(0); it starts if and only if 1026 blocks are free |
| `ElfMap.ProcessMapElf` | src/task/process.c:370-399 | the loop maps the segments in order and stops at the first refusal, as specified on the flat map |
| `ElfMap.ProcessMapMemory` | src/task/process.c:402-431 | program by its kind, then the stack, unless mapping the program failed |
| `ElfMap.SegmentIs` | src/task/process.c:380-392 | a segment gets as many pages as its bytes touch in the image, empty ones included, and their entries: frame by frame, writable with PF_W |
| `ElfMap.LastSegmentWins` | src/task/process.c:378-396 | on every page the last segment that covers it decides; uncovered pages are untouched |
| `ElfMap.SegmentBytes` | src/task/process.c:380-392 | all bytes of a nonempty segment translate to image + p_offset + (v - p_vaddr) if and only if p_vaddr and that place agree modulo the page size |
| `ElfMap.MisplacedExample` | src/task/process.c:380-392 | a segment at file offset 0x34 for address 0x400000 gets the image's first byte there |
| `ElfMap.StackIs` | src/task/process.c:421-427 | the stack pages map to the stack memory, all others stay |
| `ElfMap.MappedProgram` | src/task/process.c:370-431 | for headers on disjoint pages outside the stack, empty ones included, the others congruent modulo the page size: every segment byte in place, present, the user's, and writable exactly with bit 1 of p_flags; every byte of [0x3FB000, 0x3FF000) in the stack memory, present, the user's and writable; every other page as before |
| `ElfMap.StackWins` | src/task/process.c:417-427 | after every mapping that succeeds, overlapping or not, the stack's bytes are in place for the user |
| `ElfMap.MappedBinary` | src/task/process.c:356-368 | byte i of a flat binary appears at 0x400000 + i, present, writable and the user's; pages beyond its last are as before |
| `ElfMap.RefusedProgram` | src/task/process.c:356-431 | a binary that cannot be mapped is passed over and the stack mapped all the same; a refused segment leaves the stack unmapped |
| `CopyString.TreeUntouched` | src/task/task.c:136-169 | writes outside the pages of an address space leave its map alone |
| `CopyString.StrncpyInTask` | src/string/string.c:102-116 | run on the task's page directory, copies the NUL-terminated prefix as read through the task's map to a page mapped to itself, present, writable and the user's, if the string up to its NUL avoids that page |
| `CopyString.Strncpy` | src/string/string.c:102-116 | on physical memory, copies at most n - 1 bytes up to a NUL and terminates them |
| `CopyString.SameChars` | src/task/task.c:149-153 | the temporary identity page does not change the string unless the string, up to its NUL, touches it |
| `CopyString.CopyThrough` | src/task/task.c:149-162 | mapping, copying and restoring the entry leaves the task's map as it was |
| `CopyString.CopyStringFromTask` | src/task/task.c:136-169 | on every path map, heap table and live runs are restored; the result code is exact; the temporary page is the first free block; on success the buffer holds the prefix of at most max - 1 characters as read through the task's map, if the string up to its NUL avoids that page and the page tables |
| `TaskRing.RemovalExactly` | src/task/task.c:70-87 | removing a listed task leaves the list without it, head, tail and current in step, if and only if its back link names its predecessor, or, for the head, no other listed task; it is then not current while another remains |
| `TaskRing.RemovalCurrent` | src/task/task.c:61-87 | the running task keeps running when another is removed; when it is removed itself, the next one of the list runs, after the last the first |
| `TaskRing.RemovalBackLinks` | src/task/task.c:70-87 | such a removal makes only the successor's back link stale: an exactly doubly linked list stays one if and only if the tail was removed |
| `TaskRing.RemovalFails` | src/task/task.c:70-87 | a later task whose back link leads out of the list stays in the chain when removed, and tail leaves the list with it if it was the last |
| `TaskRing.TwoRemovals` | src/task/task.c:70-87 | in a ring of three, removing the second and then the third leaves the third in the chain |
| `TaskRing.ReuseExample` | src/task/task.c:25-97 | a removed task's block becomes a task again; after two removals of the head, both on lists in order, the head points at itself and a task is lost |
| `TaskRing.AppendKeeps` | src/task/task.c:39-48 | a new task, in any block that is not listed, joins the end of the sequence, and an exact list stays exact |
| `TaskRing.NextExactly` | src/task/task.c:25-117 | creation, in new or used blocks, and switch always keep head, tail, current and next describing one duplicate-free sequence; a removal if and only if it meets the guard |
| `TaskRing.RunKeeps` | src/task/task.c:25-117 | over every run of such events the list is in order throughout if and only if every removal met the guard |
| `TaskRing.TurnsReach` | src/task/task.c:61-110 | k calls of task_next move k places round the ring, for every k |
| `TaskRing.RoundRobinReturns` | src/task/task.c:61-110 | after as many turns as there are tasks the same task is current |
| `TaskRing.EveryoneRuns` | src/task/task.c:61-110 | every listed task gets a turn in one round |
| `TaskRing.TurnsDiffer` | src/task/task.c:61-110 | no task gets two turns in one round |
| `TaskRing.RemovalKeepsTurns` | src/task/task.c:61-107 | after a removal the remaining tasks get their turns in the old order, only the removed one skipped |
| `TaskRing.AppendedRunsBeforeWrap` | src/task/task.c:39-68 | a task created during a round runs before the turn wraps to the head |
| `TaskRing.Ring.Append` | src/task/task.c:25-59 | the statements on objects, in a new block or one of a removed task, do what the specification says on the links |
| `TaskRing.Ring.GetNext` | src/task/task.c:61-68 | the next link, or the head after the last task |
| `TaskRing.Ring.Next` | src/task/task.c:99-110 | the next task of the sequence becomes current, the links stay |
| `TaskRing.Ring.Switch` | src/task/task.c:112-117 | only the current task changes |
| `TaskRing.Ring.Remove` | src/task/task.c:70-97 | the statements write exactly the specified links; the sequence loses the task if and only if its back link meets the guard; the task that runs next is the running one, or its successor in the old list if it was removed |
| `Streamer.DiskStream.Read` | src/disk/streamer.c:27-56 | succeeds if and only if pos >= 0 and pos + total is still on the disk; delivers the flat bytes, advances pos by what it copied, and on success has fetched (pos mod 512 + total) / 512 + 1 sectors |
| `Streamer.FlatIsConcatenation` | src/disk/streamer.c:27-56 | the flat bytes of the disk are its sectors one after another |
| `Streamer.LastByteExample` | src/disk/streamer.c:27-56 | on every disk, asking for the last byte alone delivers it and fails |
| `Streamer.DiskStream.Seek` | src/disk/streamer.c:21-25 | sets the position, whatever it is |
| `Fat16.EntryPositionExactly` | src/fs/fat/fat16.c:359-360 | over all volumes and clusters the lookup hits the table's entry only for cluster 0 of a volume without reserved sectors |
| `Fat16.NeverTheEntry` | src/fs/fat/fat16.c:359-360 | with any number of reserved sectors, in 32-bit arithmetic, no cluster's entry is looked up where the table has it |
| `LookupArithmetic.NeverEqual` | src/fs/fat/fat16.c:359-360 | 1024 r c and 512 r + 2 c differ modulo 2^32 for all 1 <= r < 65536 and c < 65536 |
| `Fat16.WrongLinkExample` | src/fs/fat/fat16.c:380-419 | on the boot volume's layout, a disk whose table links cluster 2 to 3 (byte 102404) while the walk, reading byte 409600, goes to 7 |
| `Fat16.BootVolume` | src/boot/boot.asm:11-20 | the volume of the boot sector is one of those covered; its clusters up to 32762, and no others, have int positions throughout |
| `Fat16.RefusedExactly` | src/fs/fat/fat16.c:389-410 | the walk tells data clusters from other entries correctly exactly off the listed values |
| `Fat16.Reader.GetFatEntry` | src/fs/fat/fat16.c:349-375 | the 16-bit little-endian value at the code's position, or -EIO off the disk |
| `Fat16.Reader.GetClusterForOffset` | src/fs/fat/fat16.c:380-419 | the loop follows offset / cluster size links and fails exactly at a refused entry |
| `Fat16.Reader.ReadInternal` | src/fs/fat/fat16.c:421-455 | the recursion succeeds exactly when the specified read does and then puts its bytes into out; outside the requested range out never changes |
| `Fat16Meaning.ReadSucceedsExactly` | src/fs/fat/fat16.c:421-455 | a read succeeds if and only if every visited cluster is reached and its share ends before the last byte of the disk |
| `Fat16Meaning.ReadDelivers` | src/fs/fat/fat16.c:421-455 | each byte of a successful read comes from the disk position the arithmetic names, spill past the cluster included |
| `Fat16Meaning.ClusterByteIs` | src/fs/fat/fat16.c:339-342 | byte x of cluster c lies where the code looks for it: in group c - 2 of the sectors of the data area |
| `Fat16Meaning.WalkIsChain` | src/fs/fat/fat16.c:349-419 | the walk follows the chain of the file allocation table, read by FAT16's rules, if and only if the lookup is right at every cluster it leaves |
| `Fat16Meaning.SliceExactly` | src/fs/fat/fat16.c:421-455 | the read takes its bytes from the positions of [offset, offset + total) in the walked clusters if and only if wherever a visit runs past its cluster the next one follows on the disk |
| `Fat16Meaning.SpillExample` | src/fs/fat/fat16.c:432-436 | on the boot volume, with cluster 4 after cluster 2, a read at offset 1 takes its last byte from cluster 3 |
| `Fat16Meaning.AlignedIsSlice` | src/fs/fat/fat16.c:421-455 | a cluster-aligned read takes every byte from its position, for every walk |
| `Fat16Meaning.AlignedReadIsCluster` | src/fs/fat/fat16.c:421-455 | an aligned read of up to a cluster's length is a prefix of the sectors of the cluster the walk comes to, joined together |
| `Fat16Meaning.FileSliceExactly` | src/fs/fat/fat16.c:349-455 | given right lookups along the chain, the read takes every byte from where the table's chain has it if and only if that chain is contiguous at each spill |
| `Fat16Meaning.ReadIsWalkSlice` | src/fs/fat/fat16.c:421-455 | where the walk is contiguous at each spill, the bytes of a read are those at the walk's positions |
| `Fat16Meaning.FirstClusterIsRight` | src/fs/fat/fat16.c:421-455 | a read inside the first cluster needs no link and delivers the bytes at offset of that cluster's sectors, cluster 2 being the first of the data area |
| `Fat16Meaning.ReadIsFileSlice` | src/fs/fat/fat16.c:349-455 | end to end: where the lookup is right along the chain of the file allocation table, and that chain is contiguous at each spill, byte i of a successful read is byte (offset + i) mod the cluster size of the sectors of the cluster the table's chain has there |
| `Fat16Meaning.AddressableInRange` | src/fs/fat/fat16.c:434-435 | reads that come to addressable clusters only compute valid int positions, for every offset and total |
| `Fat16Meaning.ReadItems` | src/fs/fat/fat16.c:670-691 | nmemb items one after another, failing exactly if one of them fails |
| `Fat16Meaning.ItemIsFile` | src/fs/fat/fat16.c:670-691 | byte q of what a read of items delivers is byte pos + q of the file, under the same conditions |
| `Keyboard.PushIsEnqueue` | src/keyboard/keyboard.c:60-74 | a push appends to the queue, across the wrap of the counters; the result stands for a queue if and only if fewer than 1024 characters waited |
| `Keyboard.PopIsDequeue` | src/keyboard/keyboard.c:76-93 | the zero test agrees with emptiness even when the ring is full; otherwise the oldest character is removed |
| `Keyboard.BackspaceIsDrop` | src/keyboard/keyboard.c:43-48 | removes the newest character; the result stands for a queue if and only if the queue was not empty |
| `KeyboardRuns.StepAgrees` | src/keyboard/keyboard.c:43-93 | each push, pop and backspace keeps ring and reader in step with what was typed, and leaves a queue if and only if it is allowed |
| `KeyboardRuns.SessionIsFifo` | src/keyboard/keyboard.c:43-93 | over any session with at most 1024 characters waiting and no backspace on an empty ring, the characters received are the first of those typed and not erased, in order, and the ring holds the rest |
| `KeyboardRuns.SessionExactly` | src/keyboard/keyboard.c:43-93 | the ring stands for a queue throughout a session if and only if every event was allowed |
| `Keyboard.Buffer.KeyboardPush` | src/keyboard/keyboard.c:60-74 | the statements on buffer, head and tail are the specified push; 0 is ignored |
| `Keyboard.Buffer.KeyboardPop` | src/keyboard/keyboard.c:76-93 | the statements are the specified pop |
| `Keyboard.Buffer.KeyboardBackspace` | src/keyboard/keyboard.c:43-48 | the statements are the specified backspace |
| `Itoa.DecimalUnique` | programs/stdlib/src/stdlib.c:8-34 | a number has one decimal form without leading zeros |
| `Itoa.Short` | programs/stdlib/src/stdlib.c:8-34 | the magnitude of a 32-bit int has at most ten digits |
| `Itoa.ConvertToText` | programs/stdlib/src/stdlib.c:8-34 | for all 2^32 values the text is the decimal form, with a sign when negative, ends in NUL, and never leaves the 12-byte buffer |
| `CommandLine.WordsSplit` | programs/stdlib/src/string.c:129-176 | a delimiter separates words and loses none: words of a + c + b are those of a and of b |
| `CommandLine.WordsOfOne` | programs/stdlib/src/string.c:129-176 | a delimiter-free string is one word |
| `CommandLine.CallsYieldWords` | programs/stdlib/src/string.c:129-176 | the n-th of repeated strtok calls returns the n-th word of the string, and every call past the last word returns null |
| `CommandLine.CutText` | programs/stdlib/src/string.c:161-173 | the NUL written over a delimiter cuts the string in exactly two |
| `CommandLine.Tokenizer.Strtok` | programs/stdlib/src/string.c:129-176 | returns the next word in place, keeps the rest behind sp at its exact position, changes one byte at most, ignores a new string while sp is set, and resets sp when no word is left |
| `CommandLine.Tokenizer.SkipDelimiters` | programs/stdlib/src/string.c:141-154 | the first loop stops at the first character that is no delimiter |
| `CommandLine.Tokenizer.CutToken` | programs/stdlib/src/string.c:161-173 | the second loop ends the token at its first delimiter and moves past it |
| `ParseCommand.Strncpy` | programs/stdlib/src/string.c:102-116 | at most n - 1 characters, always terminated, the rest of the buffer unchanged |
| `ParseCommand.CutTo511` | programs/stdlib/src/alphaos.c:8-50 | an argument is its word's first 511 characters |
| `ParseCommand.Shell.Parse` | programs/stdlib/src/alphaos.c:8-50 | the list holds the words of the command, or, while sp is set, of what the copied command leaves at the old position in the same frame, each cut to 511 characters, up to the first failing malloc; sp is reset if and only if no malloc fails |
| `ParseCommand.LostStartExample` | programs/stdlib/src/alphaos.c:33-37 | after "ls a" failed for want of memory, "echo hi" becomes "o", "hi" |
| `ReadLine.BackspaceUndoes` | programs/stdlib/src/alphaos.c:62-87 | exactly which keys a following backspace takes back without a trace |
| `ReadLine.BackspaceOnEmpty` | programs/stdlib/src/alphaos.c:77-83 | on an empty line a backspace is stored |
| `ReadLine.TypedPlain` | programs/stdlib/src/alphaos.c:83-84 | keys without backspace are the line |
| `ReadLine.LineExample` | programs/stdlib/src/alphaos.c:62-87 | the keys a, b, backspace, c and Enter give the line ac |
| `ReadLine.TerminalReadline` | programs/stdlib/src/alphaos.c:62-87 | the buffer holds the edited line, terminated and below max, as it was at the first Enter or when it filled up |
| `InjectArguments.CountArguments` | src/task/process.c:215-226 | the length of the list |
| `InjectArguments.StoreString` | src/string/string.c:102-116 | a kernel string copied to a page, cut to n - 1 characters and terminated, nothing outside the page written |
| `InjectArguments.OwnWrite` | src/task/process.c:252-253 | writing into one allocation of a process disturbs neither its page tables nor its other allocations |
| `InjectArguments.AllocationKeeps` | src/task/process.c:246-250 | a new allocation leaves the words of the earlier ones alone |
| `InjectArguments.InjectOne` | src/task/process.c:245-256 | one pass of the loop puts the next argument in place and keeps those before; if it fails there is no room |
| `InjectArguments.Inject` | src/task/process.c:228-263 | on success argc is the length of the list and argv[i] points at an allocation holding the i-th string; on failure both are left alone, an empty list is exactly the I/O error, and running out means slots or heap are exhausted |
| `InjectArguments.ArgvReads` | src/task/process.c:228-263 | the four bytes at argv + 4 i are, low byte first, the address of the bytes of argument i and a 0 |
| `SystemRun.WordChars` | programs/stdlib/src/string.c:129-176 | words consist of characters of the string |
| `SystemRun.ArgumentsAreWords` | programs/stdlib/src/alphaos.c:89-99 | of a command of up to 1023 characters every word arrives, as far as there is memory, up to its 511th character |
| `SystemRun.SystemRun` | programs/stdlib/src/alphaos.c:89-99 | end to end: argv of the new process holds the words of the command line, in order, as many as malloc allowed, each cut to 511 characters |
| `Path.ComponentsExactly` | src/fs/pparser.c:37-81 | the names of a path are the one list it spells out with single slashes before its end, a final slash or an empty name |
| `Path.FormatExactly` | src/fs/pparser.c:8-106 | a path is accepted exactly if it is a digit, a colon and a slash, and at most 108 characters in all |
| `Path.PrintParse` | src/fs/pparser.c:97-135 | printing a drive and nonempty slash-free names and parsing gives them back, with or without a final slash |
| `Path.ParsePrint` | src/fs/pparser.c:97-135 | parsing and printing gives a prefix of the path; only what follows the first empty name is lost |
| `Path.Allocator.GetPathPart` | src/fs/pparser.c:37-61 | the next name in a zeroed 108-byte buffer it fits into, or no buffer kept for an empty one; the position behind one slash |
| `Path.Allocator.ParsePathPart` | src/fs/pparser.c:63-81 | the name as a new last part of the list, or nothing |
| `Path.Allocator.Parse` | src/fs/pparser.c:97-135 | null exactly for a badly formed or too long path; otherwise drive and names, and the heap grows by exactly what the root holds |
| `Path.Allocator.Free` | src/fs/pparser.c:83-95 | releases everything the root holds and nothing else |
| `Path.Allocator.ParseThenFree` | src/fs/pparser.c:83-135 | parsing and freeing leave the heap as it was |

## Left out

- Hardware: port I/O, ATA transfers, boot code, loading CR3, GDT and IDT, register save and restore, and every `.asm` file. Switching page directories appears as reading memory through the map of the directory that is loaded.
- The VGA terminal, `print`, system-call dispatch, filesystem registration: plumbing around the functions modelled here.
- Physical memory appears in two views that are taken not to overlap: the bytes around and including the heap table (`Heap.Heap.low`), and the words of the pool, the page tables and user pages (`Kernel.Machine.mem`). What a block run that sticks out past the pool would overwrite is therefore seen only in the table, not in the memory behind the pool.
- Interrupts between two statements: every method runs to its end.
- FAT directory listing, 8.3 names, `fat16_seek` and `fat16_stat`: `FAT16_to_proper_string` has no bound on the field it copies, and directory totals count entries they skip.
- `elf_load` and the choice between ELF and flat binary: a loaded, validated image and its program headers are inputs of `ElfMap`. That the image does not change while its headers are read is part of that.
- Loading and ending a whole process: `process_terminate` never frees the process object.
- String comparison, case folding, file descriptors, GDT and IDT packing: they would only add easy members.
- Heap.Heap.Free: an address whose table index lies below the modelled bytes is excluded, and for one inside a run, past its first block, `live` is not updated and the table stops being its encoding.
- Of the processor's paging (`Mmu`): 4 MiB pages, the accessed and dirty bits, cached translations, and the kernel's own write protection (CR0.WP) are not part of this model; `enable_paging` sets none of them.
- AddressSpace.New4GB: flags are the eight bits of the C parameter, and a failed construction is described only by what is still allocated and which frames may have been written.
- AddressSpaceLife.Free4GB: an address space that is not made of live one-block runs (one that `paging_new_4gb` could not finish, or one already freed) is not released here.
- ProcessMemory.ProcessMalloc: the size stays below the distance from the end of the pool to 2^32, so that clearing a run that sticks out does not wrap around the address space.
- ProcessRuns.Run: a call of size 0 breaks the bookkeeping (see `ProcessRuns.ZeroSizeAliases`), and a null pointer is covered only while a byte stops the walk of kfree(0); once block 0 is lost only termination is described (`ProcessMemory.TerminateAllocations`).
- ProcessRuns.RunThenTerminate: the same calls.
- ProcessIsolation.RunTogether: the same calls.
- ProcessLife.WholeLife: the same calls, and a byte that stops the walk of kfree(0); the memory of the image and of the stack is someone else's.
- UserAccess.MapElf: the premises of `ElfMap.MappedProgram`; overlapping segments are described by `ElfMap.LastSegmentWins` alone.
- UserAccess.AllocateForUser: requests of 0 bytes, and the bound of `ProcessMalloc`.
- CopyString.CopyStringFromTask: `max` is at least 1 (the code would still write a NUL to a buffer of no length), the caller runs on the kernel's identity-mapped directory, and the destination holds neither page tables nor free heap blocks. A page of the source that is not present would fault; the map's address is read all the same.
- TaskRing.Ring.Remove: only listed tasks are removed, so a task whose construction failed, which `task_new` frees before it is listed, is not part of the ring; neither are registers, page directories, and what a write through a stale link does to a freed block that is no task by then.
- Streamer.DiskStream.Read: reading a sector the disk does not have is an error with the code of a failed transfer; positions between -511 and -1 are excluded, since the C remainder is negative there.
- Fat16.Reader.ReadInternal: the positions computed for the clusters the read comes to are valid ints (`Fat16.InRange`; beyond that C leaves the sum undefined) and do not lie in the last sector before 0, and offset + total is an int. On the boot volume, whose disk is larger, this holds for the clusters up to 32762, the first two gigabytes.
- Fat16Meaning.ReadItems: the same for each item.
- InjectArguments.Inject: the argument list is read from buffers outside the memory the method changes; the sizes asked for obey the bound of `ProcessMalloc`.
- ParseCommand.Shell.Parse: user `malloc` is a count of calls that succeed, and nodes are objects of their own, not addresses in a process. Every call has its buffer in the same place of the stack and finds there what the last one left; of a frame that moved or was overwritten in between nothing is said.
- SystemRun.SystemRun: loading the program between parsing and injecting is not part of this model; the process is an input.
- Keyboard.Buffer.KeyboardPush: there is a current process, and it is also the process of the current task, from whose buffer `keyboard_pop` reads; the list of keyboards and caps lock are not modelled.
- ReadLine.TerminalReadline: the keys are those `__getkeyblock` returns, which drops the first key of every call and waits for one that is not 0; echoing them is left out.
- Path.Allocator.GetPathPart: the heap has room for the name's buffer; ParsePathPart, Parse and ParseThenFree for what they allocate.
- Path.Allocator.Parse: `kzalloc` is not checked by the code, so the heap is required to have room for the root, two objects per name and one buffer more; every object counts as one.
