# Enki kernel verification

A model of the memory manager, the FAT16 read path, the command-line machinery, the scheduler, the ELF loader and
some encodings of the Enki kernel, with proofs of what they promise. One module models one source file, or one layer
of it:

| file | models |
| --- | --- |
| `Machine.dfy` | 32-bit wrap-around, C division, bitwise and/or |
| `Heap.dfy`, `HeapRuns.dfy` | the block allocator; what its byte table means |
| `Memory.dfy`, `MemoryBytes.dfy` | physical memory, `kmalloc`, `kzalloc`, `kfree`; bytes and strings in it |
| `Paging.dfy`, `PageDirectory.dfy` | page tables; building and freeing a directory |
| `ProcessMemory.dfy` | `process_malloc` and `process_free` on heap table, allocation tables and page entries |
| `ProcessBlocks.dfy`, `ProcessHeld.dfy` | page structures as heap blocks; the runs that hold programs and stacks |
| `ProcessLoad.dfy`, `ProcessConfine.dfy`, `ProcessRuns.dfy` | loading programs; whole lives of processes |
| `MemoryImage.dfy`, `ProcessSteps.dfy`, `Process.dfy` | what memory holds of a state; all of it on the kernel's data |
| `DiskIO.dfy`, `Fat16Read.dfy`, `Fat16Layout.dfy` | disk stream, FAT16 reading, where a volume has its parts |
| `Fat16Dir.dfy`, `Path.dfy` | names and lookup, paths |
| `CString.dfy`, `StringTokens.dfy`, `CommandLine.dfy` | C strings, `strtok`, from a typed command to `argv` |
| `RoundRobin.dfy`, `Scheduler.dfy`, `TaskCopy.dfy` | turn taking, the task list, `copy_str_from_task` |
| `Elf.dfy`, `ElfMap.dfy` | segment bounds, mapping programs |
| `Keyboard.dfy`, `Itoa.dfy`, `Gdt.dfy` | the keyboard ring, `itoa`, segment descriptors |

Addresses are 32-bit words and every sum that can wrap does so explicitly. Code that changes state is written as
methods over arrays and objects whose contracts equate the new state with a specification function; the lemmas are
about those functions.

## What holds

* Memory. Over every run in which processes start, load programs, allocate, free, store and end, interleaved with the
  kernel's own use of the heap, each heap page of each process is identity-mapped and writable exactly when it lies in
  one of that process's live allocations; and whatever page it goes through, no physical frame can be written by two
  processes, and none that is free, holds page directories or tables, or is the kernel's by any
  (`ProcessRuns.EveryRunIsIsolated`). Such a run loads only programs that leave the heap pages alone and stay inside
  the runs they were read to, and `ProcessConfine.LoadKeepsSealedExactlyWhen` says which ones those are. In memory,
  writable means that the processor's walk through both levels of a directory ends in a write (`Paging.Access`): what one
  process may write so, no other may (`MemoryImage.MemoryIsIsolated`). For each operation there is a method over heap
  table, physical memory and allocation arrays that refines it (`Process.Kernel`); every byte `process_malloc` hands out
  is 0 and the process's to write (`Process.Kernel.ProcessMalloc`); and when a process ends, everything it took goes back
  (`Process.Kernel.Terminate`).
* Strings across address spaces. What `copy_str_from_task` delivers is the string the process sees, if that lies in the
  process's own memory (`Process.Kernel.CopyStrFromTask`).
* Files. A read is a flat copy of the file's cluster chain exactly when it starts on a cluster boundary or every
  boundary inside it lies between neighbouring clusters (`Fat16Read.FlatExactlyWhen`); from a volume formatted by the
  standard it then delivers what was written (`Fat16Layout.ReadsBackWhatWasWritten`).
* Command lines. `argv` is the list of maximal non-space runs, each cut to 511 characters (`CommandLine.SystemRun`).
* Scheduling. Every task runs once per round, and no task starves while tasks are created
  (`RoundRobin.TurnsAreInOrder`, `RoundRobin.EveryTaskGetsItsTurn`, `Scheduler.Scheduler.Run`).
* Programs. A mapped segment is found where the file was read to exactly when its offset and address agree modulo
  the page size (`ElfMap.LoadedSegmentReadsExactlyWhen`).

## Where the code does less than it promises

Each of these is kept as the code has it, with the exact condition under which the promise holds.

* `heap_get_start_block` tests only whether a run was started: with no run long enough it answers with a shorter one
  at the end of the table (`Heap.StartBlockRightExactlyWhen`, `Heap.StartBlockWrongExample`).
* `paging_map_to` computes the page count from a signed difference, so from 2 GiB on it maps nothing and reports
  success (`Paging.MapToMapsExactlyWhen`).
* A request of 0 bytes, or of more than 0xFFFFF000, which round up to 0, is answered with a block that stays free
  (`HeapRuns.AnswerIsTakenExactlyWhen`, `Memory.SameAnswerTwice`). `process_malloc` keeps its data in step exactly when
  it meets neither this nor a run that is too short (`ProcessMemory.MallocKeepsInvExactlyWhen`).
* `process_map_elf` maps any header anywhere, so a program can take over heap pages of its own directory
  (`ProcessLoad.LoadKeepsExactlyWhen`, `ProcessLoad.HeapSegmentExample`); so can a flat program that reaches up to the
  heap (`ProcessLoad.BinaryKeepsHeapExactlyWhen`).
* It maps as many pages as `p_memsz` asks for, so a writable segment that runs past the file's own blocks shows whatever
  the heap holds behind them (`ProcessConfine.LoadKeepsSealedExactlyWhen`, `ProcessConfine.FileKeepsSealedExactlyWhen`,
  `ProcessConfine.OverrunExample`).
* A null pointer matches an unused slot in `process_free`, and `kfree` then clears bytes from 4096 before the heap table
  on. It reaches the table exactly when all of those have HAS_NEXT (`Heap.StrayFreeKeepsTableExactlyWhen`), and only the
  first such call can (`Heap.SecondFreeDoesNothing`). The boot record's signature, two bytes before the table, stops it
  (`Process.Kernel.ProcessFree`).
* `copy_str_from_task` never frees its buffer: each success leaves one more block taken that nobody uses
  (`Process.Kernel.CopyStrFromTask`).
* `fat16_read_internal_stream` ignores the offset within the cluster when it chooses how much to read
  (`Fat16Read.FlatExactlyWhen`, `Fat16Read.UnalignedReadWrongExample`).
* The chain walk stops at the values listed in the code, which are those of FAT12: FAT16 end marks are followed as
  cluster numbers and five ordinary clusters end the chain (`Fat16Read.WalkIsStandardExactlyWhen`,
  `Fat16Read.StopSetsAgreeExactlyWhen`, `Fat16Read.StopSetExamples`).
* The data area is taken to begin at the sector in which the root directory ends, when that directory does not fill its
  last sector (`Fat16Layout.ClustersAreStandardExactlyWhen`).
* Directory lookup compares as many entries as are live, from the first on, deleted ones included
  (`Fat16Dir.LookupSeesEveryEntryExactlyWhen`, `Fat16Dir.LookupInRoot`). A full root directory has no end marker: then
  entries are counted in the data area behind it, and lookup may read behind its buffer (`Fat16Dir.OverrunExactlyWhen`).
* A resolved 8.3 name gives its entry back exactly when the fields are padded and the name field has no dot in it
  (`Fat16Dir.ResolveRoundTripExactlyWhen`); which entries share a name is `Fat16Dir.CollidesExactlyWhen`.
* Path parsing stops at the first empty part (`Path.PartsUndoJoinExactlyWhen`).
* If an allocation fails in `enki_parse_cmd`, strtok's cursor stays inside the abandoned command
  (`CommandLine.ParseCmd`).
* `task_list_remove` leaves a proper list exactly when it removes a tail that is neither the head nor running
  (`Scheduler.Scheduler.ListRemove`).
* The keyboard ring stops being a queue at the 1025th outstanding key, and at a backspace with none outstanding
  (`Keyboard.KeyboardBuffer.Push`, `Keyboard.KeyboardBuffer.Backspace`).
* The ELF base address treats 0 as "none yet" (`Elf.BaseIsLowestExactlyWhen`, `Elf.ForgottenSegmentExample`).
* `encode_gdt_entry` refuses some limits that have a descriptor (`Gdt.RefusedThoughRepresentable`).

## Model

| member | source | states |
|---|---|---|
| Machine.MaskIsFrame | kernel/memory/paging.c:124-126 | Masking an entry with 0xFFFFF000 gives the address of the frame it names, for every 32-bit entry. |
| Machine.OrIsFlags | kernel/memory/paging.c:76 | Or-ing flags below 4096 into an address keeps its frame, whatever the low bits were. |
| Machine.BitOfAndOr | kernel/memory/paging.c:22 | The two operators are the bitwise ones: every bit of the result is set exactly when it is in both words, or in one of them. |
| Heap.FirstFitIsLowest | kernel/memory/heap.c:56-79 | The first fit is a free run of the requested length, and no lower block starts one. |
| Heap.EntryBits | kernel/include/memory/heap.h:7-11 | A table entry is free when its low four bits are clear, the first of an allocation when bit 6 is set, and followed by another when bit 7 is. |
| Heap.StartBlockRightExactlyWhen | kernel/memory/heap.c:56-79 | The search gives the lowest start of a free run, or -ENOMEM when there is none, exactly when such a run exists or the last block of the table is not free. |
| Heap.StartBlockWrongExample | kernel/memory/heap.c:75-78 | With only the last of three blocks free, a request for two is answered with block 2, although no run of two exists. |
| Heap.AlignVal | kernel/memory/heap.c:43-49 | The result is the next multiple of the block size, at most 4095 above the argument; above 0xFFFFF000 it wraps to 0. |
| Heap.Heap.BlockOfByte | kernel/memory/heap.c:81-89 | A block has the address that many block sizes behind the start of the heap, and every address inside it gives that block. |
| Heap.Heap.Create | kernel/memory/heap.c:22-40 | Unaligned bounds or a wrong table length are refused with -EINVARG and nothing written; otherwise every block is free and the memory before and behind the table is untouched. Exactly which accepted heaps are valid. |
| Heap.Heap.GetStartBlock | kernel/memory/heap.c:56-79 | The loop computes the specified search answer for every table and every request, 0 blocks included. |
| Heap.Heap.MarkBlocksTaken | kernel/memory/heap.c:91-107 | Exactly the given blocks are tagged: IS_FIRST on the first, HAS_NEXT on all but the last; every other byte is kept. |
| Heap.Heap.MarkBlocksFree | kernel/memory/heap.c:109-119 | Blocks are cleared from the start, which may lie before the table, up to and including the first without HAS_NEXT, and never past the table. |
| Heap.Heap.Malloc | kernel/memory/heap.c:122-138 | A failed search returns null and changes nothing; otherwise the result is the address of the found block and that run is taken. |
| Heap.Heap.FreeAddr | kernel/memory/heap.c:140-142 | The run at the block of the address is cleared, for every address. |
| Heap.FreedStops | kernel/memory/heap.c:109-119 | A free that starts before the table leaves the table alone if some byte on the way lacks HAS_NEXT, and otherwise does to it what a free of block 0 does. |
| Heap.StrayFreeKeepsTableExactlyWhen | kernel/memory/heap.c:109-142 | It leaves the table alone exactly when some byte on the way lacks HAS_NEXT, the table is empty, or its first block is clear already. |
| Heap.SecondFreeDoesNothing | kernel/memory/heap.c:109-142 | Freeing the same address twice in a row is freeing it once, wherever it is. |
| HeapRuns.RunsPartitionTakenBlocks | kernel/memory/heap.c:91-107 | In a well-formed table every taken block lies in exactly one run and no free block lies in any. |
| HeapRuns.RunsDetermineTable | kernel/memory/heap.c:91-119 | Two well-formed tables with the same runs are the same, byte for byte: the decoding loses nothing. |
| HeapRuns.RunShape | kernel/memory/heap.c:91-107 | Inside a run every block but the last has HAS_NEXT and only the first may have IS_FIRST. |
| HeapRuns.TakenAddsRun | kernel/memory/heap.c:91-107 | Taking a free run keeps the table well formed and adds exactly that run. |
| HeapRuns.FreedRemovesRun | kernel/memory/heap.c:109-119 | Freeing a run keeps the table well formed and removes exactly that run. |
| HeapRuns.MallocThenFreeRestores | kernel/memory/heap.c:91-119 | Freeing what was just allocated restores the table byte for byte. |
| HeapRuns.LowestClearIsFirstFit | kernel/memory/heap.c:56-79 | Searching the byte table and searching the set of live runs give the same block. |
| HeapRuns.StepRefines | kernel/memory/heap.c:122-142 | One allocation or free on the byte table is the same operation on the set of live runs. |
| HeapRuns.EveryRunRefines | kernel/memory/heap.c:122-142 | After any sequence of allocations and frees of live results the table is well formed and decodes to exactly the allocations that are live. |
| HeapRuns.FreshTableIsEmpty | kernel/memory/heap.c:22-40 | A new table is well formed and holds no run. |
| HeapRuns.AnswerIsTakenExactlyWhen | kernel/memory/heap.c:43-49 | An answer inside the table names a free block, and that block is taken exactly for sizes from 1 to 0xFFFFF000; for all others nothing changes. |
| HeapRuns.ShortRunIsIllFormed | kernel/memory/heap.c:91-107 | An answer that is too short leaves a table that is not well formed: its last block says another follows. |
| HeapRuns.ShortRunFreeRestores | kernel/memory/heap.c:91-119 | Freeing it restores the table byte for byte. |
| Memory.Memset0 | libc/string/string.c:57-63 | For every address of memory: the byte there is 0 afterwards if it is one of the n bytes, and otherwise what it was. |
| Memory.Kmalloc | kernel/memory/kheap.c:21-23 | The first free run long enough, or what the search answers instead, is taken, or null is returned with nothing changed; for serviceable requests that is the first fit, block-aligned. |
| Memory.Kzalloc | kernel/memory/kheap.c:25-32 | The same allocation; afterwards every requested byte is 0 and every other byte of memory what it was. |
| Memory.Kfree | kernel/memory/kheap.c:34-36 | The run at the address leaves the table; an address below the heap clears from the byte it stands for. |
| Memory.ClearedElsewhere | libc/string/string.c:57-63 | A word that shares no byte with those cleared is what it was. |
| Memory.SameAnswerTwice | kernel/memory/heap.c:134-138 | On an empty heap a request of 0 bytes or of more than 0xFFFFF000 and the next request get the same address. |
| Paging.Indices | kernel/memory/paging.c:52-59 | An unaligned address is refused with both indices 0; an aligned one splits into table and entry number. |
| Paging.AlignUp | kernel/memory/paging.c:61-66 | The next page boundary, at most 4095 above the address; 0 above the last one. |
| Paging.AlignDown | kernel/memory/paging.c:68-70 | The page boundary at or below the address. |
| Paging.SetEntryChangesOnePage | kernel/memory/paging.c:103-118 | Storing one entry changes that page of the directory, no other page, and no frame that is not one of its tables. |
| Paging.OtherFramesKeepPages | kernel/memory/paging.c:120-134 | Changes outside the frames of a directory and its tables leave all its entries alone. |
| Paging.Get | kernel/memory/paging.c:120-128 | The entry of the page of the address; of page 0 when the address is unaligned. |
| Paging.Set | kernel/memory/paging.c:103-118 | Exactly the word of the entry of that page is stored, or -EINVARG and nothing. |
| Paging.Map | kernel/memory/paging.c:72-77 | The entry of the page becomes frame and flags, or -EINVARG and nothing. |
| Paging.MapRange | kernel/memory/paging.c:79-90 | Consecutive pages are mapped to consecutive frames, both going round the 32-bit address space; every other page and every frame outside the tables is kept. |
| Paging.MapToRange | kernel/memory/paging.c:92-101 | The status, -EINVARG exactly for an unaligned argument or an end below the start; all 2^20 entries are those of the specification, for every argument, and nothing but the tables changes. |
| Paging.MapToMapsTheRange | kernel/memory/paging.c:92-101 | After success on a span below 2 GiB every byte virt + k translates to phys + k with the given flags, and pages outside the range are unchanged. |
| Paging.MapToMapsExactlyWhen | kernel/memory/paging.c:92-101 | The call maps the range whatever was mapped before exactly when the span is below 2 GiB. |
| Paging.GetPhysAddr | kernel/memory/paging.c:130-134 | The address a directory sends a virtual address to. |
| Paging.AccessIsTranslate | kernel/memory/paging.c:120-134 | The processor's walk (Intel SDM volume 3A, sections 4.3 and 4.6) ends at that address when both the directory's and the table's entry are present and for users, and for a write both writable; otherwise it faults. |
| Paging.WriteableFlag | kernel/include/memory/paging.h:10-12 | An entry allows writing exactly when all three flags are set, whatever its frame. |
| PageDirectory.FillTable | kernel/memory/paging.c:14-19 | Table i maps its 1024 pages to themselves with the given flags, and nothing else is written. |
| PageDirectory.PagingNew | kernel/memory/paging.c:9-27 | 1026 distinct blocks that were free become single-block runs holding a complete directory, each of whose entries has the requested flags and the writable one; all other memory is kept. |
| PageDirectory.CompleteDirectory | kernel/memory/paging.c:9-27 | A complete directory has distinct tables and maps each of the 2^20 pages to itself with the given flags. |
| PageDirectory.DirectoryEntry | kernel/memory/paging.c:22 | A directory entry names the table's frame and has the requested flags or-ed with the writable one. |
| PageDirectory.CompleteDirectoryAllows | kernel/memory/paging.c:9-27 | By both levels together, a program may read a page exactly when the requested flags have the present and the user bit, and write it exactly when they have the writable bit too. |
| PageDirectory.OneMoreSingle | kernel/memory/heap.c:91-107 | A free block taken alone keeps the table well formed and every older run as it was. |
| PageDirectory.PagingFree | kernel/memory/paging.c:29-37 | Masking the directory entries recovers every table, and the heap table is restored byte for byte, whatever was mapped meanwhile. |
| ProcessMemory.LiveAllocationsAreDisjoint | kernel/task/process.c:236-256 | A heap block lies in at most one live allocation of at most one process. |
| ProcessMemory.NoSharedWritablePage | kernel/task/process.c:236-299 | No heap page is writable in two processes. |
| ProcessMemory.RoundingsAgree | kernel/task/process.c:246-247 | For an allocation in the heap, the heap and the pager round to the same end, so the mapped span is the heap run. |
| ProcessMemory.SpanIsRun | kernel/task/process.c:236-299 | The paging_map_to calls of allocation and free remap exactly the pages of the run and succeed. |
| ProcessMemory.MallocKeepsInv | kernel/task/process.c:236-256 | Allocation keeps heap runs, page entries and allocation table in step. |
| ProcessMemory.FreeKeepsInv | kernel/task/process.c:288-299 | So does freeing, of owned, foreign and null pointers. |
| ProcessMemory.MallocDelivers | kernel/task/process.c:236-256 | A request fails exactly when no free run is long enough or every slot is in use, and then changes nothing. Otherwise pointer and size are recorded in an unused slot, for blocks nobody owned, and no other slot, page or process changes. |
| ProcessMemory.SlotIsLowest | kernel/task/process.c:227-286 | The search for a pointer gives the lowest slot that holds it, or none when no slot does. |
| ProcessMemory.AllocationIsUsable | kernel/task/process.c:236-256 | Every byte of a live allocation is at the address it names, in a page the process can write. |
| ProcessMemory.FreeTakesBack | kernel/task/process.c:288-299 | Freeing a recorded pointer clears exactly its slot, frees exactly its blocks and leaves their pages unusable; any other pointer changes nothing. |
| ProcessMemory.FreeFromLeavesNothing | kernel/task/process.c:347-352 | After freeing all its allocations a process has no live entry and no writable heap page, and every other process is unchanged. |
| ProcessMemory.FreeFromRemovesOwnRuns | kernel/task/process.c:347-352 | Exactly the runs of that process leave the heap. |
| ProcessMemory.InitialInv | kernel/memory/kheap.c:10-19 | The empty heap with no process satisfies the invariant. |
| ProcessMemory.ZeroBytesAliasTheNextRequest | kernel/task/process.c:236-256 | On an empty heap a request of 0 bytes gets block 0 and leaves it free, and the next request gets block 0 again. |
| ProcessMemory.MallocAnyIsMalloc | kernel/task/process.c:236-256 | When the answer is long enough and the size from 1 to 0xFFFFF000, the operation on all requests is the allocation the invariant is about. |
| ProcessMemory.MallocKeepsInvExactlyWhen | kernel/task/process.c:236-256 | Allocation keeps heap, page entries and allocation table in step exactly when the search finds nothing, no slot is free, the end wraps, or the size is from 1 to 0xFFFFF000 and the run found is long enough. |
| ProcessBlocks.MallocKeepsKept | kernel/task/process.c:236-256 | Allocation keeps the whole invariant, page structures included. |
| ProcessBlocks.FreeKeepsKept | kernel/task/process.c:288-299 | So does freeing. |
| ProcessBlocks.KernelMallocKeeps | kernel/memory/kheap.c:21-32 | So does an allocation of the kernel. |
| ProcessBlocks.KernelFreeKeeps | kernel/memory/kheap.c:34-36 | So does a free by the kernel of a run that is neither an allocation of a process nor a page structure. |
| ProcessBlocks.SpawnKeeps | kernel/task/task.c:49-67 | So does a new process, its directory in free blocks. |
| ProcessBlocks.KeptIsNotInside | kernel/memory/paging.c:9-27 | No allocation reaches into a block that holds page structures. |
| ProcessBlocks.ReleasedRemovesRuns | kernel/memory/paging.c:29-37 | Releasing blocks taken alone keeps the table well formed and removes exactly their runs. |
| ProcessBlocks.ExitKeeps | kernel/task/process.c:409-426 | The end of a process keeps the whole invariant. |
| ProcessBlocks.ExitRemovesExactly | kernel/task/process.c:409-426 | Of the heap's runs exactly the process's allocations and page structures leave, and of the processes exactly this one. |
| ProcessHeld.SealedIsIsolated | kernel/task/process.c:97-147 | Under the invariant no frame can be written by two processes through whatever pages, and none that is free, holds page structures, or is part of a run of the kernel. |
| ProcessHeld.PartOfOne | kernel/task/process.c:175-256 | A run is an allocation or the program or stack of one process at most, and then neither a page structure nor the kernel's. |
| ProcessHeld.ReachesOwnRun | kernel/task/process.c:97-147 | A frame a process can write lies in one of its allocations or in a run that holds its program or stack. |
| ProcessHeld.MallocKeepsSealed | kernel/task/process.c:236-256 | Allocation keeps this invariant. |
| ProcessHeld.FreeKeepsSealed | kernel/task/process.c:288-299 | So does freeing. |
| ProcessHeld.KernelFreeKeepsSealed | kernel/memory/kheap.c:34-36 | So does a free by the kernel of a run that no process has any part in. |
| ProcessHeld.SpawnKeepsSealed | kernel/task/task.c:49-67 | So does a new process. |
| ProcessHeld.GivingKeepsSealed | kernel/task/process.c:72-74 | So does handing a run of the kernel to a process for its program or stack. |
| ProcessHeld.ExitKeepsSealed | kernel/task/process.c:409-426 | So does the end of a process. |
| ProcessHeld.ExitLeavesHeld | kernel/task/process.c:409-426 | The runs a process held are the kernel's to free when it has ended. |
| ProcessLoad.PageOkAfterLoad | kernel/task/process.c:124-147 | The page of a heap block stays right exactly when nothing maps it, or what maps it last maps it to itself with the write permission the process has. |
| ProcessLoad.LoadKeepsExactlyWhen | kernel/task/process.c:124-147 | Loading a program keeps the invariant exactly when that holds for every heap page. |
| ProcessLoad.ElfKeepsHeapExactlyWhen | kernel/task/process.c:97-121 | For headers that all succeed and none of which is mapped to itself: exactly when no header's range includes a heap page. |
| ProcessLoad.BinaryKeepsHeapExactlyWhen | kernel/task/process.c:88-94 | For a flat program elsewhere than at its own address: exactly when it ends below the heap, or is so large that nothing is mapped. |
| ProcessLoad.HeapSegmentExample | kernel/task/process.c:97-121 | One writable 16-byte segment at the first heap address makes the first heap page writable and points it at the second heap block. |
| ProcessConfine.EntryAfterLoad | kernel/task/process.c:124-147 | The entry of every page after loading: the stack's, unless loading failed or the stack is not on a page boundary or wraps; else the program's, or the old one. |
| ProcessConfine.PageConfinedAfterLoad | kernel/task/process.c:124-147 | After loading, a page outside the heap's shows a run the process holds, or is not writable, exactly when that is so of what maps it last. |
| ProcessConfine.LoadKeepsSealedExactlyWhen | kernel/task/process.c:124-147 | Loading keeps every frame the process can write in its own allocations, program and stack exactly when heap pages stay right and every other page is so confined. |
| ProcessConfine.ElfKeepsSealedExactlyWhen | kernel/task/process.c:97-121 | For segments that lie apart, away from heap and stack pages: exactly when every frame from base to end of every writable segment lies in a run the process holds. |
| ProcessConfine.FileKeepsSealedExactlyWhen | kernel/task/process.c:97-121 | For such segments that start in the file's run, behind which the process holds nothing: exactly when no writable segment ends behind that run. |
| ProcessConfine.BinaryKeepsSealedExactlyWhen | kernel/task/process.c:88-94 | A flat program as long as its run: exactly when it ends below the heap. |
| ProcessConfine.OverrunExample | kernel/task/process.c:107-116 | A file of one block with a writable segment of two: the page structures in the next block become writable, though every heap page stays right. |
| ProcessRuns.StepKeeps | kernel/task/process.c:124-426 | Every legal operation of processes and kernel keeps the whole invariant. |
| ProcessRuns.EveryRunIsIsolated | kernel/task/process.c:124-426 | After any legal run heap pages are identity-mapped, usable and writable exactly where the process owns the block; and no frame can be written by two processes through whatever pages, nor any that is free, holds page structures or is the kernel's. |
| MemoryImage.OneProcessChanges | kernel/memory/paging.c:79-118 | When one process's pages change, in memory as in the state, memory still realises the state, and only frames of that process's page structures have changed. |
| MemoryImage.UnprotectedChange | kernel/memory/paging.c:120-134 | Changes outside the blocks that hold page structures change no page of any process. |
| MemoryImage.UserStoreIsContained | kernel/task/process.c:88-147 | A store which the processor does not refuse lands in a frame that this process alone can write and that is no part of the kernel, changes no page of any process and no other frame; through a heap page it lands at the address it names. |
| MemoryImage.AccessIs | kernel/task/process.c:88-147 | Where the processor takes a process's reads and writes, through the directory in memory, is where its page entries say, and a fault exactly when they forbid it. |
| MemoryImage.HeapPageIsWritableExactlyWhen | kernel/task/process.c:236-299 | By both levels in memory, a process may write the page of a heap block exactly when the block lies in one of its live allocations. |
| MemoryImage.MemoryIsIsolated | kernel/task/process.c:88-299 | Writes of two processes that the processor would take to the same frame, through whatever addresses, are of one process; the frame is its alone and no part of the kernel. |
| ProcessSteps.MallocIsConsistent | kernel/task/process.c:236-256 | Memory realises the state after an allocation, and only frames of the process's page structures have changed. |
| ProcessSteps.FreeIsConsistent | kernel/task/process.c:288-299 | The same for a free. |
| ProcessSteps.LoadIsConsistentExactlyWhen | kernel/task/process.c:124-147 | Memory realises the state after a program is loaded, exactly when the program leaves the heap pages alone; only the process's page structures change. |
| MemoryImage.SpawnIsConsistent | kernel/memory/paging.c:9-27 | A directory from paging_new realises a new process, disturbs no other, and loses nobody's data. |
| Process.Process.FindFreeAlloc | kernel/task/process.c:227-234 | The lowest unused slot, or -ENOMEM. |
| Process.Process.GetAllocation | kernel/task/process.c:279-286 | The lowest slot with that address, or none. |
| Process.Process.AllocationDrop | kernel/task/process.c:269-276 | Exactly the slots holding the pointer are cleared. |
| Process.Kernel.ProcessMalloc | kernel/task/process.c:236-256 | On the kernel's data: the abstract allocation and its result, the invariant kept, and no data of anybody lost. Every byte handed out is 0, and the processor takes the process's writes to it to that very byte. |
| Process.Kernel.ProcessFree | kernel/task/process.c:288-299 | On the kernel's data: the abstract free, the invariant kept; memory changes in the process's own page structures only. A null pointer with some slot unused clears bytes before the heap table, and never the table; otherwise those bytes stay. |
| Process.Kernel.Spawn | kernel/task/task.c:49-67 | A new process with an empty allocation table, its directory in 1026 blocks that were free, through which the processor reads every address at itself and writes none; nothing else changed, no data of anybody lost. |
| Process.Kernel.FreeAllocations | kernel/task/process.c:347-352 | The loop over all slots, unused ones included, is the abstract freeing of everything the process holds; memory changes in its own page structures only. |
| Process.Kernel.KernelMalloc | kernel/memory/kheap.c:21-23 | The kernel's own allocation: the abstract one and its address, everything else in order. |
| Process.Kernel.KernelZalloc | kernel/memory/kheap.c:25-32 | The same; every byte of the block is 0 and every other byte of memory as before; no data of anybody lost. |
| Process.Kernel.KernelFree | kernel/memory/kheap.c:34-36 | The kernel's own free of a run that no process has any part in: the abstract one, everything else in order. |
| Process.Kernel.LoadProgram | kernel/task/process.c:124-147 | -EINVARG exactly when some header's range wraps, else 0, and all entries are those of the specification; the data stay in order exactly when the program leaves the heap pages alone and stays inside the runs the process holds; memory changes in the process's own page structures only. |
| Process.Kernel.Hold | kernel/task/process.c:72-74 | Keeping a run of the kernel as a process's program or stack is the abstract step. |
| Process.Kernel.UserStore | kernel/task/process.c:88-147 | A write which the processor does not refuse changes the one word at the place its walk ends, in a frame that no other process can write and that is no part of the kernel. |
| Process.Kernel.CopyStrFromTask | kernel/task/task.c:139-162 | Every status; a string in the process's own memory, in pages that are present, arrives cut to max - 1 characters; everybody's data elsewhere stay; after success exactly one more block is taken, the kernel's and in nobody's use. |
| ProcessSteps.OwnIsUndisturbed | kernel/task/task.c:143-152 | A string in the process's own memory is disturbed neither by the buffer's allocation nor by the borrowed page. |
| ProcessSteps.NullFreeStops | kernel/memory/heap.c:109-142 | A null free that stops before the table leaves the table alone, and so does the next. |
| Process.Kernel.TaskFree | kernel/task/task.c:41-46 | A process that owns nothing leaves, and its page structures go back to the heap. |
| Process.Kernel.Exit | kernel/task/process.c:409-426 | The abstract end of a process: its allocations and page structures leave the heap, and it leaves the processes; all others are as before. |
| Process.Kernel.Terminate | kernel/task/process.c:409-426 | A process ends: exactly its allocations, page structures, program and stack leave the heap, and exactly it leaves the processes. |
| DiskIO.DiskStream.Seek | kernel/disk/disk_stream.c:17-20 | The position is set. |
| DiskIO.DiskStream.Read | kernel/disk/disk_stream.c:22-49 | Any number of bytes from any position, across any number of sectors, are the disk's bytes; the position advances by that number; exact sector ends terminate. |
| Fat16Read.FatPrivate.GetFatEntry | kernel/fs/fat16.c:279-299 | The little-endian 16-bit entry at reserved sectors plus twice the cluster number. |
| Fat16Read.FatPrivate.GetClusterOffset | kernel/fs/fat16.c:302-322 | The cluster reached after offset / cluster size links, or -EIO when a link on the way is in the stop set. |
| Fat16Read.Volume.WalkOneMore | kernel/fs/fat16.c:302-322 | Walking one link further is walking, then following one link. |
| Fat16Read.Volume.DataAreaByte | kernel/fs/fat16.c:330-332 | Byte q of the data area is byte q mod cluster size of cluster 2 + q / cluster size, for every volume. |
| Fat16Read.Volume.FileAddrIs | kernel/fs/fat16.c:330-347 | The place of a file's byte in the data area, by the chain and counted in bytes, is the code's position of its cluster and the offset in it. |
| Fat16Read.FatPrivate.ReadInternalStream | kernel/fs/fat16.c:335-365 | Exactly the specified bytes are stored, or -EIO; nothing outside the target range is written. |
| Fat16Read.FatPrivate.Read | kernel/fs/fat16.c:498-513 | The blocks of a read are the specified ones in order, or -EIO. |
| Fat16Read.ReadFailsExactlyWhen | kernel/fs/fat16.c:302-365 | A read fails exactly when the chain stops before the last cluster it looks up. |
| Fat16Read.StopSetsAgreeExactlyWhen | kernel/fs/fat16.c:310-318 | The code's stop test and the FAT16 one agree on an entry exactly when it is a cluster number or 0, and none of the five the code refuses. |
| Fat16Read.WalkIsStandardExactlyWhen | kernel/fs/fat16.c:302-322 | The walk agrees with the standard's for the first n links exactly when the two tests agree on every link visited. |
| Fat16Read.StopSetExamples | kernel/fs/fat16.c:310-318 | A link 0xFFFF is followed although it ends the file; a link to cluster 4088 is refused although it does not. |
| Fat16Read.ReadFailsAsTheStandardSays | kernel/fs/fat16.c:302-365 | While the links agree, a read fails exactly when the file ends, by the standard, before the last cluster it needs. |
| Fat16Read.ReadBytes | kernel/fs/fat16.c:335-365 | Byte k of a successful read is the disk byte at the address the recursion computes for it. |
| Fat16Read.FlatExactlyWhen | kernel/fs/fat16.c:335-365 | Every byte comes from its place in the file exactly when the read starts on a cluster boundary or every boundary inside it lies between clusters adjacent on disk. |
| Fat16Read.FlatCopy | kernel/fs/fat16.c:335-365 | Under that condition the output is the range of the file: its byte q is the byte q mod cluster size of the data area's cluster that q / cluster size links lead to. |
| Fat16Read.UnalignedReadWrongExample | kernel/fs/fat16.c:344-350 | On a volume whose file occupies clusters 2 and 4, 512 bytes read from offset 1 end with a byte of cluster 3. |
| Fat16Read.TwoSectorExample | kernel/fs/fat16.c:330-347 | With two sectors per cluster, a file in cluster 3 is read from the third sector of the data area. |
| Fat16Read.BlocksAreFileRange | kernel/fs/fat16.c:498-513 | Blocks that are flat one by one are together one range of the file. |
| Fat16Read.AlignedBlocksFlat | kernel/fs/fat16.c:498-513 | From a cluster boundary, whole clusters, or a single block of any size, are always flat. |
| Fat16Layout.ClustersAreStandardExactlyWhen | kernel/fs/fat16.c:167-200 | The position of a cluster is the one of the FAT specification exactly when the root directory fills whole sectors. |
| Fat16Layout.TableIsStandard | kernel/fs/fat16.c:279-299 | The table entry of a cluster is read where the FAT specification has it. |
| Fat16Layout.EnkiVolume | kernel/boot/boot.asm:10-28 | On Enki's own volume the data area begins at sector 716, and cluster 3 at sector 844. |
| Fat16Layout.FatReadsBack | kernel/fs/fat16.c:279-299 | On a volume with any reserved sectors, every entry written to the table reads back. |
| Fat16Layout.ClusterReadsBack | kernel/fs/fat16.c:330-347 | Every byte written to a cluster is at the cluster's position, when the root directory fills whole sectors. |
| Fat16Layout.WalkIsChain | kernel/fs/fat16.c:302-322 | The walk on the disk follows the chain written to the table. |
| Fat16Layout.ReadsBackWhatWasWritten | kernel/fs/fat16.c:335-365 | From such a volume a flat read delivers, byte by byte, the clusters as they were written, in the order of the chain. |
| Fat16Dir.FmtStr | kernel/fs/fat16.c:237-246 | The field up to its first blank or NUL, terminated; nothing else is written. |
| Fat16Dir.FileNameResolve | kernel/fs/fat16.c:249-258 | The buffer holds name, and dot and extension when there is one, zero-padded. |
| Fat16Dir.ResolveRoundTrip | kernel/fs/fat16.c:249-258 | From the resolved name of a canonical entry, padded and without a dot in the name field, the fields are recovered. |
| Fat16Dir.ResolveRoundTripExactlyWhen | kernel/fs/fat16.c:249-258 | The fields are recovered from the resolved name exactly when both are padded with blanks and the name field has no dot before its padding. |
| Fat16Dir.ResolveInjective | kernel/fs/fat16.c:249-258 | Canonical entries resolve to the same name exactly when they are the same, whatever their extensions hold. |
| Fat16Dir.CollidesExactlyWhen | kernel/fs/fat16.c:249-258 | Another padded entry resolves to the same name exactly when that name can be cut in another place: at its end, or at a dot with one to three characters behind it. |
| Fat16Dir.ResolveNotInjectiveExample | kernel/fs/fat16.c:249-258 | The name "A.B" and the name "A" with extension "B" resolve alike. |
| Fat16Dir.FindItemInDir | kernel/fs/fat16.c:444-456 | The last entry whose name equals the wanted one but for the case of letters, or none when there is no such entry. |
| Fat16Dir.FoundIsUnique | kernel/fs/fat16.c:444-456 | With names distinct up to case, the search finds an entry exactly when that entry matches. |
| Fat16Dir.MatchExample | kernel/fs/fat16.c:444-456 | The entry HELLO TXT has the names hello.txt and HELLO.TXT, and not hello_txt. |
| Fat16Dir.GetDirItems | kernel/fs/fat16.c:141-165 | The number of live entries before the end marker. |
| Fat16Dir.LookupSeesEveryEntryExactlyWhen | kernel/fs/fat16.c:154-163 | That many leading entries include every live one exactly when no deleted entry precedes a live one. |
| Fat16Dir.GetRoot | kernel/fs/fat16.c:167-201 | The entries are the bytes of the root directory on disk; the number lookup considers is that of the live ones up to the end marker, wherever that lies; and the sector in which the directory ends. |
| Fat16Dir.ItemsReadBack | kernel/fs/fat16.c:190-194 | Entries written one behind the other, each with its eight and its three characters and the rest, read back as names and extensions. |
| Fat16Dir.OverrunExactlyWhen | kernel/fs/fat16.c:154-176 | More entries are counted than the directory has exactly when the end marker lies behind it and more of what lies between looks live than entries of the directory are deleted. |
| Fat16Dir.DeletedDiffers | kernel/fs/fat16.c:444-456 | A deleted entry never matches the name of a live one. |
| Fat16Dir.LookupInRoot | kernel/fs/fat16.c:141-201 | From disk to answer: with live names distinct up to case, a live name is found, at its entry, exactly when that entry's index is below the number counted and nothing read behind the buffer has the name too. |
| Path.PartsUndoJoinExactlyWhen | kernel/fs/path.c:32-67 | Parts joined by slashes come back exactly when none is empty. |
| Path.ParseUndoesPrintExactlyWhen | kernel/fs/path.c:80-108 | Parsing "d:/" and the joined parts yields d and those parts exactly when none is empty and the text has at most 108 characters. |
| Path.ParsesExactlyWhen | kernel/fs/path.c:80-108 | A path parses exactly when it has at most 108 characters and begins with some printed drive; its parts are those of what follows. |
| Path.GetPart | kernel/fs/path.c:32-50 | The text up to the next slash, zero-padded, or null when empty; the cursor moves past one slash. |
| Path.ParsePart | kernel/fs/path.c:53-67 | A new node for the next part, linked behind the last one; none when the part is empty. |
| Path.ParsePath | kernel/fs/path.c:80-108 | The list of nodes holds the drive and exactly the parts of the path; null exactly for invalid or too long paths. Parsing always ends. |
| CString.Strncpy | libc/string/string.c:121-131 | The copy is the string cut to n - 1 characters, none if n is not positive, always terminated. |
| CString.ToLowerEqualExactlyWhen | libc/string/string.c:211-216 | Two characters have the same lower case exactly when they are equal or one is an upper-case letter, 65 to 90, and the other that plus 32. |
| CString.SameNameJoins | libc/string/string.c:7-15 | Being the same but for case is an equivalence. |
| CString.IStrnCmp | libc/string/string.c:7-15 | 0 exactly when each of the n characters equals its partner or is the same letter in the other case; otherwise the difference at the first that does not. |
| CString.PaddedCompare | libc/string/string.c:7-15 | Comparing two zero-padded buffers over their length gives 0 exactly when the strings have the same length and, but for the case of letters, the same characters. |
| StringTokens.TokensAreTokens | libc/string/string.c:162-205 | Every token is non-empty and free of delimiters. |
| StringTokens.TokensAreMaximalRuns | libc/string/string.c:162-205 | The tokens are the texts of spans that are maximal runs without delimiters, each ending before the next begins, and every other character is a delimiter. |
| StringTokens.TokensKeepEverythingElse | libc/string/string.c:162-205 | The tokens in order are the text without its delimiters: nothing else is lost or moved. |
| StringTokens.TokensUndoJoin | libc/string/string.c:162-205 | Any list of tokens, each followed by a delimiter, comes back with the same boundaries. |
| StringTokens.StrTok.Next | libc/string/string.c:162-205 | One call delivers the first token of what the cursor still holds, or of the argument when the cursor is null, and leaves the rest; at the end the cursor is null. |
| CommandLine.ParseCmd | libc/enki/enki.c:4-39 | The list holds the tokens in order, each cut to 511 characters, as many as could be allocated; the cursor is null again exactly when all could. |
| CommandLine.CountArgs | kernel/task/process.c:307-316 | The length of the list. |
| CommandLine.InjectArgs | kernel/task/process.c:318-344 | argc and argv are the list's strings in order; -EIO for an empty list, -ENOMEM when an allocation fails, both leaving the process's arguments alone. |
| CommandLine.SystemRun | libc/enki/enki.c:72-81 | From the typed text to argc and argv: the tokens in order, each cut to 511 characters, as many as could be allocated; every status, the failing ones leaving the arguments alone; and exactly when strtok is ready again. |
| RoundRobin.AdvanceReaches | kernel/task/task.c:19-24 | Within one round position j is reached after exactly its distance. |
| RoundRobin.TurnsAreInOrder | kernel/task/task.c:19-24 | k steps from position i on it is the turn of position i + k, counted round. |
| RoundRobin.RoundRunsEveryTaskOnce | kernel/task/task.c:19-24 | In n steps each of n tasks runs exactly once, ending with the one that started. |
| RoundRobin.EveryTaskGetsItsTurn | kernel/task/task.c:69-94 | In any interleaving of creations and ticks a task has run once the ticks exceed its distance plus the creations. |
| Scheduler.Scheduler.TaskNew | kernel/task/task.c:69-88 | The task becomes the last of a properly doubly linked list, and the running task stays, or is the new one when the list was empty; if it cannot be allocated or initialised the result is null and the list is unchanged. |
| Scheduler.Scheduler.GetNext | kernel/task/task.c:19-24 | The next task of the list, from the last back to the first. |
| Scheduler.Scheduler.SwitchNext | kernel/task/task.c:178-185 | The next task runs. |
| Scheduler.Scheduler.ListRemove | kernel/task/task.c:27-39 | Following next always gives the remaining tasks; back links, tail and current task are right exactly in the cases stated; the list is proper exactly after removing a tail that is neither head nor running. |
| Scheduler.Scheduler.Run | kernel/task/task.c:69-94 | Any run of creations and ticks gives the processor to the tasks the trace names. |
| TaskCopy.TaskViewExactlyWhen | kernel/task/task.c:151-154 | While the string is copied, an address shows what the task sees exactly when it is outside the borrowed page, or the task had that frame there. |
| TaskCopy.BorrowAndReturn | kernel/task/task.c:148-160 | Saving, replacing and restoring the entry leaves every page and every frame but the buffer's as before. |
| TaskCopy.CopyStrFromTask | kernel/task/task.c:139-162 | The string the process sees arrives, unless it leads through the borrowed page, the buffer or the changed page table; the task's directory is unchanged afterwards, and during the copy differs in the buffer's page only, which is writable then; -EINVARG and -ENOMEM change nothing. |
| TaskCopy.CopyIn | libc/string/string.c:121-131 | Copying through a directory leaves a terminated string in the buffer, the one shown unless that leads through the buffer. |
| TaskCopy.BorrowedShowsTheSame | kernel/task/task.c:148-152 | An undisturbed string looks the same through the borrowed directory. |
| MemoryBytes.CopyString | libc/string/string.c:121-131 | Copying a string that fits stores exactly it and its NUL, inside the target bytes. |
| Memory.WithByteIs | libc/string/string.c:121-131 | Storing a byte of a word changes that byte and no other. |
| Elf.BaseBelongsToASegment | kernel/elf/elf_loader.c:82-86 | The base addresses are those of one loadable segment, the last with that address. |
| Elf.EndBelongsToASegment | kernel/elf/elf_loader.c:88-92 | The end addresses are those of one loadable segment, and none ends higher in 32-bit arithmetic. |
| Elf.ZeroBaseExactlyWhen | kernel/elf/elf_loader.c:83-84 | The base is 0 exactly when the last loadable segment lies at 0. |
| Elf.BaseIsLowestExactlyWhen | kernel/elf/elf_loader.c:82-115 | The base is the lowest segment address exactly when no segment lies at 0 or the last one does. |
| Elf.EndIsHighestExactlyWhen | kernel/elf/elf_loader.c:82-115 | The end is the highest segment end exactly when no segment overflows 32 bits. |
| Elf.ForgottenSegmentExample | kernel/elf/elf_loader.c:83-84 | With segments at 0 and 4096 the base is 4096. |
| Elf.ElfFile.ProcessPtLoad | kernel/elf/elf_loader.c:82-94 | One loadable header updates the four bounds as specified. |
| Elf.ElfFile.ProcessHeaders | kernel/elf/elf_loader.c:103-115 | Which segments the four bounds belong to, and exactly when they are the lowest and the highest; all 0 without a loadable segment. |
| ElfMap.LoadingFailsExactlyWhen | kernel/task/process.c:97-121 | Mapping fails exactly when some header's range wraps. |
| ElfMap.LoadStatus | kernel/task/process.c:124-147 | Loading a program returns -EINVARG exactly when some header's range wraps, and else 0. |
| ElfMap.SegmentReadsExactlyWhen | kernel/task/process.c:111-116 | Just mapped, a segment reads byte by byte from elf_memory + p_offset exactly when it is empty or offset and address agree modulo 4096. |
| ElfMap.LaterSegmentsKeep | kernel/task/process.c:104-120 | Headers that do not touch a page leave its entry alone. |
| ElfMap.SetterIsLast | kernel/task/process.c:104-120 | The header that sets a page is the last one mapped whose range includes it. |
| ElfMap.EntryIsTheSetters | kernel/task/process.c:104-120 | After all headers every page has the entry that header gives it, or its old one. |
| ElfMap.SegmentEntryFields | kernel/task/process.c:107-116 | That entry maps the page to itself exactly when the segment's physical and virtual pages are the same, and is writable exactly when bit 1 of p_flags is set. |
| ElfMap.WantsWriteableIsMask | kernel/task/process.c:107 | The test of the flags is the mask with 2, for every flags word. |
| ElfMap.FlagsExample | kernel/task/process.c:107 | A readable and writable segment gets page flags 7, a readable and executable one 5. |
| ElfMap.TouchesExactlyWhen | kernel/task/process.c:111-116 | A page is mapped for a segment exactly when some byte of it belongs there, and then shows that byte's frame; an empty segment inside a page counts as a byte. |
| ElfMap.LoadedSegmentReadsExactlyWhen | kernel/task/process.c:97-121 | The same after all headers, for a segment no later header maps again; and then its pages are writable exactly when bit 1 of p_flags is set. |
| ElfMap.StackIsMapped | kernel/task/process.c:143-145 | The 16 KiB below 0x3FF000 translate to the stack, writable, and no other page changes. |
| ElfMap.StackTouchesOnlyItsPages | kernel/task/process.c:143-145 | Wherever the stack is, mapping it changes no page but the four below 0x3FF000. |
| ElfMap.BinaryIsMapped | kernel/task/process.c:88-147 | A flat program is found byte by byte at 0x400000, and its stack stays mapped with it. |
| ElfMap.BinaryTouchesExactlyWhen | kernel/task/process.c:88-94 | A page is mapped for a flat program exactly when some byte of it belongs there, and then shows that byte's frame. |
| ElfMap.OnlyTheProgramIsMapped | kernel/task/process.c:124-147 | Pages of neither a segment nor the stack keep their entries. |
| ElfMap.OnlyPagesCompose | kernel/memory/paging.c:92-101 | Two mappings in a row touch only the directory's tables. |
| ElfMap.MapElf | kernel/task/process.c:97-121 | The loop over the headers has the specified status and entries, and writes only the directory's tables. |
| ElfMap.MapProcess | kernel/task/process.c:124-147 | The same for the whole program with its stack. |
| Keyboard.SlotSurvivesWrap | kernel/drivers/keyboard/keyboard.c:29-31 | Buffer positions are unaffected by the counters wrapping at 2^32. |
| Keyboard.HoldsOneQueue | kernel/drivers/keyboard/keyboard.c:39-63 | A ring determines the keys outstanding. |
| Keyboard.KeysArriveInOrder | kernel/drivers/keyboard/keyboard.c:33-63 | Over every run that fits, the keys delivered followed by those outstanding are what was typed, backspaces applied; reading never disturbs typing. |
| Keyboard.TypedIsPushed | kernel/drivers/keyboard/keyboard.c:39-47 | Without backspaces, what was typed is the keys pushed, in order. |
| Keyboard.BackspaceCancels | kernel/drivers/keyboard/keyboard.c:33-47 | A key and a backspace leave the line as it was. |
| Keyboard.DeliveredIsPushed | kernel/drivers/keyboard/keyboard.c:39-63 | Without backspaces, the keys delivered and then those outstanding are the keys pushed, in order. |
| Keyboard.KeyboardBuffer.Backspace | kernel/drivers/keyboard/keyboard.c:33-37 | The newest key is taken back; the ring is still a queue exactly when there was one to take. |
| Keyboard.KeyboardBuffer.Push | kernel/drivers/keyboard/keyboard.c:39-47 | A non-zero key becomes the newest; the ring is still a queue exactly when the key was 0 or fewer than 1024 were outstanding. |
| Keyboard.KeyboardBuffer.Pop | kernel/drivers/keyboard/keyboard.c:49-63 | The oldest key, or 0 exactly when none is outstanding. |
| Keyboard.KeyboardBuffer.Run | kernel/drivers/keyboard/keyboard.c:33-63 | Any run that fits leaves the specified queue and delivers the specified keys. |
| Itoa.TextReadsBack | libc/stdlib/stdlib.c:11-34 | The printed text is canonical and reads back as the number. |
| Itoa.CanonicalTextIsUnique | libc/stdlib/stdlib.c:11-34 | A number has only one canonical text, the printed one. |
| Itoa.TextExample | libc/stdlib/stdlib.c:11-34 | -2048 prints as those five characters, 0 as one. |
| Itoa.Print | libc/stdlib/stdlib.c:11-34 | For every 32-bit integer, the minimum included, the text is written inside the 12-byte buffer, terminated, and starts at the returned index. |
| Gdt.DecodeUndoesEncodeExactlyWhen | kernel/kernel/gdt.c:5-25 | The processor reads back base, limit and type exactly when the encoder does not panic. |
| Gdt.LimitExpands | kernel/kernel/gdt.c:6-17 | The stored limit expands to the requested one exactly when the encoder does not panic; the descriptor is a 32-bit one. |
| Gdt.EncodeExample | kernel/kernel/gdt.c:5-25 | The bytes of three descriptors, as the processor's format has them. |
| Gdt.RefusedThoughRepresentable | kernel/kernel/gdt.c:6-8 | Of the refused limits, exactly those up to 0xFFFFF have a descriptor. |
| Gdt.EncodeGdtEntry | kernel/kernel/gdt.c:5-25 | A panic comes before any write; otherwise the eight bytes are the descriptor and no other byte changes. |
| Gdt.GdtUnstructure | kernel/kernel/gdt.c:27-31 | Unless some limit makes it panic, every entry decodes to what was asked for, and the table beyond is untouched. |

## Left out

- Port and disk I/O, interrupt stubs, loading CR3, the GDT and the TSS, and everything written in assembly: reading a sector is filling a buffer from the disk's bytes, and a panic is a returned flag.
- Terminal, cursor, PS/2 scan codes, shell, sample programs, printf, the file-descriptor, system-call and interrupt tables: plumbing that would add only easy members.
- Allocations the source does not check (the blocks of `paging_new`, path parts) are taken to succeed; `PageDirectory.PagingNew` says how many free blocks that needs. Of those it checks, the failure is modelled in the memory functions, the command line and `task_new`, not in the file system.
- ProcessMemory.MallocKeepsInv, ProcessBlocks.KernelMallocKeeps, Process.Kernel.ProcessMalloc, Process.Kernel.KernelMalloc, Process.Kernel.KernelZalloc: requests of 1 to 0xFFFFF000 bytes which the search answers rightly (`Memory.Serviceable`); for the others `ProcessMemory.MallocKeepsInvExactlyWhen` says when the invariant survives.
- Memory.Kzalloc: requests for which clearing would run over the end of memory, as above 0xFFFFF000 bytes, are excluded.
- ProcessMemory.MallocAny: what an answer that is too short tags behind the table, and the clearing of memory by `kzalloc`.
- Process.Kernel.constructor: the memory before the heap table is taken to hold the boot record, which lies there when the kernel starts.
- Process.Kernel.Exit, Process.Kernel.Terminate: the source frees program data and stack before the page structures, not after; task and process structure and the ELF loader's own records are freed with `Process.Kernel.KernelFree`. Processes are numbered by position among those that live, not by slot.
- Process.Kernel.Spawn: reading the program file and allocating its data and stack are the kernel's own allocations (`Process.Kernel.KernelZalloc`), handed over by `Process.Kernel.Hold`; `Process.Kernel.LoadProgram` then maps them.
- Heap.Heap.FreeAddr, Memory.Kfree: addresses for which no memory before the table is modelled are excluded.
- Fat16Read.FatPrivate.Read: clusters whose disk position is negative or does not fit the source's `int` are excluded; the source does not advance the descriptor's position, and neither does the model.
- DiskIO.DiskStream.Read: positions from 2 GiB on are excluded; a failing sector read is not modelled.
- Subdirectories: `fat16_load_fat_dir` returns early when its allocation succeeds, so only lookup in one directory is modelled.
- Fat16Dir.GetDirItems, Fat16Dir.GetRoot, Fat16Dir.LookupInRoot: some end marker is taken to follow within the first 2 GiB of the disk; what lookup reads behind its buffer is a parameter.
- CommandLine.SystemRun: loading the program is a parameter, its result; the path built from the program's name is left out.
- Memory.Memset0: memset is modelled for value 0, as the allocator uses it.
- Paging.Map, Paging.MapRange, Paging.MapToRange: flags of 4096 and above, which would change the frame, and overlapping tables are excluded.
- Heap.Heap.GetStartBlock: the block count is a natural number, as every caller's is.
- strspn and strcspn, whose loops do not advance.
- CommandLine.ParseCmd, Path.ParsePart: the character array inside a node is a value of the node object, not an array of its own.
- Memory is an array of 32-bit words; bytes appear only where strings and files are concerned.
- Process.Kernel.CopyStrFromTask: the string goes to kernel memory below the heap, as both callers have it; a string that leads out of the process's own memory is the subject of `TaskCopy.CopyStrFromTask`. What the kernel does after a fault, on a page that is not present, is left out.
- Scheduler.Scheduler.TaskSwitch: loading the task's page directory is left out; making and freeing a directory are `PageDirectory.PagingNew` and `PageDirectory.PagingFree`.
- Keyboard counters are signed integers in the source; they are taken to wrap like unsigned ones.
- ElfMap.MapElf: the program headers are values, read once; validation of the ELF header is left out.
- Elf.ElfFile.ProcessHeaders: the addresses are compared as the unsigned words they are.
