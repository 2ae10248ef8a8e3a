/** The kernel's memory operations on its real data: the heap table, physical memory holding every process's page
    tables, and the per-process allocation arrays. */
module Process {
  import opened Machine
  import opened Heap
  import opened HeapRuns
  import opened Memory
  import opened MemoryBytes
  import opened Paging
  import opened PageDirectory
  import opened ElfMap
  import opened ProcessMemory
  import opened ProcessBlocks
  import opened ProcessHeld
  import opened ProcessLoad
  import opened ProcessConfine
  import opened MemoryImage
  import opened ProcessSteps
  import TaskCopy
  import ProcessRuns

  /** The part of `struct process` that memory management uses: the task's page directory and the
      allocation array. */
  class Process {
    const pageDir: uint32
    const allocations: array<Allocation>
    ghost const blocks: seq<nat>

    constructor (pageDir: uint32, allocations: array<Allocation>, ghost blocks: seq<nat>)
      ensures this.pageDir == pageDir && this.allocations == allocations && this.blocks == blocks
    {
      this.pageDir := pageDir;
      this.allocations := allocations;
      this.blocks := blocks;
    }

    /** `dir->entries` of the task's page directory. */
    method Entries(mem: array<uint32>) returns (dir: uint32)
      requires mem.Length == WORDS && Structures(mem[..], blocks) && pageDir == BlockAddr(blocks[BLOCKS - 1])
      ensures dir == DirFrame(blocks) * PAGE_SIZE && dir % PAGE_SIZE == 0 && dir / PAGE_SIZE == DirFrame(blocks)
    {
      hide Linked;
      PageAlignedWord(pageDir);
      dir := mem[pageDir / 4];
    }

    /** `process_find_free_alloc`. */
    method FindFreeAlloc() returns (idx: int)
      requires allocations.Length == MAX_ALLOCATIONS
      ensures idx == if FindSlot(allocations[..], 0, 0) == -1 then -ENOMEM else FindSlot(allocations[..], 0, 0)
    {
      for i := 0 to MAX_ALLOCATIONS
        invariant FindSlot(allocations[..], 0, 0) == FindSlot(allocations[..], 0, i)
      {
        if allocations[i].ptr == 0 {
          return i;
        }
      }
      idx := -ENOMEM;
    }

    /** `process_get_allocation`, as a slot or -1. */
    method GetAllocation(addr: uint32) returns (idx: int)
      requires allocations.Length == MAX_ALLOCATIONS
      ensures idx == FindSlot(allocations[..], addr, 0)
    {
      for i := 0 to MAX_ALLOCATIONS
        invariant FindSlot(allocations[..], addr, 0) == FindSlot(allocations[..], addr, i)
      {
        if allocations[i].ptr == addr {
          return i;
        }
      }
      idx := -1;
    }

    /** `process_allocation_drop`. */
    method AllocationDrop(ptr: uint32)
      requires allocations.Length == MAX_ALLOCATIONS
      modifies allocations
      ensures allocations[..] == Dropped(old(allocations[..]), ptr)
    {
      for i := 0 to MAX_ALLOCATIONS
        invariant forall k :: 0 <= k < MAX_ALLOCATIONS ==>
          allocations[k] == if k < i && old(allocations[k]).ptr == ptr then Allocation(0, 0) else old(allocations[k])
      {
        if allocations[i].ptr == ptr {
          allocations[i] := Allocation(0, 0);
        }
      }
    }
  }

  class Kernel {
    const heap: Heap
    const mem: array<uint32>
    var procs: seq<Process>
    /** For each process, the first blocks of the runs that hold its program and its stack. */
    ghost var held: seq<set<nat>>

    /** At boot: an empty heap and no process. The table lies right behind the boot record, whose signature ends in
        the bytes 0x55 and 0xAA. */
    constructor (heap: Heap, mem: array<uint32>)
      requires heap.Valid() && heap.startAddr == HEAP_ADDRESS && heap.length == HEAP_BLOCKS
      requires heap.Table() == seq(HEAP_BLOCKS, _ => FREE)
      requires heap.base >= NULL_OFFSET && heap.Before()[heap.base - 2] == SIGNATURE
      requires mem.Length == WORDS && heap.entries as object != mem
      ensures Valid() && procs == [] && this.heap == heap && this.mem == mem
    {
      this.heap := heap;
      this.mem := mem;
      procs := [];
      held := [];
      new;
      ProcessRuns.BootIsSealed();
      assert !HasNext(SIGNATURE);
      assert Abstract() == State(seq(HEAP_BLOCKS, _ => FREE), []);
    }

    /** A free of a null pointer ends before the heap table. */
    ghost predicate NullFreesStop()
      reads heap.entries
    {
      heap.base >= NULL_OFFSET && heap.base <= heap.entries.Length
      && StopsBefore(heap.Before(), heap.base - NULL_OFFSET, heap.base)
    }

    /** The objects are the right sizes and do not overlap. */
    ghost predicate Wired()
      reads this
    {
      && heap.Valid() && heap.startAddr == HEAP_ADDRESS && heap.length == HEAP_BLOCKS
      && mem.Length == WORDS && heap.entries as object != mem
      && |held| == |procs|
      && (forall p :: 0 <= p < |procs| ==>
            && |procs[p].blocks| == BLOCKS && procs[p].blocks[BLOCKS - 1] < HEAP_BLOCKS
            && procs[p].pageDir == BlockAddr(procs[p].blocks[BLOCKS - 1])
            && procs[p].allocations.Length == MAX_ALLOCATIONS
            && procs[p].allocations as object != mem && procs[p].allocations as object != heap.entries)
      && (forall p, q :: 0 <= p < q < |procs| ==> procs[p].allocations != procs[q].allocations)
    }

    ghost function BlockLists(): (blocks: seq<seq<nat>>)
      reads this
    {
      var ps := procs;
      seq(|ps|, p requires 0 <= p < |ps| => ps[p].blocks)
    }

    ghost function Tables(): (tables: seq<seq<Allocation>>)
      reads this, set p <- procs :: p.allocations
    {
      var ps := procs;
      seq(|ps|, p requires 0 <= p < |ps| reads set p <- ps :: p.allocations => ps[p].allocations[..])
    }

    /** The abstract state the kernel's data stands for. */
    ghost function Abstract(): (s: State)
      requires Wired()
      reads this, heap.entries, mem, set p <- procs :: p.allocations
    {
      Abstraction(heap.Table(), Tables(), mem[..], BlockLists(), held)
    }

    ghost predicate Valid()
      reads this, heap.entries, mem, set p <- procs :: p.allocations
    {
      Wired() && NullFreesStop() && Sealed(Abstract()) && Consistent(Abstract(), mem[..])
    }

    /** `process_malloc`. */
    method ProcessMalloc(p: nat, size: uint32) returns (ptr: uint32)
      requires Valid() && p < |procs| && Serviceable(Abstract().table, size)
      modifies heap.entries, mem, procs[p].allocations
      ensures Valid()
      ensures (Abstract(), ptr) == Malloc(old(Abstract()), p, size)
      ensures DataKept(old(Abstract()), old(mem[..]), mem[..])
      ensures ptr != 0 ==> forall a: uint32 :: ptr <= a < ptr + size ==> ByteAt(mem[..], a) == 0
      ensures ptr != 0 ==> forall a: uint32 :: ptr <= a < ptr + size ==>
        Access(mem[..], Cr3(procs[p].blocks), a, true) == Some(a)
    {
      hide Inv, Access, Cr3, DataKept, Consistent, DirOk, OnlyPages, ByteAt, Taken, Freed, FirstFit, FindSlot, MapTo,
           Remap, Pages, Serviceable, Matches, Realised, OnlyBlocks, Sealed, StopsBefore, Abstraction, Malloc;
      ghost var s, tables, blocks, m0: Words := Abstract(), Tables(), BlockLists(), mem[..];
      ghost var n, b := BlocksFor(size), FirstFit(s.table, BlocksFor(size), 0);
      ConsistentIsWhole(s, m0);
      AbstractionMatches(heap.Table(), tables, m0, blocks, held);
      NothingChanged(s, m0);
      var proc := procs[p];
      ptr := Kzalloc(heap, mem, size);
      assert Tables() == tables;
      if ptr == 0 {
        MallocFails(s, p, size);
        return;
      }
      ghost var m1: Words := mem[..];
      MallocStart(s, m0, m1, p, size, b);
      ConsistentIsWhole(s, m1);
      AbstractionIs(s, s.table, tables, m1, blocks, held);
      var idx := proc.FindFreeAlloc();
      if idx < 0 {
        MallocFails(s, p, size);
        Withdraw(ptr, b, s);
        return 0;
      }
      Grant(p, idx, ptr, size, s);
      OnlyBlocksKeepsData(s, m0, m1, mem[..], p);
      MallocHandsOut(s, m1, mem[..], p, size);
    }

    /** The clean-up of `process_malloc` when there is no slot. */
    method Withdraw(ptr: uint32, ghost b: nat, ghost s: State)
      requires Wired() && NullFreesStop() && Sealed(s) && Consistent(s, mem[..])
      requires Abstraction(s.table, Tables(), mem[..], BlockLists(), held) == s
      requires b <= HEAP_BLOCKS && ptr == BlockAddr(b) && Freed(heap.Table(), b, HEAP_BLOCKS) == s.table
      modifies heap.entries
      ensures Valid() && Abstract() == s
    {
      hide Abstraction, Consistent, Sealed, StopsBefore, Freed;
      AddressOfBlock(heap, b);
      Kfree(heap, ptr);
    }

    /** The second half of `process_malloc`: the block is found and cleared, and there is a slot for it. */
    method Grant(p: nat, idx: nat, ptr: uint32, size: uint32, ghost s: State)
      requires Wired() && NullFreesStop() && Sealed(s) && Consistent(s, mem[..])
      requires p < |procs| == |s.procs| && Serviceable(s.table, size)
      requires var b := FirstFit(s.table, BlocksFor(size), 0);
        b != -1 && ptr == BlockAddr(b) && heap.Table() == Taken(s.table, b, BlocksFor(size))
      requires Matches(s, s.table, Tables(), BlockLists(), held) && idx == FindSlot(s.procs[p].allocs, 0, 0)
      modifies mem, procs[p].allocations
      ensures Valid() && (Abstract(), ptr) == Malloc(s, p, size)
      ensures OnlyBlocks(old(mem[..]), mem[..], HEAP_PAGE, procs[p].blocks)
    {
      hide Consistent, DirOk, OnlyPages, ByteAt, Taken, Freed, FirstFit, FindSlot, MapTo, Remap, Pages,
           Serviceable, Matches, Realised, OnlyBlocks, Structures, Sealed, StopsBefore;
      ghost var tables, blocks, m: Words := Tables(), BlockLists(), mem[..];
      GrantStart(s, tables, blocks, held, m, p, size);
      var proc := procs[p];
      assert proc.allocations[..] == tables[p] && proc.blocks == blocks[p];
      var dir := proc.Entries(mem);
      var status := MapToRange(mem, dir, ptr, ptr, AlignUp(Wrap(ptr + size)), USER_RW);
      assert status == 0;  // so the source's clean-up after a failed mapping is never taken
      proc.allocations[idx] := Allocation(ptr, size);
      MallocIsConsistent(s, m, mem[..], p, size);
      MallocKeepsSealed(s, p, size);
      MallocMatches(s, tables, blocks, held, p, size);
      ConsistentIsWhole(Malloc(s, p, size).0, mem[..]);
      assert Tables() == tables[p := tables[p][idx := Allocation(ptr, size)]];
      AbstractionIs(Malloc(s, p, size).0, heap.Table(), Tables(), mem[..], blocks, held);
    }

    /** `process_free`. Memory changes in the process's own page structures only. A null pointer matches an unused slot:
        then bytes before the heap table are cleared, and never the table. */
    method ProcessFree(p: nat, toFree: uint32)
      requires Valid() && p < |procs|
      modifies heap.entries, mem, procs[p].allocations
      ensures Valid()
      ensures Abstract() == Free(old(Abstract()), p, toFree)
      ensures OnlyBlocks(old(mem[..]), mem[..], HEAP_PAGE, procs[p].blocks)
      ensures if toFree == 0 && FindSlot(old(procs[p].allocations[..]), 0, 0) != -1
        then heap.entries[..] == Freed(old(heap.entries[..]), heap.base - NULL_OFFSET, heap.base + heap.length)
        else heap.Before() == old(heap.Before())
    {
      hide Consistent, DirOk, OnlyPages, Freed, FindSlot, MapTo, Remap, Pages, Dropped, Matches, Realised, OnlyBlocks,
           Sealed, StopsBefore;
      ghost var s, tables, blocks, m: Words := Abstract(), Tables(), BlockLists(), mem[..];
      ConsistentIsWhole(s, m);
      AbstractionMatches(heap.Table(), tables, m, blocks, held);
      OnlyBlocksNothing(m, procs[p].blocks);
      var proc := procs[p];
      var idx := proc.GetAllocation(toFree);
      if idx < 0 {
        return;  // not this process's pointer
      }
      Revoke(p, idx, toFree, s);
    }

    /** The second half of `process_free`: the pointer is the process's, or null. */
    method Revoke(p: nat, idx: nat, toFree: uint32, ghost s: State)
      requires Wired() && NullFreesStop() && Sealed(s) && Consistent(s, mem[..]) && p < |procs| == |s.procs|
      requires heap.Table() == s.table && Matches(s, s.table, Tables(), BlockLists(), held)
      requires idx == FindSlot(s.procs[p].allocs, toFree, 0)
      modifies heap.entries, mem, procs[p].allocations
      ensures Valid() && Inv(s) && Abstract() == Free(s, p, toFree)
      ensures OnlyBlocks(old(mem[..]), mem[..], HEAP_PAGE, procs[p].blocks)
      ensures if toFree == 0
        then heap.entries[..] == Freed(old(heap.entries[..]), heap.base - NULL_OFFSET, heap.base + heap.length)
        else heap.Before() == old(heap.Before())
    {
      hide Consistent, DirOk, OnlyPages, Freed, FindSlot, MapTo, Remap, Pages, Dropped, Matches, Realised, OnlyBlocks,
           Structures, IsRun, Runs, Sealed, StopsBefore, Free, Inv;
      ghost var tables, blocks, m: Words := Tables(), BlockLists(), mem[..];
      RevokeStart(s, m, p, toFree, idx);
      MatchesAt(s, tables, blocks, held, p);
      var proc := procs[p];
      assert proc.allocations[..] == tables[p] && proc.blocks == blocks[p];
      var dir := proc.Entries(mem);
      var alloc := proc.allocations[idx];
      var status := MapToRange(mem, dir, alloc.ptr, alloc.ptr, AlignUp(Wrap(alloc.ptr + alloc.size)), 0);
      assert status == 0;  // so the source's early return after a failed mapping is never taken
      proc.AllocationDrop(toFree);
      FreeRun(toFree, p, s);
      FreeIsConsistent(s, m, mem[..], p, toFree);
      FreeMatches(s, tables, blocks, held, p, toFree);
      FreeKeepsSealed(s, p, toFree);
      ghost var s' := Free(s, p, toFree);
      ConsistentIsWhole(s', mem[..]);
      assert Tables() == tables[p := Dropped(tables[p], toFree)];
      AbstractionIs(s', heap.Table(), Tables(), mem[..], blocks, held);
    }

    /** The `kfree` of `process_free`. */
    method FreeRun(toFree: uint32, ghost p: nat, ghost s: State)
      requires heap.Valid() && heap.startAddr == HEAP_ADDRESS && heap.length == HEAP_BLOCKS && NullFreesStop()
      requires Inv(s) && p < |s.procs| && FindSlot(s.procs[p].allocs, toFree, 0) != -1 && heap.Table() == s.table
      modifies heap.entries
      ensures heap.Table() == Free(s, p, toFree).table && NullFreesStop()
      ensures if toFree == 0
        then heap.entries[..] == Freed(old(heap.entries[..]), heap.base - NULL_OFFSET, heap.base + heap.length)
        else heap.Before() == old(heap.Before())
    {
      hide Freed, FindSlot, Remap, Dropped, Inv;
      ghost var e := heap.entries[..];
      assert heap.Table() == e[heap.base..heap.base + heap.length] && heap.Before() == e[..heap.base];
      if toFree == 0 {
        AddressOfNull(heap);
        NullFreeStops(e, heap.base, heap.length);
      } else {
        OwnedStart(s, p, toFree, FindSlot(s.procs[p].allocs, toFree, 0));
        AddressOfBlock(heap, BlockOf(toFree));
      }
      Kfree(heap, toFree);
      assert heap.Table() == heap.entries[..][heap.base..heap.base + heap.length];
      assert heap.Before() == heap.entries[..][..heap.base];
    }

    /** The kernel's own `kmalloc`. */
    method KernelMalloc(size: uint32) returns (addr: uint32)
      requires Valid() && Serviceable(Abstract().table, size)
      modifies heap.entries
      ensures Valid() && Abstract() == ProcessRuns.Step(old(Abstract()), ProcessRuns.KernelMalloc(size))
      ensures addr == KernelAnswer(old(Abstract()).table, size)
      ensures heap.Before() == old(heap.Before())
    {
      ghost var s, tables, blocks := Abstract(), Tables(), BlockLists();
      ConsistentIsWhole(s, mem[..]);
      AbstractionMatches(heap.Table(), tables, mem[..], blocks, held);
      KernelMallocKeeps(s, size);
      KernelMallocKeepsSealed(s, size);
      addr := Kmalloc(heap, size);
      TableMatches(s, KernelMalloced(s, size).table, tables, blocks, held);
      hide Whole, Realised, Matches, Serviceable, FirstFit, Taken, Sealed;
      AbstractionIs(KernelMalloced(s, size), heap.Table(), tables, mem[..], blocks, held);
    }

    /** The kernel's own `kzalloc`: the same, and the block is cleared. Nobody's data is touched. */
    method KernelZalloc(size: uint32) returns (addr: uint32)
      requires Valid() && Serviceable(Abstract().table, size)
      modifies heap.entries, mem
      ensures Valid() && Abstract() == ProcessRuns.Step(old(Abstract()), ProcessRuns.KernelMalloc(size))
      ensures addr == KernelAnswer(old(Abstract()).table, size)
      ensures addr != 0 ==> forall a: uint32 ::
        ByteAt(mem[..], a) == if addr <= a < addr + size then 0 else ByteAt(old(mem[..]), a)
      ensures addr == 0 ==> mem[..] == old(mem[..])
      ensures DataKept(old(Abstract()), old(mem[..]), mem[..])
      ensures heap.Before() == old(heap.Before())
    {
      hide Consistent, Whole, Realised, Matches, Serviceable, FirstFit, Taken, ByteAt, DataKept, Sealed,
           Abstraction, StopsBefore, KernelMalloced, Answered, BlocksFor, KernelAnswer;
      ghost var s, tables, blocks, m: Words := Abstract(), Tables(), BlockLists(), mem[..];
      ConsistentIsWhole(s, m);
      AbstractionMatches(heap.Table(), tables, m, blocks, held);
      KernelMallocKeepsSealed(s, size);
      KernelMallocMatches(s, tables, blocks, held, size);
      addr := Kzalloc(heap, mem, size);
      ZallocIsConsistent(s, m, heap.Table(), mem[..], size, addr);
      ConsistentIsWhole(KernelMalloced(s, size), mem[..]);
      AbstractionIs(KernelMalloced(s, size), heap.Table(), tables, mem[..], blocks, held);
    }

    /** The kernel's own `kfree`, of a run that no process has any part in. */
    method KernelFree(addr: uint32, ghost b: nat)
      requires Valid() && KernelOwns(Abstract(), b) && b < HEAP_BLOCKS && addr == BlockAddr(b)
      modifies heap.entries
      ensures Valid() && Abstract() == ProcessRuns.Step(old(Abstract()), ProcessRuns.KernelFree(b))
      ensures heap.Before() == old(heap.Before())
    {
      ghost var s, tables, blocks := Abstract(), Tables(), BlockLists();
      ConsistentIsWhole(s, mem[..]);
      AbstractionMatches(heap.Table(), tables, mem[..], blocks, held);
      KernelFreeKeeps(s, b);
      KernelFreeKeepsSealed(s, b);
      AddressOfBlock(heap, b);
      Kfree(heap, addr);
      ghost var table := Freed(s.table, b, |s.table|);
      TableMatches(s, table, tables, blocks, held);
      hide Whole, Realised, Matches, Freed, Sealed;
      AbstractionIs(s.(table := table), heap.Table(), tables, mem[..], blocks, held);
    }

    /** `copy_str_from_task`, to kernel memory below the heap. The string a process sees in its own memory, cut to max - 1
        characters, arrives; everybody's data elsewhere are as before. The source never frees its buffer, so after each
        success one more block is the kernel's and in nobody's use. */
    method CopyStrFromTask(p: nat, virt: uint32, phys: uint32, max: int) returns (status: int, ghost b: nat)
      requires Valid() && p < |procs| && -0x8000_0000 <= max
      requires max < PAGE_SIZE ==> Serviceable(Abstract().table, Wrap(max)) && phys + max <= HEAP_ADDRESS
      modifies heap.entries, mem
      ensures Valid()
      ensures status == if max >= PAGE_SIZE then -EINVARG
                        else if KernelAnswer(old(Abstract()).table, Wrap(max)) == 0 then -ENOMEM else 0
      ensures status != 0 ==> Abstract() == old(Abstract()) && mem[..] == old(mem[..])
      ensures status == 0 ==> 0 < max && OneRunMore(old(Abstract()), Abstract(), b)
      ensures status == 0 ==> DataKeptOutside(old(Abstract()), old(mem[..]), mem[..], phys, max)
      ensures status == 0 ==> Arrived(old(Abstract()), old(mem[..]), mem[..], p, virt, phys, max)
    {
      hide Consistent, Sealed, Abstraction, StopsBefore, KernelMalloced, KernelAnswer, Serviceable, Runs, FirstFit, Arrived,
           DataKept, DataKeptOutside, ByteAt;
      b := 0;
      if max >= PAGE_SIZE {
        return -EINVARG, b;
      }
      ghost var s, m0: Words := Abstract(), mem[..];
      ConsistentIsWhole(s, m0);
      AbstractionMatches(heap.Table(), Tables(), m0, BlockLists(), held);
      NegativeIsTooMuch(s.table, max);
      var tmp := KernelZalloc(Wrap(max));
      if tmp == 0 {
        KernelMallocFails(s, Wrap(max));
        return -ENOMEM, b;
      }
      CopyBuffer(s, max);
      b := FirstFit(s.table, 1, 0);
      CopyThrough(p, tmp, virt, phys, max, s, m0, b);
      status := 0;
    }

    /** The second half of `copy_str_from_task`: the buffer is allocated. */
    method CopyThrough(p: nat, tmp: uint32, virt: uint32, phys: uint32, max: nat, ghost s: State, ghost m0: Words,
                       ghost b: nat)
      requires Valid() && p < |procs| && Sealed(s) && Shape(s) && p < |s.procs| && Abstract().procs == s.procs
      requires b < HEAP_BLOCKS && IsFree(s.table[b]) && !IsKept(Abstract(), b) && tmp == BlockAddr(b)
      requires DataKept(s, m0, mem[..]) && 0 < max < PAGE_SIZE && phys + max <= HEAP_ADDRESS
      modifies mem
      ensures Valid() && Abstract() == old(Abstract())
      ensures DataKeptOutside(s, m0, mem[..], phys, max) && Arrived(s, m0, mem[..], p, virt, phys, max)
    {
      hide Consistent, Sealed, Abstraction, StopsBefore, Runs, Pages, Structures, DirOk, SameFrame, InFrames, HoldsString,
           StringShown, DataKept, OwnString, Matches, HoldsData, DataKeptOutside;
      ghost var s1, m1: Words := Abstract(), mem[..];
      ConsistentIsWhole(s1, m1);
      AbstractionMatches(heap.Table(), Tables(), m1, BlockLists(), held);
      MatchesAt(s1, Tables(), BlockLists(), held, p);
      CopyStart(s1, m1, p, b, phys, max);
      DirectoryOf(s1, m1, p);
      var dir := procs[p].Entries(mem);
      var status;
      ghost var during, t;
      status, during, t := TaskCopy.CopyStrFromTask(mem, dir, tmp, virt, phys, max);
      CopyIsConsistent(s1, m1, mem[..], b, phys, max);
      CopyKeepsData(s, m0, m1, mem[..], b, phys, max);
      if OwnString(s, m0, p, virt, max - 1) {
        OwnIsUndisturbed(s, m0, m1, p, b, virt, max - 1);
      }
      ConsistentIsWhole(s1, mem[..]);
      AbstractionIs(s1, heap.Table(), Tables(), mem[..], BlockLists(), held);
    }

    /** A new process as far as `task_init` makes it: nothing allocated, and the directory `paging_new` builds in the
        1026 free blocks bs. */
    method Spawn() returns (proc: Process, ghost bs: seq<nat>)
      requires Valid() && FreeCount(heap.Table()) >= BLOCKS
      modifies this, heap.entries, mem
      ensures Valid() && procs == old(procs) + [proc] && proc.blocks == bs
      ensures Available(old(Abstract()), bs)
      ensures Abstract() == ProcessRuns.Step(old(Abstract()), ProcessRuns.Spawn(bs))
      ensures DataKept(old(Abstract()), old(mem[..]), mem[..])
      ensures forall a: uint32 ::
        Access(mem[..], Cr3(bs), a, false) == Some(a) && Access(mem[..], Cr3(bs), a, true) == None
    {
      hide Inv, Access, Cr3, Consistent, OnlyBlocks, SinglesTaken, Pages, FreeCount, Built, DataKept, Available, Spawned,
           Realised, Sealed, Abstraction, StopsBefore, Matches, NewProc;
      ghost var s, tables, blocks, m: Words := Abstract(), Tables(), BlockLists(), mem[..];
      ConsistentIsWhole(s, m);
      AbstractionMatches(heap.Table(), tables, m, blocks, held);
      var pageDir;
      pageDir, bs := PagingNew(heap, mem, USER_RO);
      SpawnedBlocks(s, heap.Table(), bs);
      SpawnIsConsistent(s, m, mem[..], bs);
      SpawnKeepsSealed(s, bs);
      ConsistentIsWhole(Spawned(s, bs), mem[..]);
      SpawnMatches(s, tables, blocks, held, bs);
      NewProcessAccess(Spawned(s, bs), mem[..], |s.procs|, bs) by { SpawnedLast(s, bs); }
      proc := Enter(pageDir, bs);
      AbstractionIs(Spawned(s, bs), heap.Table(), Tables(), mem[..], BlockLists(), held);
    }

    /** The new process takes its place, with nothing allocated and nothing held. */
    method Enter(pageDir: uint32, ghost bs: seq<nat>) returns (proc: Process)
      requires Wired() && |bs| == BLOCKS && bs[BLOCKS - 1] < HEAP_BLOCKS && pageDir == BlockAddr(bs[BLOCKS - 1])
      modifies this
      ensures Wired() && procs == old(procs) + [proc] && proc.blocks == bs
      ensures Tables() == old(Tables()) + [NewProc(bs).allocs]
      ensures BlockLists() == old(BlockLists()) + [bs] && held == old(held) + [{}]
    {
      var allocations := new Allocation[MAX_ALLOCATIONS](_ => Allocation(0, 0));
      proc := new Process(pageDir, allocations, bs);
      procs := procs + [proc];
      held := held + [{}];
      assert allocations[..] == NewProc(bs).allocs;
      assert Tables() == old(Tables()) + [NewProc(bs).allocs];
    }

    /** The kernel keeps a run of its own as the place of a process's program or stack. */
    ghost method Hold(p: nat, b: nat)
      requires Valid() && p < |procs| && KernelOwns(Abstract(), b)
      modifies this`held
      ensures Valid() && Abstract() == ProcessRuns.Step(old(Abstract()), ProcessRuns.Hold(p, b))
    {
      hide Consistent, Pages, Realised, Sealed, Matches, Abstraction, StopsBefore;
      var s, tables, blocks := Abstract(), Tables(), BlockLists();
      ConsistentIsWhole(s, mem[..]);
      AbstractionMatches(heap.Table(), tables, mem[..], blocks, held);
      GivingKeepsSealed(s, p, b);
      GivenIsConsistent(s, mem[..], p, b);
      GivenMatches(s, tables, blocks, held, p, b);
      held := held[p := held[p] + {b}];
      assert Tables() == tables && BlockLists() == blocks;
      assert Wired() && NullFreesStop();
      ConsistentIsWhole(Given(s, p, b), mem[..]);
      AbstractionIs(Given(s, p, b), heap.Table(), tables, mem[..], blocks, held);
    }

    /** A program's store through a page it can write. It lands in a frame that no other process can write and that is no
        part of the kernel; nothing else changes. */
    method UserStore(p: nat, virt: uint32, w: uint32)
      requires Valid() && p < |procs| && Access(mem[..], Cr3(procs[p].blocks), virt, true).Some?
      modifies mem
      ensures Valid() && Abstract() == old(Abstract()) && ProcessRuns.Legal(Abstract(), ProcessRuns.UserStore(p, virt))
      ensures mem[..] == old(mem[..])[Access(old(mem[..]), Cr3(procs[p].blocks), virt, true).value / 4 := w]
      ensures var f := Access(old(mem[..]), Cr3(procs[p].blocks), virt, true).value / PAGE_SIZE;
        PrivateTo(Abstract(), p, f) && OnlyFrames(old(mem[..]), mem[..], [f])
    {
      hide Consistent, Pages, Realised, Sealed, Matches, Structures, DirOk, OnlyFrames, PrivateTo,
           Access, Cr3, Writeable, Inv;
      ghost var s, tables, blocks, m: Words := Abstract(), Tables(), BlockLists(), mem[..];
      ConsistentIsWhole(s, m);
      AbstractionMatches(heap.Table(), tables, m, blocks, held);
      MatchesAt(s, tables, blocks, held, p);
      DirectoryOf(s, m, p);
      UserStoreIsContained(s, m, p, virt, w);
      var dir := procs[p].Entries(mem);
      var at := GetPhysAddr(mem, dir, virt);
      mem[at / 4] := w;
      ConsistentIsWhole(s, mem[..]);
      AbstractionIs(s, heap.Table(), tables, mem[..], blocks, held);
    }

    /** `process_map_memory` for a process: the program and its stack. The kernel's data stay in order exactly when the
        program leaves the heap pages alone and stays inside the runs the process holds. Memory changes in the process's
        own page structures only. */
    method LoadProgram(p: nat, program: Program, stack: uint32) returns (status: int)
      requires Valid() && p < |procs|
      modifies mem
      ensures Wired() && Abstract() == Loaded(old(Abstract()), p, program, stack)
      ensures status == if SomeHeaderFails(program) then -EINVARG else 0
      ensures Valid() <==> KeepsHeapPages(old(Abstract()), p, program) && Confines(old(Abstract()), p, program, stack)
      ensures OnlyBlocks(old(mem[..]), mem[..], HEAP_PAGE, procs[p].blocks)
    {
      hide Consistent, DirOk, OnlyPages, MapMemory, Pages, Matches, Realised, OnlyBlocks, Structures, KeepsHeapPages,
           Sealed, Confines, StopsBefore;
      ghost var s, tables, blocks, m: Words := Abstract(), Tables(), BlockLists(), mem[..];
      ConsistentIsWhole(s, m);
      AbstractionMatches(heap.Table(), tables, m, blocks, held);
      DirectoryOf(s, m, p);
      var dir := procs[p].Entries(mem);
      LoadStatus(s.procs[p].pages, program, stack);
      status := MapProcess(mem, dir, program, stack);
      LoadIsConsistentExactlyWhen(s, m, mem[..], p, program, stack);
      LoadKeepsSealedExactlyWhen(s, p, program, stack);
      LoadMatches(s, tables, blocks, held, p, program, stack);
      AbstractionIs(Loaded(s, p, program, stack), heap.Table(), tables, mem[..], blocks, held);
    }

    /** `process_free_allocations`: every slot is freed, the null pointers of unused ones included. */
    method FreeAllocations(p: nat)
      requires Valid() && p < |procs|
      modifies heap.entries, mem, procs[p].allocations
      ensures Valid()
      ensures Abstract() == FreeFrom(old(Abstract()), p, 0)
      ensures OnlyBlocks(old(mem[..]), mem[..], HEAP_PAGE, procs[p].blocks)
    {
      hide Consistent, FindSlot, Free, OnlyBlocks, Whole, Realised, Sealed, Freed, StopsBefore, Inv, CleanSlots;
      ConsistentIsWhole(Abstract(), mem[..]);
      OnlyBlocksNothing(mem[..], procs[p].blocks);
      for i := 0 to MAX_ALLOCATIONS
        invariant Valid() && Inv(Abstract()) && p < |Abstract().procs|
        invariant procs[p].allocations[..] == Abstract().procs[p].allocs
        invariant FreeFrom(Abstract(), p, i) == FreeFrom(old(Abstract()), p, 0)
        invariant OnlyBlocks(old(mem[..]), mem[..], HEAP_PAGE, procs[p].blocks)
      {
        ghost var m: Words := mem[..];
        ProcessFree(p, procs[p].allocations[i].ptr);
        OnlyBlocksTwice(old(mem[..]), m, mem[..], procs[p].blocks);
        ConsistentIsWhole(Abstract(), mem[..]);
      }
    }

    /** `process_unlink`. */
    method Unlink(p: nat)
      requires Wired() && p < |procs|
      modifies this
      ensures Wired() && procs == old(procs[..p] + procs[p + 1..])
      ensures Tables() == old(Tables()[..p] + Tables()[p + 1..])
      ensures BlockLists() == old(BlockLists()[..p] + BlockLists()[p + 1..]) && held == old(held[..p] + held[p + 1..])
    {
      ghost var ps, tables := procs, Tables();
      procs := procs[..p] + procs[p + 1..];
      held := held[..p] + held[p + 1..];
      forall q | 0 <= q < |procs|
        ensures procs[q] == ps[if q < p then q else q + 1] && Tables()[q] == tables[if q < p then q else q + 1]
      {
      }
      assert Tables() == tables[..p] + tables[p + 1..];
    }

    /** The `paging_free` of `task_free`. */
    method FreeDirectory(p: nat, ghost bs: seq<nat>)
      requires Wired() && p < |procs| && bs == procs[p].blocks && Structures(mem[..], bs)
      requires WellFormed(Released(heap.Table(), bs)) && SinglesTaken(Released(heap.Table(), bs), heap.Table(), bs)
      modifies heap.entries
      ensures heap.Table() == Released(old(heap.Table()), bs) && heap.Before() == old(heap.Before())
    {
      hide Released, SinglesTaken, WellFormed, Linked;
      PageAlignedWord(procs[p].pageDir);
      PagingFree(heap, mem, procs[p].pageDir, Released(heap.Table(), bs), bs);
    }

    /** `task_free` of a process that owns nothing any more: the page structures go back to the heap. */
    method TaskFree(p: nat)
      requires Valid() && p < |procs| && forall i :: !Live(Abstract(), p, i)
      modifies this, heap.entries
      ensures Valid() && procs == old(procs[..p] + procs[p + 1..])
      ensures Abstract() == GivenBack(old(Abstract()), p)
    {
      hide Consistent, Whole, Inv, Realised, Structures, Released, SinglesTaken, WellFormed, Pages, Sealed, StopsBefore,
           Abstraction, Linked;
      ghost var s, tables, blocks, m: Words := Abstract(), Tables(), BlockLists(), mem[..];
      AbstractionMatches(heap.Table(), tables, m, blocks, held);
      ghost var bs, held0 := procs[p].blocks, held;
      TaskFreeStart(s, m, p, bs);
      GiveBackKeepsSealed(s, p);
      FreeDirectory(p, bs);
      Unlink(p);
      ExitMatches(s, tables, blocks, held0, p, Released(s.table, bs));
      ConsistentIsWhole(GivenBack(s, p), m);
      hide Matches, GivenBack;
      AbstractionIs(GivenBack(s, p), heap.Table(), Tables(), m, BlockLists(), held);
    }

    /** The end of a process, as far as it concerns memory management: `process_terminate` frees the allocations, then
        `task_free` gives the page structures back. (What else the kernel frees then, it frees with `kfree`.) */
    method Exit(p: nat)
      requires Valid() && p < |procs|
      modifies this, heap.entries, mem, procs[p].allocations
      ensures Valid() && procs == old(procs[..p] + procs[p + 1..])
      ensures Abstract() == ProcessRuns.Step(old(Abstract()), ProcessRuns.Exit(p))
      ensures OnlyBlocks(old(mem[..]), mem[..], HEAP_PAGE, old(procs[p].blocks))
    {
      hide Consistent, OnlyBlocks, Whole, Inv, FreeFrom, GivenBack, HeldOk, Confined, StopsBefore;
      ghost var s := Abstract();
      ConsistentIsWhole(s, mem[..]);
      ExitIsFreeThenGiveBack(s, p);
      FreeAllocations(p);
      TaskFree(p);
    }

    /** `process_terminate` of a process whose program and stack are the runs at addr and stack: everything it took goes
        back to the heap, and nothing else. */
    method Terminate(p: nat, addr: uint32, stack: uint32, ghost b: nat, ghost c: nat)
      requires Valid() && p < |procs| && held[p] == {b, c} && b != c
      requires b < HEAP_BLOCKS && c < HEAP_BLOCKS && addr == BlockAddr(b) && stack == BlockAddr(c)
      modifies this, heap.entries, mem, procs[p].allocations
      ensures Valid() && procs == old(procs[..p] + procs[p + 1..])
      ensures Abstract().procs == Without(old(Abstract()).procs, p)
      ensures forall r: nat :: r in Runs(Abstract().table) <==>
        && r in Runs(old(Abstract()).table) && !StartsAt(old(Abstract()), p, r)
        && r !in old(procs[p].blocks) && r != b && r != c
    {
      hide Consistent, Sealed, Abstraction, StopsBefore, Runs, KernelOwns, StartsAt, Freed, Exited;
      ghost var s := Abstract();
      ConsistentIsWhole(s, mem[..]);
      AbstractionMatches(heap.Table(), Tables(), mem[..], BlockLists(), held);
      MatchesAt(s, Tables(), BlockLists(), held, p);
      TerminationFrees(s, p, b, c);
      Exit(p);
      KernelFree(addr, b);
      KernelFree(stack, c);
    }
  }
}
