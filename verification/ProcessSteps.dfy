/** What each memory operation of the kernel does to its data, step by step, in terms of the state those data stand
    for. */
module ProcessSteps {
  import opened Machine
  import opened Heap
  import opened HeapRuns
  import opened Memory
  import opened Paging
  import opened PageDirectory
  import opened ElfMap
  import opened ProcessMemory
  import opened ProcessBlocks
  import opened ProcessHeld
  import opened ProcessLoad
  import opened MemoryImage
  import opened MemoryBytes
  import TaskCopy

  // ---------- From data to state ----------

  /** The parts of the data that make up a state. */
  ghost predicate Matches(s: State, table: seq<bv8>, tables: seq<seq<Allocation>>, blocks: seq<seq<nat>>,
                          held: seq<set<nat>>) {
    && s.table == table && |s.procs| == |tables| == |blocks| == |held|
    && forall p :: 0 <= p < |s.procs| ==>
         s.procs[p].allocs == tables[p] && s.procs[p].blocks == blocks[p] && s.procs[p].held == held[p]
  }

  /** If memory realises a state and the other data match it, they stand for that state. */
  lemma AbstractionIs(s: State, table: seq<bv8>, tables: seq<seq<Allocation>>, m: Words, blocks: seq<seq<nat>>,
                      held: seq<set<nat>>)
    requires Matches(s, table, tables, blocks, held)
    requires forall p :: 0 <= p < |s.procs| ==> Realised(m, s.procs[p])
    ensures Abstraction(table, tables, m, blocks, held) == s
  {
    hide Pages, Structures;
    forall p | 0 <= p < |s.procs|
      ensures Proc(tables[p], Pages(m, DirFrame(blocks[p])), blocks[p], held[p]) == s.procs[p]
    {
      assert Realised(m, s.procs[p]);
    }
  }

  lemma MatchesAt(s: State, tables: seq<seq<Allocation>>, blocks: seq<seq<nat>>, held: seq<set<nat>>, p: nat)
    requires Matches(s, s.table, tables, blocks, held) && p < |s.procs|
    ensures |s.procs| == |tables| == |blocks| == |held|
    ensures s.procs[p].allocs == tables[p] && s.procs[p].blocks == blocks[p] && s.procs[p].held == held[p]
  {
  }

  lemma AbstractionMatches(table: seq<bv8>, tables: seq<seq<Allocation>>, m: Words, blocks: seq<seq<nat>>,
                           held: seq<set<nat>>)
    requires |tables| == |blocks| == |held|
    ensures Matches(Abstraction(table, tables, m, blocks, held), table, tables, blocks, held)
    ensures Abstraction(table, tables, m, blocks, held).table == table
    ensures |Abstraction(table, tables, m, blocks, held).procs| == |tables|
  {
  }

  /** What the code may rely on about the directory of a process. */
  lemma DirectoryOf(s: State, m: Words, p: nat)
    requires Consistent(s, m) && p < |s.procs|
    ensures Structures(m, s.procs[p].blocks) && AllDifferent(s.procs[p].blocks)
    ensures DirOk(m, DirFrame(s.procs[p].blocks)) && s.procs[p].pages == Pages(m, DirFrame(s.procs[p].blocks))
    ensures Shape(s) && |s.procs[p].allocs| == MAX_ALLOCATIONS
  {
    assert Realised(m, s.procs[p]);
    ProcessBlocksKept(s, p, 0);
    StructuresDirOk(m, s.procs[p].blocks);
  }

  lemma ConsistentIsWhole(s: State, m: Words)
    requires Consistent(s, m)
    ensures Whole(s) && Inv(s) && Shape(s) && WellFormed(s.table)
    ensures forall p :: 0 <= p < |s.procs| ==> Realised(m, s.procs[p])
  {
  }

  // ---------- process_malloc ----------

  /** What process_malloc finds when the heap has room. */
  lemma MallocStart(s: State, m: Words, m': Words, p: nat, size: uint32, b: nat)
    requires Consistent(s, m) && p < |s.procs| && Serviceable(s.table, size)
    requires b == FirstFit(s.table, BlocksFor(size), 0)
    requires forall a: uint32 :: ByteAt(m', a) == if BlockAddr(b) <= a < BlockAddr(b) + size then 0 else ByteAt(m, a)
    ensures b + BlocksFor(size) <= |s.table| == HEAP_BLOCKS && BlockAddr(b) + size <= 4 * WORDS
    ensures Freed(Taken(s.table, b, BlocksFor(size)), b, HEAP_BLOCKS) == s.table
    ensures Consistent(s, m') && DataKept(s, m, m')
    ensures |s.procs[p].pages| == PAGES
    ensures MapTo(s.procs[p].pages, BlockAddr(b), BlockAddr(b), PhysEnd(BlockAddr(b), size), USER_RW)
         == (Remap(s.procs[p].pages, b, BlocksFor(size), USER_RW), 0)
  {
    hide RunLength, Runs, WellFormed, Taken, Freed, MapPages, MapTo, Remap, Realised, ByteAt;
    FirstFitIsLowest(s.table, BlocksFor(size), 0);
    MallocThenFreeRestores(s.table, b, BlocksFor(size));
    RunEndsInMemory(b, size);
    ClearedKeeps(s, m, m', b, size);
    SpanIsRun(s.procs[p].pages, b, size, USER_RW);
  }

  lemma GrantStart(s: State, tables: seq<seq<Allocation>>, blocks: seq<seq<nat>>, held: seq<set<nat>>, m: Words,
                   p: nat, size: uint32)
    requires Consistent(s, m) && p < |s.procs| && Serviceable(s.table, size) && Matches(s, s.table, tables, blocks, held)
    requires FirstFit(s.table, BlocksFor(size), 0) != -1
    ensures |s.procs| == |tables| == |blocks| == |held| && Shape(s) && |s.procs[p].pages| == PAGES
    ensures s.procs[p].allocs == tables[p] && s.procs[p].blocks == blocks[p]
    ensures Structures(m, blocks[p]) && DirOk(m, DirFrame(blocks[p])) && s.procs[p].pages == Pages(m, DirFrame(blocks[p]))
    ensures var b := FirstFit(s.table, BlocksFor(size), 0);
      && b + BlocksFor(size) <= HEAP_BLOCKS
      && MapTo(s.procs[p].pages, BlockAddr(b), BlockAddr(b), PhysEnd(BlockAddr(b), size), USER_RW)
         == (Remap(s.procs[p].pages, b, BlocksFor(size), USER_RW), 0)
  {
    hide RunLength, Runs, WellFormed, MapPages, MapTo, Remap, Realised, Structures, DirOk, Pages, Kept;
    FirstFitIsLowest(s.table, BlocksFor(size), 0);
    DirectoryOf(s, m, p);
    SpanIsRun(s.procs[p].pages, FirstFit(s.table, BlocksFor(size), 0), size, USER_RW);
  }

  /** Allocation with the right remapping of memory is `Malloc`. */
  lemma MallocIsConsistent(s: State, m: Words, m': Words, p: nat, size: uint32)
    requires Consistent(s, m) && p < |s.procs| && Serviceable(s.table, size)
    requires FirstFit(s.table, BlocksFor(size), 0) != -1 && FindSlot(s.procs[p].allocs, 0, 0) != -1
    requires |s.procs[p].pages| == PAGES
    requires OnlyPages(m, m', DirFrame(s.procs[p].blocks),
                       Remap(s.procs[p].pages, FirstFit(s.table, BlocksFor(size), 0), BlocksFor(size), USER_RW))
    ensures Consistent(Malloc(s, p, size).0, m') && OnlyBlocks(m, m', HEAP_PAGE, s.procs[p].blocks)
  {
    ConsistentIsWhole(s, m);
    MallocKeepsKept(s, p, size);
    hide Whole, Realised, Taken, Remap, OnlyPages, FirstFit, Serviceable, BlocksFor, OnlyBlocks, SameBlocks, Consistent;
    OneProcessChanges(s, Malloc(s, p, size).0, m, m', p);
  }

  /** Mapping the new allocation, in memory m1 where it has been cleared, leaves it cleared; and the process can write
      every byte of it. */
  lemma MallocHandsOut(s: State, m1: Words, m: Words, p: nat, size: uint32)
    requires Consistent(s, m1) && p < |s.procs| && Serviceable(s.table, size) && Malloc(s, p, size).1 != 0
    requires Consistent(Malloc(s, p, size).0, m) && OnlyBlocks(m1, m, HEAP_PAGE, s.procs[p].blocks)
    requires forall a: uint32 :: Malloc(s, p, size).1 <= a < Malloc(s, p, size).1 + size ==> ByteAt(m1, a) == 0
    ensures forall a: uint32 :: Malloc(s, p, size).1 <= a < Malloc(s, p, size).1 + size ==> ByteAt(m, a) == 0
    ensures forall a: uint32 :: Malloc(s, p, size).1 <= a < Malloc(s, p, size).1 + size ==>
              Access(m, Cr3(s.procs[p].blocks), a, true) == Some(a)
  {
    hide Consistent, ByteAt, SameFrame, Serviceable, Access, Owns, Inside, Malloc;
    ConsistentIsWhole(s, m1);
    MallocDelivers(s, p, size);
    var s', ptr := Malloc(s, p, size).0, Malloc(s, p, size).1;
    ConsistentIsWhole(s', m);
    hide Inv, Whole;
    var i: nat :| Live(s', p, i) && !Live(s, p, i) && s'.procs[p].allocs == s.procs[p].allocs[i := Allocation(ptr, size)];
    forall a: uint32 | ptr <= a < ptr + size
      ensures ByteAt(m, a) == 0 && Access(m, Cr3(s.procs[p].blocks), a, true) == Some(a)
    {
      HandedOutByte(s, s', m1, m, p, i, ptr, size, a);
    }
  }

  lemma HandedOutByte(s: State, s': State, m1: Words, m: Words, p: nat, i: nat, ptr: uint32, size: uint32, a: uint32)
    requires Consistent(s, m1) && Consistent(s', m) && p < |s.procs| == |s'.procs| && Shape(s) && Shape(s')
    requires s'.procs[p].blocks == s.procs[p].blocks && OnlyBlocks(m1, m, HEAP_PAGE, s.procs[p].blocks)
    requires Live(s', p, i) && At(s', p, i) == Allocation(ptr, size) && ptr <= a < ptr + size
    ensures ByteAt(m, a) == ByteAt(m1, a) && Access(m, Cr3(s.procs[p].blocks), a, true) == Some(a)
  {
    hide ByteAt, SameFrame, Access, Translate, Pages, Kept, Structures, Writeable;
    AllocationIsUsable(s', p, i, a);
    AccessIs(s', m, p, a);
    assert Realised(m, s'.procs[p]);
    var h := a / PAGE_SIZE - HEAP_PAGE;
    if h in s'.procs[p].blocks {
      assert IsKept(s', h);
      KeptIsNotWriteable(s', p, h);
      assert false;
    }
    SameByte(m1, m, a);
  }

  lemma MallocFails(s: State, p: nat, size: uint32)
    requires Shape(s) && p < |s.procs| && Serviceable(s.table, size)
    requires FirstFit(s.table, BlocksFor(size), 0) == -1 || FindSlot(s.procs[p].allocs, 0, 0) == -1
    ensures Malloc(s, p, size) == (s, 0)
  {
  }

  /** The rest of the data after an allocation. */
  lemma MallocMatches(s: State, tables: seq<seq<Allocation>>, blocks: seq<seq<nat>>, held: seq<set<nat>>, p: nat,
                      size: uint32)
    requires Matches(s, s.table, tables, blocks, held) && Shape(s) && p < |s.procs| && Serviceable(s.table, size)
    requires FirstFit(s.table, BlocksFor(size), 0) != -1 && FindSlot(s.procs[p].allocs, 0, 0) != -1
    ensures var b, slot := FirstFit(s.table, BlocksFor(size), 0), FindSlot(tables[p], 0, 0);
      Matches(Malloc(s, p, size).0, Taken(s.table, b, BlocksFor(size)),
              tables[p := tables[p][slot := Allocation(BlockAddr(b), size)]], blocks, held)
  {
    hide Serviceable, FirstFit, Taken, Remap, BlocksFor;
  }

  // ---------- process_free ----------

  /** What process_free finds when the process owns the pointer. */
  lemma OwnedStart(s: State, p: nat, ptr: uint32, slot: nat)
    requires Inv(s) && p < |s.procs| && ptr != 0 && slot == FindSlot(s.procs[p].allocs, ptr, 0)
    ensures slot < |s.procs[p].allocs| == MAX_ALLOCATIONS && s.procs[p].allocs[slot].ptr == ptr
    ensures HEAP_ADDRESS <= ptr && BlockOf(ptr) < HEAP_BLOCKS == |s.table| && ptr == BlockAddr(BlockOf(ptr))
    ensures |s.procs[p].pages| == PAGES
    ensures MapTo(s.procs[p].pages, ptr, ptr, PhysEnd(ptr, s.procs[p].allocs[slot].size), 0)
         == (Remap(s.procs[p].pages, BlockOf(ptr), BlocksFor(s.procs[p].allocs[slot].size), 0), 0)
    ensures |Free(s, p, ptr).procs| == |s.procs|
    ensures Free(s, p, ptr).procs[p].pages
         == Remap(s.procs[p].pages, BlockOf(ptr), BlocksFor(s.procs[p].allocs[slot].size), 0)
  {
    hide RunLength, MapPages, MapTo, Remap, WellFormed;
    var a := s.procs[p].allocs[slot];
    assert Live(s, p, slot) && At(s, p, slot) == a && IsRun(Runs(s.table), a);
    RunFitsHeap(s, a);
    SpanIsRun(s.procs[p].pages, BlockOf(ptr), a.size, 0);
  }

  lemma RunFitsHeap(s: State, a: Allocation)
    requires Shape(s) && IsRun(Runs(s.table), a)
    ensures BlockOf(a.ptr) + BlocksFor(a.size) <= HEAP_BLOCKS && BlockAddr(BlockOf(a.ptr)) == a.ptr
  {
    assert RunLength(s.table, BlockOf(a.ptr)) == BlocksFor(a.size);
  }

  /** What it finds when the pointer is null and some slot is unused. */
  lemma NullStart(s: State, p: nat, slot: nat)
    requires Inv(s) && p < |s.procs| && slot == FindSlot(s.procs[p].allocs, 0, 0)
    ensures slot < |s.procs[p].allocs| == MAX_ALLOCATIONS && s.procs[p].allocs[slot] == Allocation(0, 0)
    ensures |s.procs[p].pages| == PAGES && MapTo(s.procs[p].pages, 0, 0, PhysEnd(0, 0), 0) == (s.procs[p].pages, 0)
    ensures Dropped(s.procs[p].allocs, 0) == s.procs[p].allocs && Free(s, p, 0) == s
  {
    assert MapPages(s.procs[p].pages, 0, 0, 0, 0) == s.procs[p].pages;
  }

  /** In both cases: the mapping succeeds, and the pages are those of `Free`. */
  lemma RevokeStart(s: State, m: Words, p: nat, ptr: uint32, slot: nat)
    requires Consistent(s, m) && p < |s.procs| && slot == FindSlot(s.procs[p].allocs, ptr, 0)
    ensures Shape(s) && Inv(s) && slot < MAX_ALLOCATIONS && s.procs[p].allocs[slot].ptr == ptr
    ensures Structures(m, s.procs[p].blocks) && DirOk(m, DirFrame(s.procs[p].blocks))
    ensures s.procs[p].pages == Pages(m, DirFrame(s.procs[p].blocks)) && ptr % PAGE_SIZE == 0
    ensures |Free(s, p, ptr).procs| == |s.procs|
    ensures MapTo(s.procs[p].pages, ptr, ptr, PhysEnd(ptr, s.procs[p].allocs[slot].size), 0)
         == (Free(s, p, ptr).procs[p].pages, 0)
  {
    ConsistentIsWhole(s, m);
    DirectoryOf(s, m, p);
    hide MapTo, Remap, Realised, Structures, DirOk, Pages, Freed, Free, Inv, Consistent, PhysEnd;
    if ptr == 0 {
      NullStart(s, p, slot);
    } else {
      OwnedStart(s, p, ptr, slot);
    }
  }

  /** Freeing with the right remapping of memory is `Free`. */
  lemma FreeIsConsistent(s: State, m: Words, m': Words, p: nat, ptr: uint32)
    requires Consistent(s, m) && p < |s.procs| && Inv(s) && p < |Free(s, p, ptr).procs|
    requires |Free(s, p, ptr).procs[p].pages| == PAGES
    requires OnlyPages(m, m', DirFrame(s.procs[p].blocks), Free(s, p, ptr).procs[p].pages)
    ensures Consistent(Free(s, p, ptr), m') && OnlyBlocks(m, m', HEAP_PAGE, s.procs[p].blocks)
  {
    ConsistentIsWhole(s, m);
    FreeKeepsKept(s, p, ptr);
    hide Whole, Realised, Freed, Remap, OnlyPages, BlocksFor, OnlyBlocks, SameBlocks, Consistent, Inv;
    OneProcessChanges(s, Free(s, p, ptr), m, m', p);
  }

  lemma FreeMatches(s: State, tables: seq<seq<Allocation>>, blocks: seq<seq<nat>>, held: seq<set<nat>>, p: nat,
                    ptr: uint32)
    requires Matches(s, s.table, tables, blocks, held) && Inv(s) && p < |s.procs|
    requires FindSlot(s.procs[p].allocs, ptr, 0) != -1
    ensures |tables| == |s.procs|
    ensures Matches(Free(s, p, ptr), Free(s, p, ptr).table, tables[p := Dropped(tables[p], ptr)], blocks, held)
  {
    if ptr == 0 {
      NullStart(s, p, FindSlot(s.procs[p].allocs, 0, 0));
    }
    hide Freed, Remap, BlocksFor, Dropped;
  }

  // ---------- process_map_memory ----------

  /** Loading a program changes memory as it changes the state, and memory then realises the state exactly when the
      program leaves the heap pages alone. */
  lemma LoadIsConsistentExactlyWhen(s: State, m: Words, m': Words, p: nat, program: Program, stack: uint32)
    requires Consistent(s, m) && p < |s.procs| && |s.procs[p].pages| == PAGES && Shape(s)
    requires OnlyPages(m, m', DirFrame(s.procs[p].blocks), MapMemory(s.procs[p].pages, program, stack).0)
    ensures forall q :: 0 <= q < |s.procs| ==> Realised(m', Loaded(s, p, program, stack).procs[q])
    ensures Consistent(Loaded(s, p, program, stack), m') <==> KeepsHeapPages(s, p, program)
    ensures OnlyBlocks(m, m', HEAP_PAGE, s.procs[p].blocks)
  {
    var s', bs := Loaded(s, p, program, stack), s.procs[p].blocks;
    DirectoryOf(s, m, p);
    RemapStructures(m, m', bs, s'.procs[p].pages);
    LoadKeepsExactlyWhen(s, p, program, stack);
    hide Structures, OnlyPages, OnlyBlocks, Pages, KeepsHeapPages, Whole, MapMemory, Inv;
    forall q | 0 <= q < |s.procs|
      ensures Realised(m', s'.procs[q])
    {
      if q != p {
        OtherProcessStays(s, m, m', p, q);
      }
    }
  }

  lemma LoadMatches(s: State, tables: seq<seq<Allocation>>, blocks: seq<seq<nat>>, held: seq<set<nat>>, p: nat,
                    program: Program, stack: uint32)
    requires Matches(s, s.table, tables, blocks, held) && Shape(s) && p < |s.procs|
    ensures Matches(Loaded(s, p, program, stack), s.table, tables, blocks, held)
  {
    hide MapMemory;
  }

  // ---------- The kernel's own use of the heap ----------

  lemma TableMatches(s: State, table: seq<bv8>, tables: seq<seq<Allocation>>, blocks: seq<seq<nat>>,
                     held: seq<set<nat>>)
    requires Matches(s, s.table, tables, blocks, held)
    ensures Matches(s.(table := table), table, tables, blocks, held)
  {
  }

  /** After `kzalloc` has answered, memory realises the new state, and everybody's data are as before. */
  lemma ZallocIsConsistent(s: State, m: Words, t: seq<bv8>, m': Words, size: uint32, addr: uint32)
    requires Consistent(s, m) && Serviceable(s.table, size) && Answered(s.table, t, HEAP_ADDRESS, size, addr)
    requires addr == 0 ==> m' == m
    requires addr != 0 ==> forall a: uint32 :: ByteAt(m', a) == if addr <= a < addr + size then 0 else ByteAt(m, a)
    ensures KernelMalloced(s, size).table == t && Consistent(KernelMalloced(s, size), m') && DataKept(s, m, m')
    ensures addr == KernelAnswer(s.table, size)
  {
    ConsistentIsWhole(s, m);
    NothingChanged(s, m);
    KernelMallocKeeps(s, size);
    var b := FirstFit(s.table, BlocksFor(size), 0);
    if b != -1 {
      FirstFitIsLowest(s.table, BlocksFor(size), 0);
      ClearedKeeps(s, m, m', b, size);
    }
    hide Whole, Realised, FirstFit, Taken, DataKept, ByteAt;
  }

  /** The address the kernel gets for a request that is answered rightly. */
  ghost function KernelAnswer(t: seq<bv8>, size: uint32): int {
    var b := FirstFit(t, BlocksFor(size), 0);
    if b == -1 then 0 else HEAP_ADDRESS + b * BLOCK_SIZE
  }

  lemma KernelMallocFails(s: State, size: uint32)
    requires Shape(s) && KernelAnswer(s.table, size) == 0
    ensures KernelMalloced(s, size) == s
  {
  }

  lemma KernelMallocMatches(s: State, tables: seq<seq<Allocation>>, blocks: seq<seq<nat>>, held: seq<set<nat>>,
                            size: uint32)
    requires Matches(s, s.table, tables, blocks, held) && Shape(s)
    ensures Matches(KernelMalloced(s, size), KernelMalloced(s, size).table, tables, blocks, held)
    ensures |KernelMalloced(s, size).procs| == |s.procs|
  {
    TableMatches(s, KernelMalloced(s, size).table, tables, blocks, held);
  }

  // ---------- copy_str_from_task ----------

  /** The string the process sees at virt, cut to n characters, lies in its own memory, NUL included, in pages that are
      there. */
  ghost predicate OwnString(s: State, m: Words, p: nat, virt: uint32, n: nat)
    requires Shape(s) && p < |s.procs|
  {
    var pages := s.procs[p].pages;
    forall i :: 0 <= i < ReadLength(StringShown(m, pages, virt, n), n) ==>
      IsOwnFrame(s, p, FrameShown(pages, virt, i)) && Usable(EntryShown(pages, virt, i))
  }

  /** Such a string has arrived at phys. */
  ghost predicate Arrived(s: State, m0: Words, m: Words, p: nat, virt: uint32, phys: uint32, max: nat)
    requires Shape(s) && p < |s.procs| && 0 < max && phys + max <= HEAP_ADDRESS
  {
    OwnString(s, m0, p, virt, max - 1) ==> HoldsString(m, phys, StringShown(m0, s.procs[p].pages, virt, max - 1))
  }

  /** Everybody's data are as before, except in the frames of the n bytes from phys on. */
  ghost predicate DataKeptOutside(s: State, m0: Words, m: Words, phys: uint32, n: nat)
    requires Shape(s)
  {
    forall f: Frame :: HoldsData(s, f) && !InFrames(phys, n, f) ==> SameFrame(m0, m, f)
  }

  /** The block of a new allocation holds no page structures. */
  lemma NewBlockIsNotKept(s: State, size: uint32, b: nat)
    requires Whole(s) && b == FirstFit(s.table, BlocksFor(size), 0) && BlocksFor(size) > 0
    ensures b < HEAP_BLOCKS && IsFree(s.table[b]) && !IsKept(s, b)
  {
    FirstFitIsLowest(s.table, BlocksFor(size), 0);
    if IsKept(s, b) {
      KeptIsNotFree(s, b);
    }
  }

  lemma FreeIsNoStart(t: seq<bv8>, b: nat)
    requires WellFormed(t) && b < |t| && IsFree(t[b])
    ensures b !in Runs(t)
  {
    assert BlockOk(t, b);
  }

  /** The run that stays behind: the kernel's, and one more than before. */
  lemma KernelMallocAddsRun(s: State, size: uint32, b: nat)
    requires Sealed(s) && Serviceable(s.table, size) && b == FirstFit(s.table, BlocksFor(size), 0)
    ensures var s' := KernelMalloced(s, size);
      && Sealed(s') && b !in Runs(s.table) && Runs(s'.table) == Runs(s.table)[b := BlocksFor(size)] && KernelOwns(s', b)
  {
    hide Runs, Taken, Confined, Kept, PageOk;
    var s' := KernelMalloced(s, size);
    KernelMallocKeepsSealed(s, size);
    FirstFitIsLowest(s.table, BlocksFor(size), 0);
    TakenAddsRun(s.table, b, BlocksFor(size));
    FreeIsNoStart(s.table, b);
    NewBlockIsNotKept(s, size, b);
    SameBlocksSameKept(s, s', b);
    hide WellFormed, FirstFit;
    assert forall q, i :: Live(s', q, i) ==> Live(s, q, i) && At(s', q, i) == At(s, q, i);
    forall q, i | Live(s', q, i)
      ensures At(s', q, i).ptr != BlockAddr(b)
    {
      assert IsRun(Runs(s.table), At(s, q, i));
    }
    forall q
      ensures !Holds(s', q, b)
    {
      assert Holds(s', q, b) ==> Holds(s, q, b);
    }
  }

  /** The new state differs in one more block taken, which is the kernel's. */
  ghost predicate OneRunMore(s: State, s': State, b: nat)
    requires Shape(s) && Shape(s')
  {
    s'.procs == s.procs && b !in Runs(s.table) && Runs(s'.table) == Runs(s.table)[b := 1] && KernelOwns(s', b)
  }

  /** The buffer of the copy: one block, and the kernel's. */
  lemma CopyBuffer(s: State, max: uint32)
    requires Sealed(s) && Serviceable(s.table, max) && KernelAnswer(s.table, max) != 0 && BlocksFor(max) == 1
    ensures var b, s' := FirstFit(s.table, 1, 0), KernelMalloced(s, max);
      && 0 <= b < HEAP_BLOCKS && BlockAddr(b) == KernelAnswer(s.table, max) && IsFree(s.table[b])
      && !IsKept(s', b) && OneRunMore(s, s', b)
  {
    KernelMallocAddsRun(s, max, FirstFit(s.table, 1, 0));
    NewBlockIsNotKept(s, max, FirstFit(s.table, 1, 0));
    hide Sealed, FirstFit, Runs, Taken;
  }

  /** What the copy relies on holds of the buffer just allocated and of kernel memory below the heap. */
  lemma CopyStart(s: State, m: Words, p: nat, b: nat, phys: uint32, max: nat)
    requires Consistent(s, m) && p < |s.procs| && b < HEAP_BLOCKS && !IsKept(s, b)
    requires 0 < max && phys + max <= HEAP_ADDRESS
    ensures TaskCopy.CopyPlaces(m, DirFrame(s.procs[p].blocks), BlockAddr(b), phys, max)
    ensures DirOk(m, DirFrame(s.procs[p].blocks)) && BlockAddr(b) / PAGE_SIZE == HEAP_PAGE + b
  {
    var bs, d := s.procs[p].blocks, DirFrame(s.procs[p].blocks);
    DirectoryOf(s, m, p);
    ProcessBlocksKept(s, p, 0);
    assert BlockAddr(b) == (HEAP_PAGE + b) * PAGE_SIZE;
    assert TableFlags(m, d, (HEAP_PAGE + b) / ENTRIES) == USER_RW;
    hide Structures, DirOk, Pages, IsTable;
    forall f: Frame | IsTable(m, d, f)
      ensures f >= HEAP_PAGE && f != HEAP_PAGE + b
    {
      TablesAreBlocks(m, bs, f);
      assert IsKept(s, f - HEAP_PAGE);
    }
    forall f: Frame | InFrames(phys, max, f)
      ensures f < HEAP_PAGE
    {
      BelowHeap(phys, max, f);
    }
  }

  lemma BelowHeap(phys: uint32, max: nat, f: Frame)
    requires 0 < max && phys + max <= HEAP_ADDRESS && InFrames(phys, max, f)
    ensures f < HEAP_PAGE
  {
  }

  /** Afterwards memory realises the state with the buffer allocated. */
  lemma CopyIsConsistent(s: State, m: Words, m': Words, b: nat, phys: uint32, max: nat)
    requires Consistent(s, m) && !IsKept(s, b) && b < HEAP_BLOCKS && 0 < max && phys + max <= HEAP_ADDRESS
    requires forall f: Frame :: f != HEAP_PAGE + b && !InFrames(phys, max, f) ==> SameFrame(m, m', f)
    ensures Consistent(s, m')
  {
    hide Whole, Realised, SameFrame, InFrames;
    forall k: nat | k < HEAP_BLOCKS && IsKept(s, k)
      ensures SameFrame(m, m', HEAP_PAGE + k)
    {
      if InFrames(phys, max, HEAP_PAGE + k) {
        BelowHeap(phys, max, HEAP_PAGE + k);
      }
    }
    UnprotectedChange(s, m, m');
  }

  /** Data other than at the string's place are as before the allocation. */
  lemma CopyKeepsData(s: State, m0: Words, m: Words, m': Words, b: nat, phys: uint32, max: nat)
    requires Shape(s) && b < HEAP_BLOCKS && IsFree(s.table[b]) && DataKept(s, m0, m)
    requires forall f: Frame :: f != HEAP_PAGE + b && !InFrames(phys, max, f) ==> SameFrame(m, m', f)
    ensures DataKeptOutside(s, m0, m', phys, max)
  {
    hide InFrames;
    forall f: Frame | HoldsData(s, f) && !InFrames(phys, max, f)
      ensures SameFrame(m0, m', f)
    {
      assert SameFrame(m0, m, f) && SameFrame(m, m', f);
    }
  }

  /** A string in the process's own memory is not disturbed by the allocation, nor by the copying. */
  lemma OwnIsUndisturbed(s: State, m0: Words, m: Words, p: nat, b: nat, virt: uint32, n: nat)
    requires Sealed(s) && p < |s.procs| && b < HEAP_BLOCKS && IsFree(s.table[b]) && DataKept(s, m0, m)
    requires Structures(m, s.procs[p].blocks) && AllDifferent(s.procs[p].blocks)
    requires s.procs[p].pages == Pages(m, DirFrame(s.procs[p].blocks)) && OwnString(s, m0, p, virt, n)
    ensures var shown := StringShown(m0, s.procs[p].pages, virt, n);
      && StringShown(m, s.procs[p].pages, virt, n) == shown
      && TaskCopy.Undisturbed(m, DirFrame(s.procs[p].blocks), HEAP_PAGE + b, virt, ReadLength(shown, n))
  {
    var pages, d, buffer: Frame := s.procs[p].pages, DirFrame(s.procs[p].blocks), HEAP_PAGE + b;
    var l := ReadLength(StringShown(m0, pages, virt, n), n);
    WholeIsWellFormed(s);
    hide Structures, Pages, StringShown, Sealed, ByteShown, FrameShown, EntryShown, Usable, IsOwnFrame, DataKept, TableOf;
    forall i | 0 <= i < l
      ensures TaskCopy.UndisturbedByte(m, d, buffer, virt, i)
    {
      assert IsOwnFrame(s, p, FrameShown(pages, virt, i));
      OwnByte(s, m0, m, p, b, virt, i);
    }
    forall i | 0 <= i < l
      ensures ByteShown(m, pages, virt, i) == ByteShown(m0, pages, virt, i)
    {
      assert IsOwnFrame(s, p, FrameShown(pages, virt, i));
      OwnByte(s, m0, m, p, b, virt, i);
    }
    SameStringShown(m0, m, pages, pages, virt, n);
  }

  lemma OwnByte(s: State, m0: Words, m: Words, p: nat, b: nat, virt: uint32, i: nat)
    requires Sealed(s) && p < |s.procs| && b < HEAP_BLOCKS && IsFree(s.table[b]) && DataKept(s, m0, m)
    requires Structures(m, s.procs[p].blocks) && AllDifferent(s.procs[p].blocks)
    requires s.procs[p].pages == Pages(m, DirFrame(s.procs[p].blocks))
    requires IsOwnFrame(s, p, FrameShown(s.procs[p].pages, virt, i))
    ensures ByteShown(m, s.procs[p].pages, virt, i) == ByteShown(m0, s.procs[p].pages, virt, i)
    ensures TaskCopy.UndisturbedByte(m, DirFrame(s.procs[p].blocks), HEAP_PAGE + b, virt, i)
  {
    hide Sealed, Structures, ByteShown, IsOwnFrame, Pages;
    var pages, f := s.procs[p].pages, FrameShown(s.procs[p].pages, virt, i);
    OwnHoldsData(s, p, b, f);
    SameByteShown(m0, m, pages, virt, i);
    TableIsKept(s, m, p, (HEAP_PAGE + b) / ENTRIES);
  }

  /** A frame of the process's own holds data, so that it is not the one of a free block; and the free block's page shows
      the free block. */
  lemma OwnHoldsData(s: State, p: nat, b: nat, f: Frame)
    requires Sealed(s) && p < |s.procs| && b < HEAP_BLOCKS && IsFree(s.table[b]) && IsOwnFrame(s, p, f)
    ensures HoldsData(s, f) && f != HEAP_PAGE + b && s.procs[p].pages[HEAP_PAGE + b] / PAGE_SIZE == HEAP_PAGE + b
  {
    OwnIsOutOfKernel(s, p, f);
    assert PageOk(s, p, b);
    hide Sealed, IsOwnFrame, Writeable, Owns;
  }

  lemma TableIsKept(s: State, m: Words, p: nat, i: nat)
    requires p < |s.procs| && i < ENTRIES
    requires Structures(m, s.procs[p].blocks) && AllDifferent(s.procs[p].blocks)
    ensures var table := TableOf(m, DirFrame(s.procs[p].blocks), i); table >= HEAP_PAGE && IsKept(s, table - HEAP_PAGE)
  {
    assert IsTable(m, DirFrame(s.procs[p].blocks), TableOf(m, DirFrame(s.procs[p].blocks), i));
    TablesAreBlocks(m, s.procs[p].blocks, TableOf(m, DirFrame(s.procs[p].blocks), i));
  }

  /** Requests of a negative number of bytes are too large for the heap. */
  lemma NegativeIsTooMuch(t: seq<bv8>, max: int)
    requires -0x8000_0000 <= max < PAGE_SIZE && |t| == HEAP_BLOCKS && Serviceable(t, Wrap(max))
    ensures KernelAnswer(t, Wrap(max)) != 0 ==> 0 < max && Wrap(max) == max && BlocksFor(max) == 1
  {
    if max < 0 {
      assert Wrap(max) == max + 0x1_0000_0000;
      assert BlocksFor(Wrap(max)) > HEAP_BLOCKS;
    }
  }

  lemma GivenIsConsistent(s: State, m: Words, p: nat, b: nat)
    requires Consistent(s, m) && p < |s.procs|
    ensures Consistent(Given(s, p, b), m)
  {
    GivingKeepsWhole(s, p, b);
    hide Whole, Structures, Pages;
    forall q | 0 <= q < |s.procs|
      ensures Realised(m, Given(s, p, b).procs[q])
    {
      assert Realised(m, s.procs[q]);
    }
  }

  lemma GivenMatches(s: State, tables: seq<seq<Allocation>>, blocks: seq<seq<nat>>, held: seq<set<nat>>, p: nat, b: nat)
    requires Matches(s, s.table, tables, blocks, held) && p < |s.procs|
    ensures |held| == |s.procs| && Matches(Given(s, p, b), s.table, tables, blocks, held[p := held[p] + {b}])
  {
  }

  // ---------- Making and ending processes ----------

  /** The blocks `paging_new` took were available. */
  lemma SpawnedBlocks(s: State, t: seq<bv8>, bs: seq<nat>)
    requires Shape(s) && |bs| == BLOCKS && SinglesTaken(s.table, t, bs)
    ensures Available(s, bs) && t == TakeSingles(s.table, bs) && bs[0] < HEAP_BLOCKS && bs[BLOCKS - 1] < HEAP_BLOCKS
  {
    SinglesAre(s.table, t, bs);
    SinglesDistinct(s.table, t, bs);
  }

  lemma SpawnedLast(s: State, bs: seq<nat>)
    ensures |Spawned(s, bs).procs| == |s.procs| + 1 && Spawned(s, bs).procs[|s.procs|] == NewProc(bs)
  {
  }

  lemma SpawnMatches(s: State, tables: seq<seq<Allocation>>, blocks: seq<seq<nat>>, held: seq<set<nat>>, bs: seq<nat>)
    requires Matches(s, s.table, tables, blocks, held)
    ensures Matches(Spawned(s, bs), TakeSingles(s.table, bs), tables + [NewProc(bs).allocs], blocks + [bs], held + [{}])
  {
    NewProcBlocks(bs);
    hide NewProc;
  }

  /** The state without a process and its page structures. */
  ghost function GivenBack(s: State, p: nat): State
    requires p < |s.procs|
  {
    State(Released(s.table, s.procs[p].blocks), Without(s.procs, p))
  }

  lemma ExitIsFreeThenGiveBack(s: State, p: nat)
    requires Whole(s) && p < |s.procs|
    ensures Inv(s) && p < |FreeFrom(s, p, 0).procs| && Shape(FreeFrom(s, p, 0))
    ensures Exited(s, p) == GivenBack(FreeFrom(s, p, 0), p)
    ensures forall i :: !Live(FreeFrom(s, p, 0), p, i)
  {
    FreeFromKeeps(s, p, 0);
    FreeFromLeavesNothing(s, p, 0);
  }

  /** What `paging_free` relies on. */
  lemma TaskFreeStart(s: State, m: Words, p: nat, bs: seq<nat>)
    requires Consistent(s, m) && p < |s.procs| && bs == s.procs[p].blocks
    requires forall i :: !Live(s, p, i)
    ensures GivenBack(s, p) == State(Released(s.table, bs), Without(s.procs, p)) && Consistent(GivenBack(s, p), m)
    ensures Structures(m, bs) && WellFormed(s.table) && WellFormed(Released(s.table, bs))
    ensures SinglesTaken(Released(s.table, bs), s.table, bs)
  {
    assert Realised(m, s.procs[p]);
    KeptAreSingles(s, p);
    ReleasedIsSinglesTaken(s.table, bs);
    ReleasedWellFormed(s.table, bs);
    GiveBackKeeps(s, p);
    ExitIsConsistent(s, m, p);
  }

  /** What is left when a process has ended and its program and stack are freed. */
  lemma TerminationFrees(s: State, p: nat, b: nat, c: nat)
    requires Sealed(s) && p < |s.procs| && s.procs[p].held == {b, c} && b != c
    ensures Shape(Exited(s, p)) && Sealed(Exited(s, p)) && KernelOwns(Exited(s, p), b)
    ensures var s1 := Exited(s, p).(table := Freed(Exited(s, p).table, b, |Exited(s, p).table|));
      && Sealed(s1) && Shape(s1) && KernelOwns(s1, c)
      && var s2 := s1.(table := Freed(s1.table, c, |s1.table|));
      && s2.procs == Without(s.procs, p)
      && forall r: nat :: r in Runs(s2.table) <==>
           r in Runs(s.table) && !StartsAt(s, p, r) && r !in s.procs[p].blocks && r != b && r != c
  {
    var s0 := Exited(s, p);
    ExitKeepsSealed(s, p);
    ExitLeavesHeld(s, p, b);
    ExitLeavesHeld(s, p, c);
    KernelStillOwns(s0, b, c);
    KernelFreeKeepsSealed(s0, b);
    var s1 := s0.(table := Freed(s0.table, b, |s0.table|));
    WholeIsWellFormed(s1);
    FreedRemovesRun(s1.table, c);
    hide Sealed, Exited, Freed, Runs, KernelOwns, WellFormed, StartsAt;
    forall r: nat
      ensures r in Runs(s0.table) <==> r in Runs(s.table) && !StartsAt(s, p, r) && r !in s.procs[p].blocks
      ensures s0.procs == Without(s.procs, p)
    {
      ExitRemovesExactly(s, p, r);
    }
  }

  lemma ExitMatches(s: State, tables: seq<seq<Allocation>>, blocks: seq<seq<nat>>, held: seq<set<nat>>, p: nat,
                    table: seq<bv8>)
    requires Matches(s, s.table, tables, blocks, held) && p < |s.procs|
    ensures |tables| == |blocks| == |held| == |s.procs|
    ensures Matches(State(table, Without(s.procs, p)), table, tables[..p] + tables[p + 1..], blocks[..p] + blocks[p + 1..],
                    held[..p] + held[p + 1..])
  {
  }

  // ---------- Freeing null ----------

  /** How far before the table the block of the null address lies. */
  const NULL_OFFSET := HEAP_ADDRESS / BLOCK_SIZE
  /** The last byte but one of a boot record. */
  const SIGNATURE: bv8 := 0x55

  lemma AddressOfNull(heap: Heap)
    requires heap.startAddr == HEAP_ADDRESS
    ensures heap.AddressToBlock(0) == -NULL_OFFSET
  {
  }

  /** A free of null that stops before the table leaves the table alone, and the next one stops there too. */
  lemma NullFreeStops(e: seq<bv8>, base: nat, length: nat)
    requires base + length <= |e| && base >= NULL_OFFSET && StopsBefore(e[..base], base - NULL_OFFSET, base)
    ensures var e' := Freed(e, base - NULL_OFFSET, base + length);
      e'[base..base + length] == e[base..base + length] && StopsBefore(e'[..base], base - NULL_OFFSET, base)
  {
    var from, e' := base - NULL_OFFSET, Freed(e, base - NULL_OFFSET, base + length);
    assert StopsBefore(e, from, base) by {
      var i :| from <= i < base && !HasNext(e[..base][i]);
      assert e[i] == e[..base][i];
    }
    StrayFreeKeepsTableExactlyWhen(e, from, base, length);
    FreedClearsFirst(e, from, base + length);
    assert e'[..base][from] == FREE && !HasNext(FREE);
  }

  lemma AddressOfBlock(heap: Heap, b: nat)
    requires heap.startAddr == HEAP_ADDRESS && b <= HEAP_BLOCKS
    ensures heap.AddressToBlock(BlockAddr(b)) == b
  {
  }
}
