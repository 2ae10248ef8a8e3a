/** Per-process memory as a state machine: the heap table, every process's allocation table and every
    process's page-table entries, changed together by process_malloc and process_free. */
module ProcessMemory {
  import opened Machine
  import opened Heap
  import opened HeapRuns
  import opened Memory
  import opened Paging

  const HEAP_ADDRESS := 0x0100_0000
  const HEAP_BLOCKS := 25600
  const HEAP_PAGE := 0x1000
  const MAX_ALLOCATIONS := 1024

  datatype Allocation = Allocation(ptr: uint32, size: uint32)

  /** A process: its allocation table, its page-table entries, the heap blocks its page structures take, and the first
      blocks of the runs that hold its program and its stack. */
  datatype Proc = Proc(allocs: seq<Allocation>, pages: seq<uint32>, blocks: seq<nat>, held: set<nat>)
  datatype State = State(table: seq<bv8>, procs: seq<Proc>)

  // ---------- The allocation table ----------

  /** The lowest slot at or after i holding this pointer (0 for an unused slot), or -1. */
  ghost function FindSlot(allocs: seq<Allocation>, ptr: uint32, i: nat): (r: int)
    requires i <= |allocs|
    ensures r != -1 ==> i <= r < |allocs| && allocs[r].ptr == ptr
    ensures forall k :: i <= k < |allocs| && (r == -1 || k < r) ==> allocs[k].ptr != ptr
    decreases |allocs| - i
  {
    if i == |allocs| then -1 else if allocs[i].ptr == ptr then i else FindSlot(allocs, ptr, i + 1)
  }

  ghost function Dropped(allocs: seq<Allocation>, ptr: uint32): (r: seq<Allocation>)
    ensures |r| == |allocs|
  {
    seq(|allocs|, i requires 0 <= i < |allocs| => if allocs[i].ptr == ptr then Allocation(0, 0) else allocs[i])
  }

  // ---------- Heap blocks, addresses and pages ----------

  function BlockAddr(b: nat): uint32
    requires b <= HEAP_BLOCKS
  {
    HEAP_ADDRESS + b * BLOCK_SIZE
  }

  function BlockOf(ptr: uint32): nat
    requires ptr >= HEAP_ADDRESS
  {
    (ptr - HEAP_ADDRESS) / BLOCK_SIZE
  }

  /** The end of the pages mapped for an allocation. */
  function PhysEnd(ptr: uint32, size: uint32): uint32 {
    AlignUp(Wrap(ptr + size))
  }

  // ---------- The invariant ----------

  ghost predicate Shape(s: State) {
    && |s.table| == HEAP_BLOCKS
    && forall p :: 0 <= p < |s.procs| ==> |s.procs[p].allocs| == MAX_ALLOCATIONS && |s.procs[p].pages| == PAGES
  }

  ghost predicate Live(s: State, p: nat, i: nat)
    requires Shape(s)
  {
    p < |s.procs| && i < MAX_ALLOCATIONS && s.procs[p].allocs[i].ptr != 0
  }

  ghost function At(s: State, p: nat, i: nat): Allocation
    requires Shape(s) && p < |s.procs| && i < MAX_ALLOCATIONS
  {
    s.procs[p].allocs[i]
  }

  /** An allocation-table entry is exactly one run of the heap. */
  ghost predicate IsRun(runs: map<nat, nat>, a: Allocation) {
    && a.ptr % PAGE_SIZE == 0 && a.ptr >= HEAP_ADDRESS
    && 0 < a.size <= 0xFFFF_F000
    && BlockOf(a.ptr) in runs
    && runs[BlockOf(a.ptr)] == BlocksFor(a.size)
  }

  /** Heap block h lies inside allocation a. */
  ghost predicate Inside(a: Allocation, h: nat) {
    a.ptr >= HEAP_ADDRESS && BlockOf(a.ptr) <= h < BlockOf(a.ptr) + BlocksFor(a.size)
  }

  /** Block h belongs to a live allocation of process p. */
  ghost predicate Owns(s: State, p: nat, h: nat)
    requires Shape(s)
  {
    exists i :: Live(s, p, i) && Inside(At(s, p, i), h)
  }

  /** The page of heap block h is identity-mapped, writable exactly when the process owns the block, and then the
      process can use it. */
  ghost predicate PageOk(s: State, p: nat, h: nat)
    requires Shape(s) && p < |s.procs| && h < HEAP_BLOCKS
  {
    var e := HeapEntry(s, p, h);
    && e / PAGE_SIZE == HEAP_PAGE + h
    && (Writeable(e) <==> Owns(s, p, h))
    && (Owns(s, p, h) ==> e % PAGE_SIZE == USER_RW)
  }

  ghost function HeapEntry(s: State, p: nat, h: nat): uint32
    requires Shape(s) && p < |s.procs| && h < HEAP_BLOCKS
  {
    s.procs[p].pages[HEAP_PAGE + h]
  }

  ghost predicate DistinctPointers(s: State)
    requires Shape(s)
  {
    forall p, i, q, j :: Live(s, p, i) && Live(s, q, j) && At(s, p, i).ptr == At(s, q, j).ptr ==> p == q && i == j
  }

  /** Unused slots of the allocation tables are cleared. */
  ghost predicate CleanSlots(s: State)
    requires Shape(s)
  {
    forall p, i :: 0 <= p < |s.procs| && 0 <= i < MAX_ALLOCATIONS && s.procs[p].allocs[i].ptr == 0 ==>
      s.procs[p].allocs[i] == Allocation(0, 0)
  }

  ghost predicate Inv(s: State) {
    && Shape(s)
    && WellFormed(s.table)
    && CleanSlots(s)
    && (forall p, i :: Live(s, p, i) ==> IsRun(Runs(s.table), At(s, p, i)))
    && DistinctPointers(s)
    && (forall p, h :: 0 <= p < |s.procs| && 0 <= h < HEAP_BLOCKS ==> PageOk(s, p, h))
  }

  /** A heap block lies in at most one live allocation of at most one process. */
  lemma LiveAllocationsAreDisjoint(s: State, p: nat, i: nat, q: nat, j: nat, h: nat)
    requires Inv(s) && Live(s, p, i) && Live(s, q, j)
    requires Inside(At(s, p, i), h) && Inside(At(s, q, j), h)
    ensures p == q && i == j
  {
    var a, b := At(s, p, i), At(s, q, j);
    assert IsRun(Runs(s.table), a) && IsRun(Runs(s.table), b);
    RunsAreTaken(s.table, BlockOf(a.ptr), h);
    RunsPartitionTakenBlocks(s.table, h);
    assert InRun(Runs(s.table), BlockOf(a.ptr), h) && InRun(Runs(s.table), BlockOf(b.ptr), h);
    assert BlockOf(a.ptr) == BlockOf(b.ptr);
    assert a.ptr == b.ptr;
  }

  /** No heap page is writable in two processes. */
  lemma NoSharedWritablePage(s: State, p: nat, q: nat, h: nat)
    requires Inv(s) && p < |s.procs| && q < |s.procs| && h < HEAP_BLOCKS
    requires Writeable(HeapEntry(s, p, h)) && Writeable(HeapEntry(s, q, h))
    ensures p == q
  {
    assert PageOk(s, p, h) && PageOk(s, q, h);
    hide WellFormed;
    var i :| Live(s, p, i) && Inside(At(s, p, i), h);
    var j :| Live(s, q, j) && Inside(At(s, q, j), h);
    LiveAllocationsAreDisjoint(s, p, i, q, j, h);
  }

  // ---------- The page span of an allocation is its heap run ----------

  /** heap_align_val and paging_align_address round an allocation in the heap to the same end. */
  lemma {:induction false} RoundingsAgree(b: nat, size: uint32)
    requires 0 < size <= 0xFFFF_F000 && b + BlocksFor(size) <= HEAP_BLOCKS
    ensures PhysEnd(BlockAddr(b), size) == BlockAddr(b) + BlocksFor(size) * PAGE_SIZE
    ensures PageCount(BlockAddr(b), PhysEnd(BlockAddr(b), size)) == BlocksFor(size) > 0
    ensures BlockAddr(b) / PAGE_SIZE == HEAP_PAGE + b && BlockAddr(b) % PAGE_SIZE == 0
  {
    var x, n := BlockAddr(b), BlocksFor(size);
    assert x == (HEAP_PAGE + b) * PAGE_SIZE;
    assert AlignVal(size) == n * PAGE_SIZE;
    assert x + AlignVal(size) <= 0x1000_0000 && 0 < AlignVal(size);
    AlignUpShift(HEAP_PAGE + b, size);
  }

  lemma AlignUpShift(p: Frame, size: uint32)
    requires size <= 0xFFFF_F000 && p * PAGE_SIZE + AlignVal(size) < 0x1_0000_0000
    ensures AlignUp(Wrap(p * PAGE_SIZE + size)) == p * PAGE_SIZE + AlignVal(size)
  {
    var k, r := size / PAGE_SIZE, size % PAGE_SIZE;
    assert size == k * PAGE_SIZE + r;
    assert Wrap(p * PAGE_SIZE + size) == (p + k) * PAGE_SIZE + r;
    assert ((p + k) * PAGE_SIZE + r) % PAGE_SIZE == r;
  }

  /** The pages of heap blocks [b, b + n) identity-mapped with these flags. */
  ghost function Remap(pages: seq<uint32>, b: nat, n: nat, flags: nat): (r: seq<uint32>)
    requires |pages| == PAGES && flags < PAGE_SIZE
    ensures |r| == PAGES
  {
    seq(PAGES, p requires 0 <= p < PAGES => if HEAP_PAGE + b <= p < HEAP_PAGE + b + n then EntryOf(p, flags) else pages[p])
  }

  /** So the paging_map_to calls of process_malloc and process_free remap exactly the blocks of the run. */
  lemma SpanIsRun(pages: seq<uint32>, b: nat, size: uint32, flags: nat)
    requires |pages| == PAGES && flags < PAGE_SIZE
    requires 0 < size <= 0xFFFF_F000 && b + BlocksFor(size) <= HEAP_BLOCKS
    ensures MapTo(pages, BlockAddr(b), BlockAddr(b), PhysEnd(BlockAddr(b), size), flags)
         == (Remap(pages, b, BlocksFor(size), flags), 0)
  {
    RoundingsAgree(b, size);
    var n := BlocksFor(size);
    assert MapPages(pages, HEAP_PAGE + b, HEAP_PAGE + b, n, flags) == Remap(pages, b, n, flags);
  }

  // ---------- The operations ----------

  /** `process_malloc`: the new state and the returned pointer. */
  ghost function Malloc(s: State, p: nat, size: uint32): (State, uint32)
    requires Shape(s) && p < |s.procs| && Serviceable(s.table, size)
  {
    var proc, n := s.procs[p], BlocksFor(size);
    var b, slot := FirstFit(s.table, n, 0), FindSlot(proc.allocs, 0, 0);
    if b == -1 || slot == -1 then (s, 0)
    else
      var proc' := proc.(allocs := proc.allocs[slot := Allocation(BlockAddr(b), size)],
                         pages := Remap(proc.pages, b, n, USER_RW));
      (State(Taken(s.table, b, n), s.procs[p := proc']), BlockAddr(b))
  }

  /** `process_free`: nothing unless the process owns the pointer. A null pointer matches an unused slot, whose span is
      empty; what freeing it does to the memory before the heap table is no part of the state. */
  ghost function Free(s: State, p: nat, ptr: uint32): State
    requires Inv(s) && p < |s.procs|
  {
    var proc := s.procs[p];
    var slot := FindSlot(proc.allocs, ptr, 0);
    if ptr == 0 || slot == -1 then s
    else
      assert Live(s, p, slot) && IsRun(Runs(s.table), At(s, p, slot));
      var b, n := BlockOf(ptr), BlocksFor(proc.allocs[slot].size);
      State(Freed(s.table, b, |s.table|),
            s.procs[p := proc.(allocs := Dropped(proc.allocs, ptr), pages := Remap(proc.pages, b, n, 0))])
  }

  /** A process whose directory identity-maps the heap without write permission and which owns nothing. What the
      other pages hold, its program and stack for instance, does not matter. */
  ghost predicate FreshProc(proc: Proc) {
    && |proc.allocs| == MAX_ALLOCATIONS && |proc.pages| == PAGES
    && (forall i :: 0 <= i < MAX_ALLOCATIONS ==> proc.allocs[i] == Allocation(0, 0))
    && (forall p :: HEAP_PAGE <= p < HEAP_PAGE + HEAP_BLOCKS ==>
          proc.pages[p] / PAGE_SIZE == p && !Writeable(proc.pages[p]))
  }

  /** Malloc adds at most one live entry, the new block; all others stay as they are. */
  lemma MallocLive(s: State, p: nat, size: uint32, q: nat, i: nat)
    requires Inv(s) && p < |s.procs| && Serviceable(s.table, size)
    ensures var s', b := Malloc(s, p, size).0, FirstFit(s.table, BlocksFor(size), 0);
      Live(s', q, i) ==> (Live(s, q, i) && At(s', q, i) == At(s, q, i)) || (b != -1 && At(s', q, i).ptr == BlockAddr(b))
  {
  }

  /** Free adds no live entry and changes none. */
  lemma FreeLive(s: State, p: nat, ptr: uint32, q: nat, i: nat)
    requires Inv(s) && p < |s.procs|
    ensures Live(Free(s, p, ptr), q, i) ==> Live(s, q, i) && At(Free(s, p, ptr), q, i) == At(s, q, i)
  {
  }

  // ---------- Every operation keeps the invariant ----------

  lemma MallocKeepsInv(s: State, p: nat, size: uint32)
    requires Inv(s) && p < |s.procs| && Serviceable(s.table, size)
    ensures Inv(Malloc(s, p, size).0)
  {
    var b, slot, n := FirstFit(s.table, BlocksFor(size), 0), FindSlot(s.procs[p].allocs, 0, 0), BlocksFor(size);
    if b != -1 && slot != -1 {
      FirstFitIsLowest(s.table, n, 0);
      TakenAddsRun(s.table, b, n);
      NewAllocation(s, Malloc(s, p, size).0, p, slot, b, size);
    }
  }

  /** A request fails exactly when no n free blocks lie together or no slot is unused. Otherwise it is recorded in a slot
      that was unused, for blocks that nobody owned, each at a page of its own that the process can write; and nothing
      else of any process changes. */
  lemma MallocDelivers(s: State, p: nat, size: uint32)
    requires Inv(s) && p < |s.procs| && Serviceable(s.table, size)
    ensures var n := BlocksFor(size);
      Malloc(s, p, size).1 == 0 <==>
      (forall b :: !FreeRun(s.table, b, n)) || (forall i :: 0 <= i < MAX_ALLOCATIONS ==> Live(s, p, i))
    ensures Malloc(s, p, size).1 == 0 ==> Malloc(s, p, size).0 == s
    ensures Malloc(s, p, size).1 != 0 ==>
      Inv(Malloc(s, p, size).0) && Delivered(s, Malloc(s, p, size).0, p, Malloc(s, p, size).1, size)
  {
    hide Taken, BlocksFor, PageOk, WellFormed, IsRun;
    var n, b, slot := BlocksFor(size), FirstFit(s.table, BlocksFor(size), 0), FindSlot(s.procs[p].allocs, 0, 0);
    FirstFitIsLowest(s.table, n, 0);
    SlotIsLowest(s.procs[p].allocs, 0, 0);
    if b != -1 && slot != -1 {
      MallocKeepsInv(s, p, size);
      assert Live(Malloc(s, p, size).0, p, slot) && !Live(s, p, slot);
      forall q, h | 0 <= q < |s.procs| && Inside(Allocation(BlockAddr(b), size), h)
        ensures !Owns(s, q, h)
      {
        BlockRoundTrip(b);
        FreeIsNotOwned(s, q, h);
      }
    }
  }

  /** State s' is s with the allocation of `size` bytes at ptr added to process p. */
  ghost predicate Delivered(s: State, s': State, p: nat, ptr: uint32, size: uint32)
    requires Shape(s) && Shape(s') && p < |s.procs|
  {
    var a := Allocation(ptr, size);
    && |s'.procs| == |s.procs|
    && (exists i: nat :: Live(s', p, i) && !Live(s, p, i) && s'.procs[p].allocs == s.procs[p].allocs[i := a])
    && (forall x: Frame :: !(x >= HEAP_PAGE && Inside(a, x - HEAP_PAGE)) ==> s'.procs[p].pages[x] == s.procs[p].pages[x])
    && s'.procs[p].blocks == s.procs[p].blocks && s'.procs[p].held == s.procs[p].held
    && (forall q, h :: 0 <= q < |s.procs| && Inside(a, h) ==> !Owns(s, q, h))
    && (forall q :: 0 <= q < |s.procs| && q != p ==> s'.procs[q] == s.procs[q])
  }

  lemma {:induction false} SlotIsLowest(allocs: seq<Allocation>, ptr: uint32, i: nat)
    requires i <= |allocs|
    ensures var slot := FindSlot(allocs, ptr, i);
      if slot == -1 then forall j :: i <= j < |allocs| ==> allocs[j].ptr != ptr
      else i <= slot < |allocs| && allocs[slot].ptr == ptr && forall j :: i <= j < slot ==> allocs[j].ptr != ptr
    decreases |allocs| - i
  {
    if i < |allocs| && allocs[i].ptr != ptr {
      SlotIsLowest(allocs, ptr, i + 1);
    }
  }

  lemma FreeIsNotOwned(s: State, p: nat, h: nat)
    requires Inv(s) && p < |s.procs| && h < HEAP_BLOCKS && IsFree(s.table[h])
    ensures !Owns(s, p, h)
  {
    hide WellFormed, PageOk;
    if i :| Live(s, p, i) && Inside(At(s, p, i), h) {
      assert IsRun(Runs(s.table), At(s, p, i));
      RunsAreTaken(s.table, BlockOf(At(s, p, i).ptr), h);
      assert false;
    }
  }

  /** Every byte of a live allocation is at the address it names, in a page that the process can write. */
  lemma AllocationIsUsable(s: State, p: nat, i: nat, a: uint32)
    requires Inv(s) && Live(s, p, i) && At(s, p, i).ptr <= a < At(s, p, i).ptr + At(s, p, i).size
    ensures HEAP_PAGE <= a / PAGE_SIZE < HEAP_PAGE + HEAP_BLOCKS && Owns(s, p, a / PAGE_SIZE - HEAP_PAGE)
    ensures Translate(s.procs[p].pages, a) == a && Writeable(s.procs[p].pages[a / PAGE_SIZE])
  {
    var x := At(s, p, i);
    assert IsRun(Runs(s.table), x);
    assert x.size <= BlocksFor(x.size) * BLOCK_SIZE;
    var h := a / PAGE_SIZE - HEAP_PAGE;
    RunsAreTaken(s.table, BlockOf(x.ptr), h) by {
      assert RunLength(s.table, BlockOf(x.ptr)) == BlocksFor(x.size);
    }
    assert Inside(x, h);
    assert PageOk(s, p, h);
  }

  /** Adding a run, its allocation-table entry and its page span together keeps the invariant. */
  lemma NewAllocation(s: State, s': State, p: nat, slot: nat, b: nat, size: uint32)
    requires Inv(s) && Shape(s') && p < |s.procs| && slot < MAX_ALLOCATIONS && !Live(s, p, slot)
    requires 0 < size <= 0xFFFF_F000 && b + BlocksFor(size) <= HEAP_BLOCKS && FreeRun(s.table, b, BlocksFor(size))
    requires WellFormed(s'.table) && Runs(s'.table) == Runs(s.table)[b := BlocksFor(size)]
    requires s'.procs == s.procs[p := s.procs[p].(
               allocs := s.procs[p].allocs[slot := Allocation(BlockAddr(b), size)],
               pages := Remap(s.procs[p].pages, b, BlocksFor(size), USER_RW))]
    ensures Inv(s')
  {
    var a := Allocation(BlockAddr(b), size);
    assert b !in Runs(s.table) by {
      assert IsFree(s.table[b]) && BlockOk(s.table, b);
    }
    assert IsRun(Runs(s'.table), a);
    hide WellFormed, Runs, FreeRun, BlocksFor;
    assert Added(s, s', p, slot, a);
    NewPointer(s, s', p, slot, a, b);
    forall q: nat, h: nat | q < |s'.procs| && h < HEAP_BLOCKS ensures PageOk(s', q, h) {
      PageAfterMalloc(s, s', p, slot, a, b, q, h);
    }
  }

  lemma PageAfterMalloc(s: State, s': State, p: nat, slot: nat, a: Allocation, b: nat, q: nat, h: nat)
    requires Shape(s) && Shape(s') && Added(s, s', p, slot, a) && q < |s.procs| && h < HEAP_BLOCKS && PageOk(s, q, h)
    requires b < HEAP_BLOCKS && a.ptr == BlockAddr(b)
    requires s'.procs[q].pages == if q == p then Remap(s.procs[p].pages, b, BlocksFor(a.size), USER_RW) else s.procs[q].pages
    ensures PageOk(s', q, h)
  {
    hide BlocksFor, Added, Shape, Writeable;
    OwnsAfterMalloc(s, s', p, slot, a, q, h);
    BlockRoundTrip(b);
    EntryFields(HEAP_PAGE + h, USER_RW);
    hide EntryOf, BlockOf, BlockAddr;
  }

  lemma BlockRoundTrip(b: nat)
    requires b <= HEAP_BLOCKS
    ensures BlockOf(BlockAddr(b)) == b
  {
  }

  lemma EntryFields(x: Frame, flags: nat)
    requires flags < 8
    ensures EntryOf(x, flags) / PAGE_SIZE == x && EntryOf(x, flags) % PAGE_SIZE == flags
    ensures Writeable(EntryOf(x, flags)) <==> flags == 7
  {
    EntryParts(x, flags);
    WriteableFlag(EntryOf(x, flags), flags);
  }

  /** The live entries of s' are those of s and a in the given slot. */
  ghost predicate Added(s: State, s': State, p: nat, slot: nat, a: Allocation)
    requires Shape(s) && Shape(s')
  {
    && |s'.procs| == |s.procs| && p < |s.procs| && slot < MAX_ALLOCATIONS && !Live(s, p, slot)
    && forall q, j ::
         && (Live(s', q, j) <==> Live(s, q, j) || (q == p && j == slot))
         && (Live(s', q, j) ==> At(s', q, j) == if q == p && j == slot then a else At(s, q, j))
  }

  lemma NewPointer(s: State, s': State, p: nat, slot: nat, a: Allocation, b: nat)
    requires Inv(s) && Shape(s') && Added(s, s', p, slot, a)
    requires b !in Runs(s.table) && b < HEAP_BLOCKS && a.ptr == BlockAddr(b) && IsRun(Runs(s'.table), a)
    requires Runs(s'.table) == Runs(s.table)[b := BlocksFor(a.size)]
    ensures forall q, j :: Live(s', q, j) ==> IsRun(Runs(s'.table), At(s', q, j))
    ensures DistinctPointers(s')
  {
    hide WellFormed, Runs, BlocksFor, PageOk;
    assert BlockOf(a.ptr) == b;
    forall q, j | Live(s, q, j)
      ensures At(s, q, j).ptr != a.ptr && IsRun(Runs(s'.table), At(s, q, j))
    {
      assert IsRun(Runs(s.table), At(s, q, j));
    }
  }

  lemma OwnsAfterMalloc(s: State, s': State, p: nat, slot: nat, a: Allocation, q: nat, h: nat)
    requires Shape(s) && Shape(s') && Added(s, s', p, slot, a)
    ensures Owns(s', q, h) <==> Owns(s, q, h) || (q == p && Inside(a, h))
  {
    if q == p && Inside(a, h) { assert Live(s', q, slot) && Inside(At(s', q, slot), h); }
    if Owns(s, q, h) {
      var i :| Live(s, q, i) && Inside(At(s, q, i), h);
      assert Live(s', q, i) && Inside(At(s', q, i), h);
    }
  }

  lemma FreeKeepsInv(s: State, p: nat, ptr: uint32)
    requires Inv(s) && p < |s.procs|
    ensures Inv(Free(s, p, ptr))
  {
    var slot := FindSlot(s.procs[p].allocs, ptr, 0);
    if ptr != 0 && slot != -1 {
      assert Live(s, p, slot) && IsRun(Runs(s.table), At(s, p, slot));
      FreedRemovesRun(s.table, BlockOf(ptr));
      OldAllocation(s, Free(s, p, ptr), p, slot);
    }
  }

  /** Freeing a recorded pointer clears its slot, frees its blocks and takes their pages away; a pointer that is not
      recorded, or null, changes nothing. */
  lemma FreeTakesBack(s: State, p: nat, ptr: uint32)
    requires Inv(s) && p < |s.procs|
    ensures ptr == 0 || (forall i :: 0 <= i < MAX_ALLOCATIONS ==> At(s, p, i).ptr != ptr) ==> Free(s, p, ptr) == s
    ensures forall i :: Live(s, p, i) && At(s, p, i).ptr == ptr ==>
              Inv(Free(s, p, ptr)) && TakenBack(s, Free(s, p, ptr), p, i)
  {
    SlotIsLowest(s.procs[p].allocs, ptr, 0);
    var slot := FindSlot(s.procs[p].allocs, ptr, 0);
    assert slot != -1 ==> At(s, p, slot).ptr == ptr;
    forall i | Live(s, p, i) && At(s, p, i).ptr == ptr
      ensures Inv(Free(s, p, ptr)) && TakenBack(s, Free(s, p, ptr), p, i)
    {
      FreeKeepsInv(s, p, ptr);
      FreeTakesSlotBack(s, p, i);
    }
  }

  /** State s' is s with the allocation in slot i of process p taken back. */
  ghost predicate TakenBack(s: State, s': State, p: nat, i: nat)
    requires Shape(s) && Shape(s') && Live(s, p, i)
  {
    var a := At(s, p, i);
    && |s'.procs| == |s.procs| && s'.procs[p].allocs == s.procs[p].allocs[i := Allocation(0, 0)]
    && (forall h :: 0 <= h < HEAP_BLOCKS ==> s'.table[h] == if Inside(a, h) then FREE else s.table[h])
    && (forall h :: 0 <= h < HEAP_BLOCKS && Inside(a, h) ==> !Usable(HeapEntry(s', p, h)))
    && (forall x: Frame :: !(x >= HEAP_PAGE && Inside(a, x - HEAP_PAGE)) ==> s'.procs[p].pages[x] == s.procs[p].pages[x])
    && s'.procs[p].blocks == s.procs[p].blocks && s'.procs[p].held == s.procs[p].held
    && (forall q :: 0 <= q < |s.procs| && q != p ==> s'.procs[q] == s.procs[q])
  }

  lemma FreeTakesSlotBack(s: State, p: nat, i: nat)
    requires Inv(s) && Live(s, p, i) && Inv(Free(s, p, At(s, p, i).ptr))
    ensures TakenBack(s, Free(s, p, At(s, p, i).ptr), p, i)
  {
    hide WellFormed, PageOk, BlocksFor, Usable, Freed, Dropped;
    var a, s' := At(s, p, i), Free(s, p, At(s, p, i).ptr);
    SlotIsLowest(s.procs[p].allocs, a.ptr, 0);
    assert Live(s, p, FindSlot(s.procs[p].allocs, a.ptr, 0));
    assert IsRun(Runs(s.table), a);
    var b := BlockOf(a.ptr);
    DroppedIsOneSlot(s, p, i);
    forall h | 0 <= h < HEAP_BLOCKS
      ensures s'.table[h] == if Inside(a, h) then FREE else s.table[h]
      ensures Inside(a, h) ==> !Usable(HeapEntry(s', p, h))
    {
      FreedClearsRun(s.table, b, h);
      NoFlags(HEAP_PAGE + h);
    }
  }

  lemma DroppedIsOneSlot(s: State, p: nat, i: nat)
    requires Shape(s) && DistinctPointers(s) && Live(s, p, i)
    ensures Dropped(s.procs[p].allocs, At(s, p, i).ptr) == s.procs[p].allocs[i := Allocation(0, 0)]
  {
    var allocs, ptr := s.procs[p].allocs, At(s, p, i).ptr;
    forall j | 0 <= j < MAX_ALLOCATIONS
      ensures Dropped(allocs, ptr)[j] == allocs[i := Allocation(0, 0)][j]
    {
      assert allocs[j].ptr == ptr ==> Live(s, p, j) && At(s, p, j).ptr == At(s, p, i).ptr;
    }
  }

  lemma NoFlags(x: Frame)
    ensures !Usable(EntryOf(x, 0))
  {
    EntryParts(x, 0);
    SameFlagsAllow(EntryOf(x, 0), 0);
  }

  /** Removing a run, its allocation-table entry and its page span together keeps the invariant. */
  lemma OldAllocation(s: State, s': State, p: nat, slot: nat)
    requires Inv(s) && Shape(s') && Live(s, p, slot) && IsRun(Runs(s.table), At(s, p, slot))
    requires WellFormed(s'.table) && Runs(s'.table) == Runs(s.table) - {BlockOf(At(s, p, slot).ptr)}
    requires s'.procs == s.procs[p := s.procs[p].(
               allocs := Dropped(s.procs[p].allocs, At(s, p, slot).ptr),
               pages := Remap(s.procs[p].pages, BlockOf(At(s, p, slot).ptr), BlocksFor(At(s, p, slot).size), 0))]
    ensures Inv(s')
  {
    hide WellFormed, Runs, BlocksFor, PageOk;
    var a := At(s, p, slot);
    assert Removed(s, s', p, slot);
    forall q, j | Live(s', q, j) ensures IsRun(Runs(s'.table), At(s', q, j)) {
      assert IsRun(Runs(s.table), At(s, q, j));
    }
    forall q: nat, h: nat | q < |s'.procs| && h < HEAP_BLOCKS ensures PageOk(s', q, h) {
      assert PageOk(s, q, h);
      PageAfterFree(s, s', p, slot, q, h);
    }
  }

  /** The live entries of s' are those of s except the one in the given slot. */
  ghost predicate Removed(s: State, s': State, p: nat, slot: nat)
    requires Shape(s) && Shape(s')
  {
    && |s'.procs| == |s.procs|
    && forall q, j ::
         && (Live(s', q, j) <==> Live(s, q, j) && !(q == p && j == slot))
         && (Live(s', q, j) ==> At(s', q, j) == At(s, q, j))
  }

  lemma PageAfterFree(s: State, s': State, p: nat, slot: nat, q: nat, h: nat)
    requires Inv(s) && Shape(s') && Live(s, p, slot) && Removed(s, s', p, slot)
    requires At(s, p, slot).ptr >= HEAP_ADDRESS && q < |s.procs| && h < HEAP_BLOCKS && PageOk(s, q, h)
    requires s'.procs[q].pages == if q == p then Remap(s.procs[p].pages, BlockOf(At(s, p, slot).ptr),
                                                       BlocksFor(At(s, p, slot).size), 0) else s.procs[q].pages
    ensures PageOk(s', q, h)
  {
    OwnsAfterFree(s, s', p, slot, q, h);
    EntryFields(HEAP_PAGE + h, 0);
    hide Inv, BlocksFor, Removed, Writeable, EntryOf;
  }

  lemma OwnsAfterFree(s: State, s': State, p: nat, slot: nat, q: nat, h: nat)
    requires Inv(s) && Shape(s') && Live(s, p, slot) && Removed(s, s', p, slot)
    ensures Owns(s', q, h) <==> Owns(s, q, h) && !(q == p && Inside(At(s, p, slot), h))
  {
    if Owns(s, q, h) {
      var i :| Live(s, q, i) && Inside(At(s, q, i), h);
      if Inside(At(s, p, slot), h) { LiveAllocationsAreDisjoint(s, p, slot, q, i, h); }
      assert !(q == p && i == slot) ==> Live(s', q, i) && Inside(At(s', q, i), h);
    }
    if Owns(s', q, h) {
      var i :| Live(s', q, i) && Inside(At(s', q, i), h);
      assert Live(s, q, i) && Inside(At(s, q, i), h);
      if Inside(At(s, p, slot), h) { LiveAllocationsAreDisjoint(s, p, slot, q, i, h); }
    }
  }

  // ---------- Giving back everything a process holds ----------

  /** Frees what the slots of process p from i on hold. */
  ghost function FreeFrom(s: State, p: nat, i: nat): State
    requires Inv(s) && p < |s.procs| && i <= MAX_ALLOCATIONS
    decreases MAX_ALLOCATIONS - i
  {
    if i == MAX_ALLOCATIONS then s
    else
      FreeKeepsInv(s, p, s.procs[p].allocs[i].ptr);
      FreeFrom(Free(s, p, s.procs[p].allocs[i].ptr), p, i + 1)
  }

  lemma FreeOfSlot(s: State, p: nat, i: nat)
    requires Inv(s) && Live(s, p, i)
    ensures var s' := Free(s, p, At(s, p, i).ptr);
      && Inv(s') && |s'.procs| == |s.procs|
      && (forall q :: 0 <= q < |s.procs| && q != p ==> s'.procs[q] == s.procs[q])
      && (forall q, j :: Live(s', q, j) <==> Live(s, q, j) && !(q == p && j == i))
      && Runs(s'.table) == Runs(s.table) - {BlockOf(At(s, p, i).ptr)}
  {
    var ptr := At(s, p, i).ptr;
    FreeKeepsInv(s, p, ptr);
    assert IsRun(Runs(s.table), At(s, p, i));
    var slot := FindSlot(s.procs[p].allocs, ptr, 0);
    assert Live(s, p, slot) && At(s, p, slot).ptr == ptr;
    assert slot == i;
    FreedRemovesRun(s.table, BlockOf(ptr));
  }

  /** Afterwards the process owns nothing and no heap page is writable in it, and every other process is as
      it was. */
  lemma {:induction false} FreeFromLeavesNothing(s: State, p: nat, i: nat)
    requires Inv(s) && p < |s.procs| && i <= MAX_ALLOCATIONS
    requires forall j :: 0 <= j < i ==> !Live(s, p, j)
    ensures var s' := FreeFrom(s, p, i);
      && Inv(s') && |s'.procs| == |s.procs|
      && (forall j :: !Live(s', p, j))
      && (forall h :: 0 <= h < HEAP_BLOCKS ==> !Writeable(HeapEntry(s', p, h)))
      && (forall q :: 0 <= q < |s.procs| && q != p ==> s'.procs[q] == s.procs[q])
    decreases MAX_ALLOCATIONS - i
  {
    if i == MAX_ALLOCATIONS {
      forall h | 0 <= h < HEAP_BLOCKS ensures !Writeable(HeapEntry(s, p, h)) {
        assert PageOk(s, p, h);
      }
    } else if s.procs[p].allocs[i].ptr == 0 {
      FreeFromLeavesNothing(s, p, i + 1);
    } else {
      FreeOfSlot(s, p, i);
      hide Inv, Runs, Free;
      FreeFromLeavesNothing(Free(s, p, At(s, p, i).ptr), p, i + 1);
    }
  }

  /** The process's allocation starts at block b. */
  ghost predicate StartsAt(s: State, p: nat, b: nat)
    requires Shape(s)
  {
    exists j :: Live(s, p, j) && At(s, p, j).ptr >= HEAP_ADDRESS && BlockOf(At(s, p, j).ptr) == b
  }

  /** And exactly the process's own runs have left the heap. */
  lemma {:induction false} FreeFromRemovesOwnRuns(s: State, p: nat, i: nat, b: nat)
    requires Inv(s) && p < |s.procs| && i <= MAX_ALLOCATIONS
    requires forall j :: 0 <= j < i ==> !Live(s, p, j)
    ensures Inv(FreeFrom(s, p, i))
    ensures b in Runs(FreeFrom(s, p, i).table) <==> b in Runs(s.table) && !StartsAt(s, p, b)
    decreases MAX_ALLOCATIONS - i
  {
    hide WellFormed, Runs;
    if i == MAX_ALLOCATIONS {
    } else if s.procs[p].allocs[i].ptr == 0 {
      FreeFromRemovesOwnRuns(s, p, i + 1, b);
    } else {
      var s1 := Free(s, p, At(s, p, i).ptr);
      FreeOfSlot(s, p, i);
      StartsAtAfterFree(s, s1, p, i, b);
      FreeFromRemovesOwnRuns(s1, p, i + 1, b);
    }
  }

  lemma StartsAtAfterFree(s: State, s1: State, p: nat, i: nat, b: nat)
    requires Inv(s) && Live(s, p, i) && s1 == Free(s, p, At(s, p, i).ptr) && Shape(s1)
    ensures At(s, p, i).ptr >= HEAP_ADDRESS
    ensures StartsAt(s, p, b) <==> StartsAt(s1, p, b) || b == BlockOf(At(s, p, i).ptr)
  {
    assert IsRun(Runs(s.table), At(s, p, i));
    FreeOfSlot(s, p, i);
    forall j ensures Live(s1, p, j) ==> At(s1, p, j) == At(s, p, j) {
      FreeLive(s, p, At(s, p, i).ptr, p, j);
    }
    hide Inv, Free, Runs, IsRun;
    if StartsAt(s, p, b) {
      var j :| Live(s, p, j) && At(s, p, j).ptr >= HEAP_ADDRESS && BlockOf(At(s, p, j).ptr) == b;
      assert j != i ==> Live(s1, p, j);
    }
    if StartsAt(s1, p, b) {
      var j :| Live(s1, p, j) && At(s1, p, j).ptr >= HEAP_ADDRESS && BlockOf(At(s1, p, j).ptr) == b;
      assert Live(s, p, j);
    }
  }

  // ---------- Other changes ----------

  lemma TableChangeKeepsInv(s: State, table: seq<bv8>)
    requires Inv(s) && |table| == HEAP_BLOCKS && WellFormed(table)
    requires forall p, i :: Live(s, p, i) && IsRun(Runs(s.table), At(s, p, i)) ==>
               BlockOf(At(s, p, i).ptr) in Runs(table)
               && Runs(table)[BlockOf(At(s, p, i).ptr)] == Runs(s.table)[BlockOf(At(s, p, i).ptr)]
    ensures Inv(s.(table := table))
  {
    var s' := s.(table := table);
    forall p, i ensures Live(s', p, i) <==> Live(s, p, i)
      ensures Live(s, p, i) ==> At(s', p, i) == At(s, p, i) && IsRun(Runs(table), At(s', p, i))
    {
      if Live(s, p, i) { assert IsRun(Runs(s.table), At(s, p, i)); }
    }
    forall p: nat, h: nat | p < |s'.procs| && h < HEAP_BLOCKS ensures PageOk(s', p, h) {
      assert PageOk(s, p, h);
      SameOwner(s, s', p, h);
    }
  }

  lemma SameOwner(s: State, s': State, p: nat, h: nat)
    requires Shape(s) && Shape(s')
    requires forall i :: Live(s', p, i) <==> Live(s, p, i)
    requires p < |s.procs| && p < |s'.procs|
    requires forall i :: Live(s, p, i) ==> At(s', p, i) == At(s, p, i)
    ensures Owns(s', p, h) <==> Owns(s, p, h)
  {
    if Owns(s, p, h) {
      var i :| Live(s, p, i) && Inside(At(s, p, i), h);
      assert Live(s', p, i);
    }
    if Owns(s', p, h) {
      var i :| Live(s', p, i) && Inside(At(s', p, i), h);
      assert Live(s, p, i);
    }
  }

  lemma SpawnKeepsInv(s: State, proc: Proc)
    requires Inv(s) && FreshProc(proc)
    ensures Inv(s.(procs := s.procs + [proc]))
  {
    var s' := s.(procs := s.procs + [proc]);
    forall p, i ensures Live(s', p, i) <==> Live(s, p, i)
      ensures Live(s, p, i) ==> At(s', p, i) == At(s, p, i) && IsRun(Runs(s.table), At(s', p, i))
    {
      if Live(s, p, i) { assert IsRun(Runs(s.table), At(s, p, i)); }
    }
    forall p: nat, h: nat | p < |s'.procs| && h < HEAP_BLOCKS ensures PageOk(s', p, h) {
      if p < |s.procs| {
        assert PageOk(s, p, h);
        SameOwner(s, s', p, h);
      }
    }
  }

  /** The kernel starts with an empty heap and no process. */
  lemma InitialInv()
    ensures Inv(State(seq(HEAP_BLOCKS, _ => FREE), []))
  {
    FreshTableIsEmpty(HEAP_BLOCKS);
  }

  // ---------- Requests of every size ----------

  /** What `process_malloc` does for any request to heap table, allocation table and entries, whatever the search
      answers. (Behind the table, an answer that is too short tags bytes of other memory; and for sizes that wrap,
      `kzalloc` clears memory far beyond the block.) */
  ghost function MallocAny(s: State, p: nat, size: uint32): (State, uint32)
    requires Shape(s) && p < |s.procs|
  {
    var proc, n, b := s.procs[p], BlocksFor(size), StartBlock(s.table, BlocksFor(size));
    if b < 0 then (s, 0)
    else
      var slot, ptr, table := FindSlot(proc.allocs, 0, 0), BlockAddr(b), Taken(s.table, b, n);
      if slot == -1 then (s.(table := Freed(table, b, |table|)), 0)
      else
        var mapped := MapTo(proc.pages, ptr, ptr, PhysEnd(ptr, size), USER_RW);
        if mapped.1 < 0 then
          (State(Freed(table, b, |table|), s.procs[p := proc.(pages := mapped.0)]), 0)
        else
          var allocs := proc.allocs[slot := Allocation(ptr, size)];
          (State(table, s.procs[p := proc.(allocs := allocs, pages := mapped.0)]), ptr)
  }

  /** When the answer is long enough, and for sizes a block is really taken for, this is `Malloc`. */
  lemma MallocAnyIsMalloc(s: State, p: nat, size: uint32)
    requires Inv(s) && p < |s.procs| && 0 < size <= 0xFFFF_F000
    requires StartBlock(s.table, BlocksFor(size)) + BlocksFor(size) <= |s.table| || StartBlock(s.table, BlocksFor(size)) < 0
    ensures Serviceable(s.table, size) && MallocAny(s, p, size) == Malloc(s, p, size)
  {
    var n, b, first := BlocksFor(size), StartBlock(s.table, BlocksFor(size)), FirstFit(s.table, BlocksFor(size), 0);
    FirstFitIsLowest(s.table, n, 0);
    assert n > 0;
    if b >= 0 {
      assert first == -1 ==> FreeRun(s.table, b, n);
      assert first == b;
      SpanIsRun(s.procs[p].pages, b, size, USER_RW);
      MallocThenFreeRestores(s.table, b, n);
    }
  }

  /** The other sizes leave table and pages alone. */
  lemma NothingIsMapped(s: State, p: nat, size: uint32, b: nat)
    requires Inv(s) && p < |s.procs| && !(0 < size <= 0xFFFF_F000) && b < HEAP_BLOCKS && IsFree(s.table[b])
    ensures BlocksFor(size) == 0 && Taken(s.table, b, 0) == s.table && Freed(s.table, b, |s.table|) == s.table
    ensures MapTo(s.procs[p].pages, BlockAddr(b), BlockAddr(b), PhysEnd(BlockAddr(b), size), USER_RW)
         == (s.procs[p].pages, 0)
  {
    assert BlockOk(s.table, b);
    assert s.table[b := FREE] == s.table;
    var ptr := BlockAddr(b);
    assert ptr % PAGE_SIZE == 0 && ptr >= PAGE_SIZE;
    EndOfNothing(ptr, size);
    hide PhysEnd, MapTo;
    EmptySpan(s.procs[p].pages, ptr);
  }

  lemma EmptySpan(pages: seq<uint32>, ptr: uint32)
    requires |pages| == PAGES && ptr % PAGE_SIZE == 0
    ensures MapTo(pages, ptr, ptr, ptr, USER_RW) == (pages, 0)
  {
    assert MapPages(pages, ptr / PAGE_SIZE, ptr / PAGE_SIZE, 0, USER_RW) == pages;
  }

  lemma EndOfNothing(ptr: uint32, size: uint32)
    requires ptr % PAGE_SIZE == 0 && ptr >= PAGE_SIZE && !(0 < size <= 0xFFFF_F000)
    ensures PhysEnd(ptr, size) == ptr
  {
    if size > 0 {
      assert Wrap(ptr + size) == ptr - (0x1_0000_0000 - size);
    }
  }

  /** What decides whether a request for `size` bytes goes wrong: the search finds a block, there is a slot for it, and
      its end does not wrap; but it takes no block, or the blocks run off the end of the table. */
  ghost predicate GoesWrong(s: State, p: nat, size: uint32)
    requires Shape(s) && p < |s.procs|
  {
    var b, n := StartBlock(s.table, BlocksFor(size)), BlocksFor(size);
    && b >= 0 && FindSlot(s.procs[p].allocs, 0, 0) != -1 && PhysEnd(BlockAddr(b), size) >= BlockAddr(b)
    && (size == 0 || size > 0xFFFF_F000 || b + n > |s.table|)
  }

  lemma ShortStart(t: seq<bv8>, n: nat)
    requires 0 <= StartBlock(t, n) && StartBlock(t, n) + n > |t|
    ensures StartBlock(t, n) < |t| && FreeRun(t, StartBlock(t, n), |t| - StartBlock(t, n))
  {
    FirstFitIsLowest(t, n, 0);
    assert StartBlock(t, n) == TrailingFree(t);
  }

  /** The answers that are too short. */
  lemma ShortAnswer(s: State, p: nat, size: uint32)
    requires Inv(s) && p < |s.procs|
    requires 0 <= StartBlock(s.table, BlocksFor(size)) && StartBlock(s.table, BlocksFor(size)) + BlocksFor(size) > |s.table|
    ensures Inv(MallocAny(s, p, size).0) <==> !GoesWrong(s, p, size)
  {
    hide Taken, Freed, StartBlock, BlocksFor, WellFormed, PhysEnd, MapTo, PageOk, IsRun, Runs, FreeRun;
    var b, n, slot := StartBlock(s.table, BlocksFor(size)), BlocksFor(size), FindSlot(s.procs[p].allocs, 0, 0);
    ShortStart(s.table, n);
    ShortRunIsIllFormed(s.table, b, n);
    ShortRunFreeRestores(s.table, b, n);
    EndIsAligned(BlockAddr(b), size);
    MapToStatus(s.procs[p].pages, BlockAddr(b), PhysEnd(BlockAddr(b), size));
    var s' := MallocAny(s, p, size).0;
    if GoesWrong(s, p, size) {
      assert s'.table == Taken(s.table, b, n);
      hide MallocAny;
    } else {
      assert s' == s by {
        assert s.procs[p := s.procs[p]] == s.procs;
      }
      hide MallocAny, Inv;
    }
  }

  lemma EndIsAligned(ptr: uint32, size: uint32)
    ensures PhysEnd(ptr, size) % PAGE_SIZE == 0
  {
  }

  lemma MapToStatus(pages: seq<uint32>, phys: uint32, physEnd: uint32)
    requires |pages| == PAGES && phys % PAGE_SIZE == 0 && physEnd % PAGE_SIZE == 0
    ensures MapTo(pages, phys, phys, physEnd, USER_RW).1 < 0 <==> physEnd < phys
    ensures physEnd < phys ==> MapTo(pages, phys, phys, physEnd, USER_RW).0 == pages
  {
  }

  /** Allocation keeps the invariant exactly when the request does not go wrong. */
  lemma {:induction false} MallocKeepsInvExactlyWhen(s: State, p: nat, size: uint32)
    requires Inv(s) && p < |s.procs|
    ensures Inv(MallocAny(s, p, size).0) <==> !GoesWrong(s, p, size)
  {
    var b, slot := StartBlock(s.table, BlocksFor(size)), FindSlot(s.procs[p].allocs, 0, 0);
    if b >= 0 && b + BlocksFor(size) > |s.table| {
      ShortAnswer(s, p, size);
    } else if 0 < size <= 0xFFFF_F000 {
      MallocAnyIsMalloc(s, p, size);
      MallocKeepsInv(s, p, size);
    } else if b >= 0 {
      AnswerIsTakenExactlyWhen(s.table, size);
      NothingIsMapped(s, p, size, b);
      EndOfNothing(BlockAddr(b), size);
      hide MapTo, Taken, Freed, StartBlock, BlocksFor, PageOk, WellFormed, Runs, PhysEnd;
      if slot != -1 {
        var s' := MallocAny(s, p, size).0;
        assert Live(s', p, slot) && !IsRun(Runs(s'.table), At(s', p, slot));
      }
    }
  }

  /** A request for no bytes is answered with a block that stays free, so the next request gets it again:
      two live pointers to one block. This is why the requests above ask for at least one byte. */
  lemma ZeroBytesAliasTheNextRequest(t: seq<bv8>)
    requires |t| > 0 && forall i :: 0 <= i < |t| ==> IsFree(t[i])
    ensures StartBlock(t, BlocksFor(0)) == 0 && Taken(t, 0, BlocksFor(0)) == t
    ensures StartBlock(Taken(t, 0, BlocksFor(0)), BlocksFor(1)) == 0
  {
    TrailingFreeUnique(t, 0);
    assert Taken(t, 0, 0) == t;
    assert FreeRun(t, 0, 1);
    FirstFitIsLowest(t, 1, 0);
  }
}
