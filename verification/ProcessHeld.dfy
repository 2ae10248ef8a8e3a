/** The physical memory of a process: the runs that hold its program and stack, and what it can write. Every frame a
    process can write lies in a run that it alone holds. */
module ProcessHeld {
  import opened Machine
  import opened Heap
  import opened HeapRuns
  import opened Memory
  import opened Paging
  import opened ProcessMemory
  import opened ProcessBlocks

  predicate IsHeapPage(x: Frame) {
    HEAP_PAGE <= x < HEAP_PAGE + HEAP_BLOCKS
  }

  /** Process p holds the run that starts at block b. */
  ghost predicate Holds(s: State, p: nat, b: nat) {
    p < |s.procs| && b in s.procs[p].held
  }

  /** Block h lies in a run that process p holds. */
  ghost predicate InHeld(s: State, p: nat, h: int) {
    exists b :: Holds(s, p, b) && InRun(Runs(s.table), b, h)
  }

  /** The runs held are runs of the heap, nobody's allocation, no page structure, and held by one process only. */
  ghost predicate HeldOk(s: State)
    requires Shape(s)
  {
    && (forall p, b :: Holds(s, p, b) ==> Spare(s, b))
    && (forall p, q, b :: Holds(s, p, b) && Holds(s, q, b) ==> p == q)
  }

  /** Outside the heap's own pages, a writable page shows a frame in a run the process holds. */
  ghost predicate PageConfined(s: State, p: nat, x: Frame)
    requires Shape(s) && p < |s.procs|
  {
    var e := s.procs[p].pages[x];
    Writeable(e) && !IsHeapPage(x) ==> InHeld(s, p, e / PAGE_SIZE - HEAP_PAGE)
  }

  ghost predicate Confined(s: State)
    requires Shape(s)
  {
    forall p, x :: 0 <= p < |s.procs| && 0 <= x < PAGES ==> PageConfined(s, p, x)
  }

  ghost predicate Sealed(s: State) {
    Whole(s) && HeldOk(s) && Confined(s)
  }

  /** What the kernel may free: a run that no process has any part in. */
  ghost predicate KernelOwns(s: State, b: nat)
    requires Shape(s)
  {
    Spare(s, b) && forall p :: !Holds(s, p, b)
  }

  // ---------- What a process can write is its own ----------

  /** Process p can write frame f. */
  ghost predicate Reaches(s: State, p: nat, f: Frame)
    requires Shape(s)
  {
    p < |s.procs| && exists x: Frame :: ShowsWriteable(s, p, x, f)
  }

  /** It is the only one that can. */
  ghost predicate ReachedByAlone(s: State, p: nat, f: Frame)
    requires Shape(s)
  {
    forall q :: Reaches(s, q, f) <==> q == p
  }

  /** The process alone can write the frame, and it is no part of the kernel. */
  ghost predicate PrivateTo(s: State, p: nat, f: Frame) {
    Shape(s) && ReachedByAlone(s, p, f) && OutOfKernel(s, f)
  }

  ghost predicate ShowsWriteable(s: State, p: nat, x: Frame, f: Frame)
    requires Shape(s) && p < |s.procs|
  {
    Writeable(s.procs[p].pages[x]) && s.procs[p].pages[x] / PAGE_SIZE == f
  }

  /** The run that starts at block b is part of process p: one of its allocations, or held by it. */
  ghost predicate IsPartOf(s: State, p: nat, b: nat)
    requires Shape(s)
  {
    StartsAt(s, p, b) || Holds(s, p, b)
  }

  /** A frame the process can write lies in a run that is part of it. */
  lemma ReachesOwnRun(s: State, p: nat, f: Frame) returns (b: nat)
    requires Sealed(s) && Reaches(s, p, f)
    ensures f >= HEAP_PAGE && InRun(Runs(s.table), b, f - HEAP_PAGE) && IsPartOf(s, p, b)
  {
    assert Shape(s);
    var x: Frame :| ShowsWriteable(s, p, x, f);
    if IsHeapPage(x) {
      var h := x - HEAP_PAGE;
      assert PageOk(s, p, h);
      var i :| Live(s, p, i) && Inside(At(s, p, i), h);
      assert IsRun(Runs(s.table), At(s, p, i));
      b := BlockOf(At(s, p, i).ptr);
      assert StartsAt(s, p, b);
    } else {
      assert PageConfined(s, p, x);
      b :| Holds(s, p, b) && InRun(Runs(s.table), b, f - HEAP_PAGE);
    }
  }

  /** A run is part of one process at most, and then neither a page structure nor the kernel's. */
  lemma PartOfOne(s: State, p: nat, q: nat, b: nat)
    requires Sealed(s) && IsPartOf(s, p, b)
    ensures IsPartOf(s, q, b) ==> p == q
    ensures !IsKept(s, b) && !KernelOwns(s, b)
  {
    if StartsAt(s, p, b) {
      var i :| Live(s, p, i) && At(s, p, i).ptr >= HEAP_ADDRESS && BlockOf(At(s, p, i).ptr) == b;
      StartIsPointer(s, p, i);
      if StartsAt(s, q, b) {
        var j :| Live(s, q, j) && At(s, q, j).ptr >= HEAP_ADDRESS && BlockOf(At(s, q, j).ptr) == b;
        StartIsPointer(s, q, j);
      }
      if IsKept(s, b) {
        KeptIsNoStart(s, p, b);
      }
    } else if StartsAt(s, q, b) {
      var j :| Live(s, q, j) && At(s, q, j).ptr >= HEAP_ADDRESS && BlockOf(At(s, q, j).ptr) == b;
      StartIsPointer(s, q, j);
    }
  }

  lemma KeptIsNoStart(s: State, p: nat, b: nat)
    requires Whole(s) && IsKept(s, b)
    ensures !StartsAt(s, p, b)
  {
    assert KeptBlock(s, b);
    if StartsAt(s, p, b) {
      var i :| Live(s, p, i) && At(s, p, i).ptr >= HEAP_ADDRESS && BlockOf(At(s, p, i).ptr) == b;
      StartIsPointer(s, p, i);
      assert false;
    }
  }

  lemma StartIsPointer(s: State, p: nat, i: nat)
    requires Inv(s) && Live(s, p, i)
    ensures At(s, p, i).ptr >= HEAP_ADDRESS && BlockOf(At(s, p, i).ptr) < HEAP_BLOCKS
    ensures At(s, p, i).ptr == BlockAddr(BlockOf(At(s, p, i).ptr))
  {
    assert IsRun(Runs(s.table), At(s, p, i));
  }

  /** No frame can be written by two processes, and none that is free, holds page structures, or is the kernel's. */
  ghost predicate PhysicallyIsolated(s: State) {
    && Shape(s)
    && (forall p, q, f: Frame :: Reaches(s, p, f) && Reaches(s, q, f) ==> p == q)
    && forall p, f: Frame :: Reaches(s, p, f) ==> OutOfKernel(s, f)
  }

  /** The frame is a taken heap block, in no page structure and no run of the kernel. */
  ghost predicate OutOfKernel(s: State, f: Frame)
    requires Shape(s)
  {
    && IsHeapPage(f) && !IsFree(s.table[f - HEAP_PAGE]) && !IsKept(s, f - HEAP_PAGE)
    && forall b :: KernelOwns(s, b) ==> !InRun(Runs(s.table), b, f - HEAP_PAGE)
  }

  lemma SealedIsIsolated(s: State)
    requires Sealed(s)
    ensures PhysicallyIsolated(s)
  {
    WholeIsWellFormed(s);
    forall p, q, f: Frame | Reaches(s, p, f) && Reaches(s, q, f)
      ensures p == q
    {
      var b := ReachesOwnRun(s, p, f);
      var c := ReachesOwnRun(s, q, f);
      SameRun(s, f, b, c);
      PartOfOne(s, p, q, b);
    }
    forall p, f: Frame | Reaches(s, p, f)
      ensures OutOfKernel(s, f)
    {
      ReachedIsOutOfKernel(s, p, f);
    }
  }

  lemma ReachedIsPrivate(s: State, p: nat, f: Frame)
    requires Sealed(s) && Shape(s) && Reaches(s, p, f)
    ensures PrivateTo(s, p, f)
  {
    SealedIsIsolated(s);
    hide Sealed, OutOfKernel, Reaches;
  }

  lemma SameRun(s: State, f: Frame, b: nat, c: nat)
    requires Shape(s) && WellFormed(s.table) && f >= HEAP_PAGE
    requires InRun(Runs(s.table), b, f - HEAP_PAGE) && InRun(Runs(s.table), c, f - HEAP_PAGE)
    ensures b == c && IsHeapPage(f) && !IsFree(s.table[f - HEAP_PAGE])
  {
    RunsAreTaken(s.table, b, f - HEAP_PAGE);
    RunsPartitionTakenBlocks(s.table, f - HEAP_PAGE);
  }

  lemma ReachedIsOutOfKernel(s: State, p: nat, f: Frame)
    requires Sealed(s) && Reaches(s, p, f)
    ensures OutOfKernel(s, f)
  {
    var b := ReachesOwnRun(s, p, f);
    assert IsOwnFrame(s, p, f);
    OwnIsOutOfKernel(s, p, f);
  }

  /** Frame f lies in a run that is part of process p. */
  ghost predicate IsOwnFrame(s: State, p: nat, f: Frame)
    requires Shape(s)
  {
    f >= HEAP_PAGE && exists b :: IsPartOf(s, p, b) && InRun(Runs(s.table), b, f - HEAP_PAGE)
  }

  lemma OwnIsOutOfKernel(s: State, p: nat, f: Frame)
    requires Sealed(s) && IsOwnFrame(s, p, f)
    ensures OutOfKernel(s, f)
  {
    WholeIsWellFormed(s);
    var b :| IsPartOf(s, p, b) && InRun(Runs(s.table), b, f - HEAP_PAGE);
    SameRun(s, f, b, b);
    PartOfOne(s, p, p, b);
    hide Confined, Inv, IsPartOf;
    if IsKept(s, f - HEAP_PAGE) {
      KeptIsNotInRun(s, f - HEAP_PAGE, b);
    }
    forall c | KernelOwns(s, c)
      ensures !InRun(Runs(s.table), c, f - HEAP_PAGE)
    {
      if InRun(Runs(s.table), c, f - HEAP_PAGE) {
        SameRun(s, f, b, c);
      }
    }
  }

  // ---------- Changes that keep it so ----------

  /** The index a process had before the one at `gone` left (nobody left if that is past the end). */
  function OldIndex(q: nat, gone: nat): nat {
    if q < gone then q else q + 1
  }

  /** Process q of s' is an old one, with the same held runs and the same pages outside the heap's. */
  ghost predicate IsOld(s: State, s': State, q: nat, gone: nat)
    requires Shape(s) && Shape(s') && q < |s'.procs|
  {
    var o := OldIndex(q, gone);
    && o < |s.procs| && s'.procs[q].held == s.procs[o].held
    && forall x: Frame :: !IsHeapPage(x) ==> s'.procs[q].pages[x] == s.procs[o].pages[x]
  }

  /** Process q is a new one: it holds nothing, and outside the heap's pages can write nothing. */
  ghost predicate IsBare(s': State, q: nat)
    requires Shape(s') && q < |s'.procs|
  {
    s'.procs[q].held == {} && forall x: Frame :: !IsHeapPage(x) ==> !Writeable(s'.procs[q].pages[x])
  }

  /** The run at block b stays as it is. */
  ghost predicate RunStays(s: State, s': State, b: nat)
    requires Shape(s) && Shape(s')
  {
    Spare(s, b) ==> Spare(s', b) && Runs(s'.table)[b] == Runs(s.table)[b]
  }

  /** Whatever else changes: the runs held must stay. */
  lemma StaysSealed(s: State, s': State, gone: nat)
    requires Sealed(s) && Whole(s')
    requires forall q :: 0 <= q < |s'.procs| ==> IsOld(s, s', q, gone) || IsBare(s', q)
    requires forall q, b :: Holds(s', q, b) ==> RunStays(s, s', b)
    ensures Sealed(s')
  {
    WholeIsWellFormed(s);
    WholeIsWellFormed(s');
    hide Whole, Runs, Writeable, WellFormed, Shape;
    forall q, b | Holds(s', q, b)
      ensures Holds(s, OldIndex(q, gone), b) && Spare(s', b)
    {
      assert IsOld(s, s', q, gone) || IsBare(s', q);
      assert RunStays(s, s', b);
    }
    forall q: nat, x: Frame | q < |s'.procs|
      ensures Shape(s') && PageConfined(s', q, x)
    {
      PageStaysConfined(s, s', gone, q, x);
    }
  }

  lemma PageStaysConfined(s: State, s': State, gone: nat, q: nat, x: Frame)
    requires Shape(s) && Shape(s') && q < |s'.procs| && Confined(s) && HeldOk(s)
    requires IsOld(s, s', q, gone) || IsBare(s', q)
    requires forall b :: Holds(s', q, b) ==> RunStays(s, s', b)
    ensures PageConfined(s', q, x)
  {
    hide Runs, Writeable;
    if IsOld(s, s', q, gone) && Writeable(s'.procs[q].pages[x]) && !IsHeapPage(x) {
      var o := OldIndex(q, gone);
      assert PageConfined(s, o, x);
      var h := s.procs[o].pages[x] / PAGE_SIZE - HEAP_PAGE;
      var b :| Holds(s, o, b) && InRun(Runs(s.table), b, h);
      assert Holds(s', q, b) && RunStays(s, s', b);
      assert InRun(Runs(s'.table), b, h);
    }
  }

  // ---------- Allocating and freeing ----------

  lemma MallocKeepsSealed(s: State, p: nat, size: uint32)
    requires Sealed(s) && p < |s.procs| && Serviceable(s.table, size)
    ensures Sealed(Malloc(s, p, size).0)
  {
    var s' := Malloc(s, p, size).0;
    MallocKeepsKept(s, p, size);
    forall q, b | Holds(s', q, b)
      ensures RunStays(s, s', b)
    {
      MallocRunStays(s, p, size, b);
    }
    hide RunStays, Whole, HeldOk, Confined, Taken, FirstFit, BlocksFor, Serviceable;
    forall q | 0 <= q < |s'.procs|
      ensures IsOld(s, s', q, |s.procs|)
    {
    }
    StaysSealed(s, s', |s.procs|);
  }

  lemma MallocRunStays(s: State, p: nat, size: uint32, b: nat)
    requires Whole(s) && p < |s.procs| && Serviceable(s.table, size)
    ensures RunStays(s, Malloc(s, p, size).0, b)
  {
    var s', n := Malloc(s, p, size).0, BlocksFor(size);
    var first := FirstFit(s.table, n, 0);
    MallocKeepsKept(s, p, size);
    SameBlocksSameKept(s, s', b);
    FirstFitIsLowest(s.table, n, 0);
    if Spare(s, b) && first != -1 {
      TakenAddsRun(s.table, first, n);
      FirstIsTaken(s.table, b);
      assert BlockAddr(first) != BlockAddr(b);
      hide WellFormed, Runs, Inv, Kept;
      forall q, i | Live(s', q, i)
        ensures At(s', q, i).ptr != BlockAddr(b)
      {
        MallocLive(s, p, size, q, i);
      }
    }
  }

  lemma FreeKeepsSealed(s: State, p: nat, ptr: uint32)
    requires Sealed(s) && p < |s.procs|
    ensures Sealed(Free(s, p, ptr)) && |Free(s, p, ptr).procs| == |s.procs|
  {
    var s' := Free(s, p, ptr);
    FreeKeepsKept(s, p, ptr);
    forall q, b | Holds(s', q, b)
      ensures RunStays(s, s', b)
    {
      FreeRunStays(s, p, ptr, b);
    }
    FreeKeepsOtherPages(s, p, ptr);
    hide RunStays, HeldOk, Confined, Freed, BlocksFor, Kept, Remap, IsHeapPage;
    forall q | 0 <= q < |s'.procs|
      ensures IsOld(s, s', q, |s.procs|)
    {
    }
    StaysSealed(s, s', |s.procs|);
  }

  lemma FreeKeepsOtherPages(s: State, p: nat, ptr: uint32)
    requires Inv(s) && p < |s.procs|
    ensures Shape(Free(s, p, ptr))
    ensures forall x: Frame :: !IsHeapPage(x) ==> Free(s, p, ptr).procs[p].pages[x] == s.procs[p].pages[x]
  {
    var slot := FindSlot(s.procs[p].allocs, ptr, 0);
    FreeKeepsInv(s, p, ptr);
    if ptr != 0 && slot != -1 {
      assert Live(s, p, slot) && IsRun(Runs(s.table), At(s, p, slot));
      assert RunLength(s.table, BlockOf(ptr)) == BlocksFor(At(s, p, slot).size);
    }
  }

  lemma FreeRunStays(s: State, p: nat, ptr: uint32, b: nat)
    requires Whole(s) && p < |s.procs|
    ensures Shape(Free(s, p, ptr)) && RunStays(s, Free(s, p, ptr), b)
  {
    var s', slot := Free(s, p, ptr), FindSlot(s.procs[p].allocs, ptr, 0);
    FreeKeepsKept(s, p, ptr);
    SameBlocksSameKept(s, s', b);
    if Spare(s, b) && ptr != 0 && slot != -1 {
      assert Live(s, p, slot) && At(s, p, slot).ptr == ptr;
      StartIsPointer(s, p, slot);
      assert IsRun(Runs(s.table), At(s, p, slot));
      FreedRemovesRun(s.table, BlockOf(ptr));
      hide WellFormed, Runs, Inv, Kept;
      forall q, i | Live(s', q, i)
        ensures At(s', q, i).ptr != BlockAddr(b)
      {
        FreeLive(s, p, ptr, q, i);
      }
    }
  }

  lemma {:induction false} FreeFromKeepsSealed(s: State, p: nat, i: nat)
    requires Sealed(s) && p < |s.procs| && i <= MAX_ALLOCATIONS
    ensures Sealed(FreeFrom(s, p, i))
    decreases MAX_ALLOCATIONS - i
  {
    assert Shape(s);
    hide Kept, Inv, Free, HeldOk, Confined;
    if i < MAX_ALLOCATIONS {
      FreeKeepsSealed(s, p, s.procs[p].allocs[i].ptr);
      FreeFromKeepsSealed(Free(s, p, s.procs[p].allocs[i].ptr), p, i + 1);
    }
  }

  // ---------- The kernel's own use of the heap ----------

  /** Another table in which every run that is not the kernel's is as before. */
  lemma TableKeepsSealed(s: State, table: seq<bv8>, gone: set<nat>)
    requires Sealed(s) && Whole(s.(table := table))
    requires forall b :: b in gone ==> forall p :: !Holds(s, p, b)
    requires forall b :: b in Runs(s.table) && b !in gone ==> b in Runs(table) && Runs(table)[b] == Runs(s.table)[b]
    ensures Sealed(s.(table := table))
  {
    var s' := s.(table := table);
    assert Shape(s) && Shape(s');
    forall q, b | Holds(s', q, b)
      ensures RunStays(s, s', b)
    {
      assert Holds(s, q, b);
      SameBlocksSameKept(s, s', b);
      assert forall p, i :: Live(s', p, i) ==> Live(s, p, i) && At(s', p, i) == At(s, p, i);
    }
    hide RunStays, Whole, HeldOk, Confined, Runs;
    forall q | 0 <= q < |s'.procs|
      ensures IsOld(s, s', q, |s.procs|)
    {
    }
    StaysSealed(s, s', |s.procs|);
  }

  lemma KernelMallocKeepsSealed(s: State, size: uint32)
    requires Sealed(s) && Serviceable(s.table, size)
    ensures Sealed(KernelMalloced(s, size))
  {
    var n := BlocksFor(size);
    var first := FirstFit(s.table, n, 0);
    KernelMallocKeeps(s, size);
    if first != -1 {
      FirstFitIsLowest(s.table, n, 0);
      TakenAddsRun(s.table, first, n);
      assert BlockOk(s.table, first) && first !in Runs(s.table);
      hide Whole, HeldOk, Confined, Runs, Taken, Serviceable, FirstFit;
      TableKeepsSealed(s, Taken(s.table, first, n), {});
    }
  }

  lemma KernelFreeKeepsSealed(s: State, b: nat)
    requires Sealed(s) && KernelOwns(s, b)
    ensures Sealed(s.(table := Freed(s.table, b, |s.table|)))
  {
    FreedRemovesRun(s.table, b);
    KernelFreeKeeps(s, b);
    hide Whole, HeldOk, Confined, Runs, Freed;
    TableKeepsSealed(s, Freed(s.table, b, |s.table|), {b});
  }

  // ---------- Processes come and go ----------

  lemma SpawnKeepsSealed(s: State, bs: seq<nat>)
    requires Sealed(s) && Available(s, bs)
    ensures Sealed(Spawned(s, bs))
  {
    var s', n := Spawned(s, bs), |s.procs|;
    SpawnKeeps(s, bs);
    WholeIsWellFormed(s);
    WholeIsWellFormed(s');
    forall b | Spare(s, b)
      ensures RunStays(s, s', b)
    {
      SpawnRunStays(s, bs, b);
    }
    NewProcIsBare(s, bs);
    hide Whole, HeldOk, Confined, TakeSingles, Spare, NewProc, Available, Runs, WellFormed;
    forall q | 0 <= q < |s'.procs|
      ensures IsOld(s, s', q, n) || IsBare(s', q)
    {
    }
    StaysSealed(s, s', n);
  }

  lemma NewProcIsBare(s: State, bs: seq<nat>)
    requires Shape(s) && Shape(Spawned(s, bs))
    ensures IsBare(Spawned(s, bs), |s.procs|)
  {
    NewProcBlocks(bs);
    forall x: Frame
      ensures !Writeable(FreshPages()[x])
    {
      EntryParts(x, USER_RO);
      WriteableFlag(EntryOf(x, USER_RO), USER_RO);
    }
  }

  lemma SpawnedKept(s: State, bs: seq<nat>, b: nat)
    ensures IsKept(Spawned(s, bs), b) ==> IsKept(s, b) || b in bs
  {
    NewProcBlocks(bs);
    hide NewProc;
    var s' := Spawned(s, bs);
    if IsKept(s', b) {
      var p :| 0 <= p < |s'.procs| && b in s'.procs[p].blocks;
      assert p < |s.procs| ==> b in s.procs[p].blocks;
    }
  }

  lemma SpawnRunStays(s: State, bs: seq<nat>, b: nat)
    requires Whole(s) && Available(s, bs) && Spare(s, b)
    ensures Shape(Spawned(s, bs)) && RunStays(s, Spawned(s, bs), b)
  {
    var s' := Spawned(s, bs);
    SpawnKeeps(s, bs);
    TakingSingles(s.table, bs, |bs|);
    assert bs[..|bs|] == bs;
    FirstIsTaken(s.table, b);
    NewProcBlocks(bs);
    hide WellFormed, NewProc;
    assert b !in bs;
    SpawnedKept(s, bs, b);
    forall q: nat, i: nat | Live(s', q, i)
      ensures At(s', q, i).ptr != BlockAddr(b)
    {
      assert q < |s.procs| && Live(s, q, i) && At(s', q, i) == At(s, q, i);
    }
  }

  /** The kernel hands a run of its own to a process, as the place of its program or stack. */
  ghost function Given(s: State, p: nat, b: nat): State
    requires p < |s.procs|
  {
    s.(procs := s.procs[p := s.procs[p].(held := s.procs[p].held + {b})])
  }

  lemma GivingKeepsWhole(s: State, p: nat, b: nat)
    requires Whole(s) && p < |s.procs|
    ensures Whole(Given(s, p, b))
    ensures forall c :: Spare(s, c) ==> RunStays(s, Given(s, p, b), c)
  {
    var s' := Given(s, p, b);
    hide WellFormed, Runs, IsRun, Writeable;
    assert Shape(s') && SameBlocks(s, s');
    forall q, i
      ensures Live(s', q, i) <==> Live(s, q, i)
      ensures Live(s, q, i) ==> At(s', q, i) == At(s, q, i)
    {
    }
    forall q: nat, h: nat | q < |s'.procs| && h < HEAP_BLOCKS
      ensures PageOk(s', q, h)
    {
      assert PageOk(s, q, h);
      SameOwner(s, s', q, h);
    }
    forall c: nat
      ensures IsKept(s', c) <==> IsKept(s, c)
    {
      SameBlocksSameKept(s, s', c);
    }
    hide PageOk;
    forall c: nat | IsKept(s', c)
      ensures KeptBlock(s', c)
    {
      assert KeptBlock(s, c);
    }
  }

  /** What a process does not own yet it can be given; nothing else changes. */
  lemma GivingKeepsSealed(s: State, p: nat, b: nat)
    requires Sealed(s) && p < |s.procs| && KernelOwns(s, b)
    ensures Sealed(Given(s, p, b))
  {
    var s' := Given(s, p, b);
    GivingKeepsWhole(s, p, b);
    hide Whole, Runs, Writeable;
    assert Shape(s) && Shape(s');
    hide Shape;
    forall q: nat, c: nat | Holds(s', q, c)
      ensures Spare(s', c) && (Holds(s, q, c) || (q == p && c == b))
    {
      if q != p || c != b {
        assert Holds(s, q, c);
      }
      assert Spare(s, c);
      assert RunStays(s, s', c);
    }
    forall q: nat, x: Frame | q < |s'.procs|
      ensures PageConfined(s', q, x)
    {
      assert PageConfined(s, q, x);
      var h := s.procs[q].pages[x] / PAGE_SIZE - HEAP_PAGE;
      if InHeld(s, q, h) {
        var c :| Holds(s, q, c) && InRun(Runs(s.table), c, h);
        assert Holds(s', q, c);
      }
    }
  }

  lemma GiveBackRunStays(s: State, p: nat, b: nat)
    requires Whole(s) && p < |s.procs| && (forall i :: !Live(s, p, i)) && Spare(s, b)
    ensures var s' := State(Released(s.table, s.procs[p].blocks), Without(s.procs, p));
      Shape(s') && RunStays(s, s', b)
  {
    var s' := State(Released(s.table, s.procs[p].blocks), Without(s.procs, p));
    KeptAreSingles(s, p);
    ReleasedRemovesRuns(s.table, s.procs[p].blocks);
    WithoutBlocks(s, p);
    hide WellFormed, Runs, IsRun, DistinctPointers, CleanSlots, PageOk, KeptBlock;
    assert Shape(s');
    assert b !in s.procs[p].blocks;
    var unlinked := State(s.table, Without(s.procs, p));
    assert IsKept(s', b) ==> IsKept(unlinked, b);
    forall q: nat, i: nat | Live(s', q, i)
      ensures At(s', q, i).ptr != BlockAddr(b)
    {
      assert Live(s, OldIndex(q, p), i) && At(s', q, i) == At(s, OldIndex(q, p), i);
    }
  }

  lemma GiveBackKeepsSealed(s: State, p: nat)
    requires Sealed(s) && p < |s.procs| && forall i :: !Live(s, p, i)
    ensures Sealed(State(Released(s.table, s.procs[p].blocks), Without(s.procs, p)))
  {
    var s' := State(Released(s.table, s.procs[p].blocks), Without(s.procs, p));
    GiveBackKeeps(s, p);
    WholeIsWellFormed(s);
    WholeIsWellFormed(s');
    forall b | Spare(s, b)
      ensures RunStays(s, s', b)
    {
      GiveBackRunStays(s, p, b);
    }
    hide Whole, HeldOk, Confined, Released, Spare, Runs, WellFormed;
    forall q | 0 <= q < |s'.procs|
      ensures IsOld(s, s', q, p)
    {
    }
    StaysSealed(s, s', p);
  }

  lemma ExitKeepsSealed(s: State, p: nat)
    requires Sealed(s) && p < |s.procs|
    ensures Sealed(Exited(s, p))
  {
    FreeFromKeepsSealed(s, p, 0);
    FreeFromKeeps(s, p, 0);
    FreeFromLeavesNothing(s, p, 0);
    hide Sealed, FreeFrom, Released;
    GiveBackKeepsSealed(FreeFrom(s, p, 0), p);
  }

  lemma {:induction false} FreeFromRunStays(s: State, p: nat, i: nat, b: nat)
    requires Whole(s) && p < |s.procs| && i <= MAX_ALLOCATIONS
    ensures Shape(FreeFrom(s, p, i)) && RunStays(s, FreeFrom(s, p, i), b)
    decreases MAX_ALLOCATIONS - i
  {
    assert Shape(s);
    hide Kept, Inv, Free, Spare;
    if i < MAX_ALLOCATIONS {
      FreeKeepsKept(s, p, s.procs[p].allocs[i].ptr);
      FreeRunStays(s, p, s.procs[p].allocs[i].ptr, b);
      FreeFromRunStays(Free(s, p, s.procs[p].allocs[i].ptr), p, i + 1, b);
    }
  }

  lemma ExitRunStays(s: State, p: nat, b: nat)
    requires Whole(s) && p < |s.procs| && Spare(s, b)
    ensures Shape(Exited(s, p)) && Spare(Exited(s, p), b)
  {
    FreeFromKeeps(s, p, 0);
    FreeFromLeavesNothing(s, p, 0);
    FreeFromRunStays(s, p, 0, b);
    hide Whole, Spare, FreeFrom, Released;
    GiveBackRunStays(FreeFrom(s, p, 0), p, b);
  }

  /** When a process ends, the runs it held are left to the kernel, which may now free them. */
  lemma ExitLeavesHeld(s: State, p: nat, b: nat)
    requires Sealed(s) && Holds(s, p, b)
    ensures Shape(Exited(s, p)) && KernelOwns(Exited(s, p), b)
  {
    assert Spare(s, b);
    ExitRunStays(s, p, b);
    ExitRemovesExactly(s, p, b);
    hide Whole, Spare, Exited, Confined, Runs;
    forall q
      ensures !Holds(Exited(s, p), q, b)
    {
      assert Holds(Exited(s, p), q, b) ==> Holds(s, OldIndex(q, p), b);
    }
  }

  /** Freeing one run of the kernel's leaves it the others. */
  lemma KernelStillOwns(s: State, b: nat, c: nat)
    requires Sealed(s) && KernelOwns(s, b) && KernelOwns(s, c) && b != c
    ensures var s' := s.(table := Freed(s.table, b, |s.table|));
      Shape(s') && KernelOwns(s', c) && Runs(s'.table) == Runs(s.table) - {b}
  {
    var s' := s.(table := Freed(s.table, b, |s.table|));
    WholeIsWellFormed(s);
    FreedRemovesRun(s.table, b);
    hide Runs, Freed, Inv, Confined;
    SameBlocksSameKept(s, s', c);
    forall p, i
      ensures Live(s', p, i) ==> Live(s, p, i) && At(s', p, i) == At(s, p, i)
    {
    }
    assert forall p :: Holds(s', p, c) ==> Holds(s, p, c);
  }
}
