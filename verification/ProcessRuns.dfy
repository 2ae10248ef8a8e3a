/** Whole lives of processes: made, loaded, allocating, freeing and storing, ended, between the kernel's own uses of
    the heap. */
module ProcessRuns {
  import opened Machine
  import opened Heap
  import opened HeapRuns
  import opened Memory
  import opened Paging
  import opened ElfMap
  import opened ProcessMemory
  import opened ProcessBlocks
  import opened ProcessHeld
  import opened ProcessLoad
  import opened ProcessConfine

  /** What happens to the heap and the processes. A user's store changes data only, which is no part of the state. */
  datatype Op =
    | ProcessMalloc(p: nat, size: uint32)
    | ProcessFree(p: nat, ptr: uint32)
    | KernelMalloc(size: uint32)
    | KernelFree(b: nat)
    | Spawn(bs: seq<nat>)
    | Hold(p: nat, b: nat)
    | Load(p: nat, program: Program, stack: uint32)
    | UserStore(p: nat, virt: uint32)
    | Exit(p: nat)

  /** Requests the heap answers rightly, frees by the kernel of what is its own, new directories in free blocks, programs
      and stacks in runs the kernel hands over, programs that leave the heap pages alone and stay inside those runs, and
      stores through writable pages. */
  ghost predicate Legal(s: State, op: Op)
    requires Sealed(s)
  {
    match op
    case ProcessMalloc(p, size) => p < |s.procs| && Serviceable(s.table, size)
    case ProcessFree(p, ptr) => p < |s.procs|
    case KernelMalloc(size) => Serviceable(s.table, size)
    case KernelFree(b) => KernelOwns(s, b)
    case Spawn(bs) => Available(s, bs)
    case Hold(p, b) => p < |s.procs| && KernelOwns(s, b)
    case Load(p, program, stack) => p < |s.procs| && KeepsHeapPages(s, p, program) && Confines(s, p, program, stack)
    case UserStore(p, virt) => p < |s.procs| && Writeable(s.procs[p].pages[virt / PAGE_SIZE])
    case Exit(p) => p < |s.procs|
  }

  ghost function Step(s: State, op: Op): State
    requires Sealed(s) && Legal(s, op)
  {
    match op
    case ProcessMalloc(p, size) => Malloc(s, p, size).0
    case ProcessFree(p, ptr) => Free(s, p, ptr)
    case KernelMalloc(size) => KernelMalloced(s, size)
    case KernelFree(b) => s.(table := Freed(s.table, b, |s.table|))
    case Spawn(bs) => Spawned(s, bs)
    case Hold(p, b) => Given(s, p, b)
    case Load(p, program, stack) => Loaded(s, p, program, stack)
    case UserStore(p, virt) => s
    case Exit(p) => Exited(s, p)
  }

  lemma StepKeeps(s: State, op: Op)
    requires Sealed(s) && Legal(s, op)
    ensures Sealed(Step(s, op))
  {
    hide Sealed, Malloc, Free, Freed, KernelMalloced, Spawned, Given, Loaded, Exited, KeepsHeapPages, Confines, KernelOwns,
         Available, Serviceable;
    match op {
      case ProcessMalloc(p, size) => MallocKeepsSealed(s, p, size);
      case ProcessFree(p, ptr) => FreeKeepsSealed(s, p, ptr);
      case KernelMalloc(size) => KernelMallocKeepsSealed(s, size);
      case KernelFree(b) => KernelFreeKeepsSealed(s, b);
      case Spawn(bs) => SpawnKeepsSealed(s, bs);
      case Hold(p, b) => GivingKeepsSealed(s, p, b);
      case Load(p, program, stack) => LoadKeepsSealedExactlyWhen(s, p, program, stack);
      case UserStore(p, virt) =>
      case Exit(p) => ExitKeepsSealed(s, p);
    }
  }

  ghost predicate LegalRun(s: State, ops: seq<Op>)
    requires Sealed(s)
    decreases |ops|
  {
    ops == [] || (Legal(s, ops[0]) && (StepKeeps(s, ops[0]); LegalRun(Step(s, ops[0]), ops[1..])))
  }

  ghost function Exec(s: State, ops: seq<Op>): State
    requires Sealed(s) && LegalRun(s, ops)
    decreases |ops|
  {
    if ops == [] then s
    else
      StepKeeps(s, ops[0]);
      Exec(Step(s, ops[0]), ops[1..])
  }

  /** However processes start, load programs, allocate, free, store and end, and interleave with the kernel: afterwards
      every heap page of every process is identity-mapped, writable exactly when it lies in one of that process's
      live allocations; and through whatever page, no frame can be written by two processes, and none that is free, holds
      page structures or belongs to the kernel by any. */
  lemma {:induction false} EveryRunIsIsolated(s: State, ops: seq<Op>)
    requires Sealed(s) && LegalRun(s, ops)
    ensures Sealed(Exec(s, ops)) && Isolated(Exec(s, ops)) && PhysicallyIsolated(Exec(s, ops))
    decreases |ops|
  {
    hide Whole, Legal, Step, Isolated, HeldOk, Confined, PhysicallyIsolated;
    if ops == [] {
      WholeIsIsolated(s);
      SealedIsIsolated(s);
    } else {
      StepKeeps(s, ops[0]);
      EveryRunIsIsolated(Step(s, ops[0]), ops[1..]);
    }
  }

  ghost predicate Isolated(s: State) {
    && Shape(s)
    && (forall p, h :: 0 <= p < |s.procs| && 0 <= h < HEAP_BLOCKS ==> PageOk(s, p, h))
    && (forall p, q, h ::
          (0 <= p < |s.procs| && 0 <= q < |s.procs| && 0 <= h < HEAP_BLOCKS
           && Writeable(HeapEntry(s, p, h)) && Writeable(HeapEntry(s, q, h))) ==> p == q)
    && (forall p, h :: 0 <= p < |s.procs| && 0 <= h < HEAP_BLOCKS && IsKept(s, h) ==> !Writeable(HeapEntry(s, p, h)))
  }

  lemma WholeIsIsolated(s: State)
    requires Whole(s)
    ensures Isolated(s)
  {
    forall p: nat, q: nat, h: nat | p < |s.procs| && q < |s.procs| && h < HEAP_BLOCKS
      && Writeable(HeapEntry(s, p, h)) && Writeable(HeapEntry(s, q, h))
      ensures p == q
    {
      NoSharedWritablePage(s, p, q, h);
    }
    forall p: nat, h: nat | p < |s.procs| && h < HEAP_BLOCKS && IsKept(s, h)
      ensures !Writeable(HeapEntry(s, p, h))
    {
      KeptIsNotWriteable(s, p, h);
    }
    hide Writeable, Kept, WellFormed, IsRun, PageOk;
  }

  /** The kernel starts with an empty heap and no process. */
  lemma BootIsSealed()
    ensures Sealed(State(seq(HEAP_BLOCKS, _ => FREE), []))
  {
    InitialInv();
  }
}
