/** The heap blocks that hold page directories and tables, as part of the state: what the kernel and the processes
    do to the heap never reaches them. Making and ending processes. */
module ProcessBlocks {
  import opened Machine
  import opened Heap
  import opened HeapRuns
  import opened Memory
  import opened Paging
  import opened PageDirectory
  import opened ProcessMemory

  // ---------- Blocks that hold page structures ----------

  /** Block b holds part of the page structures of a process. */
  ghost predicate IsKept(s: State, b: nat) {
    exists p :: 0 <= p < |s.procs| && b in s.procs[p].blocks
  }

  /** It is a run of its own, and nobody's allocation. */
  ghost predicate KeptBlock(s: State, b: nat)
    requires Shape(s)
  {
    && b < HEAP_BLOCKS && s.table[b] == TAKEN | IS_FIRST
    && forall q, i :: Live(s, q, i) ==> At(s, q, i).ptr != BlockAddr(b)
  }

  ghost predicate AllDifferent(bs: seq<nat>) {
    forall j, k :: 0 <= j < k < |bs| ==> bs[j] != bs[k]
  }

  /** Every process has its own 1026 blocks. */
  ghost predicate OwnBlocks(s: State) {
    && (forall p :: 0 <= p < |s.procs| ==> |s.procs[p].blocks| == BLOCKS && AllDifferent(s.procs[p].blocks))
    && (forall p, q, b :: 0 <= p < q < |s.procs| && b in s.procs[p].blocks ==> b !in s.procs[q].blocks)
  }

  ghost predicate Kept(s: State)
    requires Shape(s)
  {
    OwnBlocks(s) && forall b: nat :: IsKept(s, b) ==> KeptBlock(s, b)
  }

  /** The whole invariant: heap, allocation tables and pages in step, and the page structures out of reach. */
  ghost predicate Whole(s: State) {
    Inv(s) && Kept(s)
  }

  /** An operation that keeps everybody's blocks. */
  ghost predicate SameBlocks(s: State, s': State) {
    |s'.procs| == |s.procs| && forall p :: 0 <= p < |s.procs| ==> s'.procs[p].blocks == s.procs[p].blocks
  }

  lemma SameBlocksSameKept(s: State, s': State, b: nat)
    requires SameBlocks(s, s')
    ensures IsKept(s', b) <==> IsKept(s, b)
  {
    if IsKept(s, b) {
      var p :| 0 <= p < |s.procs| && b in s.procs[p].blocks;
      assert b in s'.procs[p].blocks;
    }
    if IsKept(s', b) {
      var p :| 0 <= p < |s'.procs| && b in s'.procs[p].blocks;
      assert b in s.procs[p].blocks;
    }
  }

  lemma MallocKeepsKept(s: State, p: nat, size: uint32)
    requires Whole(s) && p < |s.procs| && Serviceable(s.table, size)
    ensures Whole(Malloc(s, p, size).0) && SameBlocks(s, Malloc(s, p, size).0)
  {
    var s', n := Malloc(s, p, size).0, BlocksFor(size);
    var first := FirstFit(s.table, n, 0);
    MallocKeepsInv(s, p, size);
    FirstFitIsLowest(s.table, n, 0);
    assert SameBlocks(s, s');
    forall b: nat | IsKept(s', b)
      ensures KeptBlock(s', b)
    {
      SameBlocksSameKept(s, s', b);
      assert KeptBlock(s, b) && !IsFree(s.table[b]);
      assert first != -1 ==> IsFree(s.table[first]);
      forall q, i | Live(s', q, i)
        ensures At(s', q, i).ptr != BlockAddr(b)
      {
        MallocLive(s, p, size, q, i);
      }
    }
  }

  /** A run that starts elsewhere does not reach into a kept block. */
  lemma KeptIsNotInRun(s: State, b: nat, r: nat)
    requires Whole(s) && IsKept(s, b) && r in Runs(s.table) && r != b
    ensures b < HEAP_BLOCKS && !InRun(Runs(s.table), r, b)
  {
    assert KeptBlock(s, b);
    if InRun(Runs(s.table), r, b) {
      RunsAreTaken(s.table, r, b);
      assert false;
    }
  }

  lemma FreedRunKeepsKept(s: State, r: nat, b: nat)
    requires Whole(s) && IsKept(s, b) && r in Runs(s.table) && r != b
    ensures b < HEAP_BLOCKS && Freed(s.table, r, |s.table|)[b] == s.table[b]
  {
    KeptIsNotInRun(s, b, r);
    FreedClearsRun(s.table, r, b);
  }

  lemma FreeKeepsKept(s: State, p: nat, ptr: uint32)
    requires Whole(s) && p < |s.procs|
    ensures Whole(Free(s, p, ptr)) && SameBlocks(s, Free(s, p, ptr))
  {
    var s', slot := Free(s, p, ptr), FindSlot(s.procs[p].allocs, ptr, 0);
    FreeKeepsInv(s, p, ptr);
    if ptr != 0 && slot != -1 {
      assert Live(s, p, slot) && At(s, p, slot).ptr == ptr;
      assert IsRun(Runs(s.table), At(s, p, slot));
      hide WellFormed, Runs, IsRun, Inv;
      forall b: nat | IsKept(s', b)
        ensures KeptBlock(s', b)
      {
        SameBlocksSameKept(s, s', b);
        assert KeptBlock(s, b);
        BlockRoundTrip(b);
        FreedRunKeepsKept(s, BlockOf(ptr), b);
        forall q, i | Live(s', q, i)
          ensures At(s', q, i).ptr != BlockAddr(b)
        {
          FreeLive(s, p, ptr, q, i);
        }
      }
    }
  }

  lemma {:induction false} FreeFromKeeps(s: State, p: nat, i: nat)
    requires Whole(s) && p < |s.procs| && i <= MAX_ALLOCATIONS
    ensures Whole(FreeFrom(s, p, i)) && SameBlocks(s, FreeFrom(s, p, i))
    decreases MAX_ALLOCATIONS - i
  {
    assert Shape(s);
    hide Kept, Inv, Free;
    if i < MAX_ALLOCATIONS {
      FreeKeepsKept(s, p, s.procs[p].allocs[i].ptr);
      FreeFromKeeps(Free(s, p, s.procs[p].allocs[i].ptr), p, i + 1);
    }
  }

  // ---------- The kernel's own use of the heap ----------

  ghost function KernelMalloced(s: State, size: uint32): State
    requires Shape(s)
  {
    var b := FirstFit(s.table, BlocksFor(size), 0);
    if b == -1 then s else s.(table := Taken(s.table, b, BlocksFor(size)))
  }

  lemma KernelMallocKeeps(s: State, size: uint32)
    requires Whole(s) && Serviceable(s.table, size)
    ensures Whole(KernelMalloced(s, size))
  {
    var n := BlocksFor(size);
    var first := FirstFit(s.table, n, 0);
    if first != -1 {
      FirstFitIsLowest(s.table, n, 0);
      TakenAddsRun(s.table, first, n);
      assert IsFree(s.table[first]) && BlockOk(s.table, first);
      assert first !in Runs(s.table);
      TableChangeKeepsInv(s, Taken(s.table, first, n));
      TableChangeKeepsKept(s, Taken(s.table, first, n));
    }
  }

  /** A run that is neither a process's allocation nor a page structure. */
  ghost predicate Spare(s: State, b: nat)
    requires Shape(s)
  {
    && b in Runs(s.table) && !IsKept(s, b)
    && forall p, i :: Live(s, p, i) ==> At(s, p, i).ptr != BlockAddr(b)
  }

  lemma KernelFreeKeeps(s: State, b: nat)
    requires Whole(s) && Spare(s, b)
    ensures Whole(s.(table := Freed(s.table, b, |s.table|)))
  {
    FreedRemovesRun(s.table, b);
    forall p, i | Live(s, p, i)
      ensures BlockOf(At(s, p, i).ptr) != b
    {
      assert IsRun(Runs(s.table), At(s, p, i));
    }
    TableChangeKeepsInv(s, Freed(s.table, b, |s.table|));
    forall k: nat | IsKept(s, k)
      ensures k < HEAP_BLOCKS && Freed(s.table, b, |s.table|)[k] == s.table[k]
    {
      FreedRunKeepsKept(s, b, k);
    }
    TableChangeKeepsKept(s, Freed(s.table, b, |s.table|));
  }

  lemma TableChangeKeepsKept(s: State, table: seq<bv8>)
    requires Whole(s) && |table| == HEAP_BLOCKS
    requires forall b: nat :: IsKept(s, b) ==> b < HEAP_BLOCKS && table[b] == s.table[b]
    ensures Shape(s.(table := table)) && Kept(s.(table := table))
  {
    var s' := s.(table := table);
    assert Shape(s');
    forall b: nat | IsKept(s', b)
      ensures KeptBlock(s', b)
    {
      SameBlocksSameKept(s, s', b);
      assert KeptBlock(s, b);
      assert forall q, i :: Live(s', q, i) ==> Live(s, q, i) && At(s', q, i) == At(s, q, i);
    }
  }

  // ---------- A new process ----------

  /** A directory that maps every page to itself, read-only for programs. */
  ghost function FreshPages(): (pages: seq<uint32>)
    ensures |pages| == PAGES
  {
    seq(PAGES, p requires 0 <= p < PAGES => EntryOf(p, USER_RO))
  }

  ghost function NewProc(bs: seq<nat>): Proc {
    Proc(seq(MAX_ALLOCATIONS, _ => Allocation(0, 0)), FreshPages(), bs, {})
  }

  lemma NewProcIsFresh(bs: seq<nat>)
    ensures FreshProc(NewProc(bs))
  {
    forall p: Frame
      ensures EntryOf(p, USER_RO) / PAGE_SIZE == p && !Writeable(EntryOf(p, USER_RO))
    {
      EntryParts(p, USER_RO);
      WriteableFlag(EntryOf(p, USER_RO), USER_RO);
    }
  }

  /** Blocks for a new directory: free ones. */
  ghost predicate Available(s: State, bs: seq<nat>)
    requires Shape(s)
  {
    |bs| == BLOCKS && AllDifferent(bs) && forall j :: 0 <= j < |bs| ==> bs[j] < HEAP_BLOCKS && IsFree(s.table[bs[j]])
  }

  ghost function TakeSingles(t: seq<bv8>, bs: seq<nat>): (r: seq<bv8>)
    ensures |r| == |t|
  {
    seq(|t|, i requires 0 <= i < |t| => if i in bs then TAKEN | IS_FIRST else t[i])
  }

  ghost function Spawned(s: State, bs: seq<nat>): State {
    State(TakeSingles(s.table, bs), s.procs + [NewProc(bs)])
  }

  lemma {:induction false} TakingSingles(t: seq<bv8>, bs: seq<nat>, n: nat)
    requires WellFormed(t) && n <= |bs| && AllDifferent(bs)
    requires forall j :: 0 <= j < |bs| ==> bs[j] < |t| && IsFree(t[bs[j]])
    ensures SinglesTaken(t, TakeSingles(t, bs[..n]), bs[..n])
    decreases n
  {
    hide WellFormed, Runs;
    if n == 0 {
      NoSinglesTaken(t);
      assert TakeSingles(t, bs[..0]) == t && bs[..0] == [];
    } else {
      TakingSingles(t, bs, n - 1);
      var t' := TakeSingles(t, bs[..n - 1]);
      var b := bs[n - 1];
      assert b !in bs[..n - 1];
      assert t'[b] == t[b];
      OneMoreSingle(t, t', bs[..n - 1], b);
      assert bs[..n] == bs[..n - 1] + [b];
      assert TakeSingles(t, bs[..n]) == t'[b := TAKEN | IS_FIRST];
    }
  }

  lemma SinglesAre(t0: seq<bv8>, t: seq<bv8>, bs: seq<nat>)
    requires SinglesTaken(t0, t, bs)
    ensures t == TakeSingles(t0, bs)
  {
  }

  lemma SpawnKeeps(s: State, bs: seq<nat>)
    requires Whole(s) && Available(s, bs)
    ensures Whole(Spawned(s, bs))
  {
    var s' := Spawned(s, bs);
    var t' := s'.table;
    TakingSingles(s.table, bs, |bs|);
    assert bs[..|bs|] == bs;
    NewProcIsFresh(bs);
    TableChangeKeepsInv(s, t');
    hide WellFormed, Runs, FreshProc, NewProc;
    SpawnKeepsInv(s.(table := t'), NewProc(bs));
    assert s' == s.(table := t').(procs := s.(table := t').procs + [NewProc(bs)]);
    SpawnKeepsOwnBlocks(s, bs);
    forall b: nat | IsKept(s', b)
      ensures KeptBlock(s', b)
    {
      SpawnedBlock(s, bs, b);
    }
  }

  lemma NewProcBlocks(bs: seq<nat>)
    ensures NewProc(bs).blocks == bs && NewProc(bs).held == {}
    ensures forall i :: 0 <= i < MAX_ALLOCATIONS ==> NewProc(bs).allocs[i].ptr == 0
  {
  }

  /** Blocks in use are not available. */
  lemma KeptIsNotFree(s: State, b: nat)
    requires Shape(s) && Kept(s) && IsKept(s, b)
    ensures b < HEAP_BLOCKS && !IsFree(s.table[b])
  {
    assert KeptBlock(s, b);
  }

  lemma SpawnKeepsOwnBlocks(s: State, bs: seq<nat>)
    requires Shape(s) && Kept(s) && Available(s, bs)
    ensures OwnBlocks(Spawned(s, bs))
  {
    var s', n := Spawned(s, bs), |s.procs|;
    NewProcBlocks(bs);
    forall p, b: nat | 0 <= p < n && b in s.procs[p].blocks
      ensures b !in bs
    {
      assert IsKept(s, b);
      KeptIsNotFree(s, b);
    }
    hide NewProc;
    assert forall p :: 0 <= p < n ==> s'.procs[p] == s.procs[p];
    assert s'.procs[n].blocks == bs;
  }

  lemma SpawnedBlock(s: State, bs: seq<nat>, b: nat)
    requires Whole(s) && Available(s, bs) && IsKept(Spawned(s, bs), b)
    ensures Shape(Spawned(s, bs)) && KeptBlock(Spawned(s, bs), b)
  {
    var s', n := Spawned(s, bs), |s.procs|;
    NewProcBlocks(bs);
    assert Shape(s');
    var p: nat :| p < |s'.procs| && b in s'.procs[p].blocks;
    if p < n {
      assert IsKept(s, b) && KeptBlock(s, b);
      KeptIsNotFree(s, b);
    } else {
      assert b in bs && IsFree(s.table[b]);
    }
    hide WellFormed;
    forall q: nat, i: nat | Live(s', q, i)
      ensures At(s', q, i).ptr != BlockAddr(b)
    {
      assert q < n && Live(s, q, i) && At(s', q, i) == At(s, q, i);
      if b in bs {
        LivePointerIsTaken(s, q, i);
        BlockRoundTrip(b);
      }
    }
  }

  lemma LivePointerIsTaken(s: State, p: nat, i: nat)
    requires Inv(s) && Live(s, p, i)
    ensures At(s, p, i).ptr >= HEAP_ADDRESS && BlockOf(At(s, p, i).ptr) < HEAP_BLOCKS
    ensures !IsFree(s.table[BlockOf(At(s, p, i).ptr)])
  {
    assert IsRun(Runs(s.table), At(s, p, i));
    FirstIsTaken(s.table, BlockOf(At(s, p, i).ptr));
  }

  // ---------- The end of a process ----------

  ghost function Released(t: seq<bv8>, bs: seq<nat>): (r: seq<bv8>)
    ensures |r| == |t|
  {
    seq(|t|, i requires 0 <= i < |t| => if i in bs then FREE else t[i])
  }

  ghost predicate Singles(t: seq<bv8>, bs: seq<nat>) {
    forall b :: b in bs ==> b < |t| && t[b] == TAKEN | IS_FIRST
  }

  lemma SingleBits()
    ensures !HasNext(TAKEN | IS_FIRST) && IsFirst(TAKEN | IS_FIRST) && !IsFree(TAKEN | IS_FIRST)
    ensures IsFree(FREE) && !IsFirst(FREE) && !HasNext(FREE)
  {
  }

  lemma ReleasedWellFormed(t: seq<bv8>, bs: seq<nat>)
    requires WellFormed(t) && Singles(t, bs)
    ensures WellFormed(Released(t, bs))
  {
    SingleBits();
    hide HasNext, IsFirst, IsFree;
    forall i | 0 <= i < |t|
      ensures BlockOk(Released(t, bs), i)
    {
      assert BlockOk(t, i);
    }
  }

  lemma {:induction false} ReleasedKeepsLength(t: seq<bv8>, bs: seq<nat>, i: nat)
    requires WellFormed(t) && Singles(t, bs) && i < |t| && i !in bs
    ensures RunLength(Released(t, bs), i) == RunLength(t, i)
    decreases |t| - i
  {
    SingleBits();
    hide IsFirst, IsFree;
    assert BlockOk(t, i);
    if HasNext(t[i]) && i + 1 < |t| {
      ReleasedKeepsLength(t, bs, i + 1);
    }
  }

  /** Exactly the runs of those blocks leave the heap. */
  lemma ReleasedRemovesRuns(t: seq<bv8>, bs: seq<nat>)
    requires WellFormed(t) && Singles(t, bs)
    ensures WellFormed(Released(t, bs))
    ensures forall b: nat :: b in Runs(Released(t, bs)) <==> b in Runs(t) && b !in bs
    ensures forall b: nat :: b in Runs(Released(t, bs)) ==> Runs(Released(t, bs))[b] == Runs(t)[b]
  {
    ReleasedWellFormed(t, bs);
    SingleBits();
    hide HasNext, IsFirst, IsFree, WellFormed;
    forall b: nat | b < |t| && b !in bs
      ensures RunLength(Released(t, bs), b) == RunLength(t, b)
    {
      ReleasedKeepsLength(t, bs, b);
    }
  }

  /** The blocks about to be released, seen as the blocks `paging_new` once took. */
  lemma ReleasedIsSinglesTaken(t: seq<bv8>, bs: seq<nat>)
    requires WellFormed(t) && Singles(t, bs) && AllDifferent(bs)
    ensures SinglesTaken(Released(t, bs), t, bs)
  {
    ReleasedRemovesRuns(t, bs);
    SingleBits();
    hide HasNext, IsFirst, IsFree, WellFormed, Runs;
    var t0 := Released(t, bs);
    assert forall i :: 0 <= i < |t| ==> t[i] == if i in bs then TAKEN | IS_FIRST else t0[i];
    forall j | 0 <= j < |bs|
      ensures bs[j] < |t0| && IsFree(t0[bs[j]])
    {
      assert bs[j] in bs;
    }
  }

  ghost function Without(procs: seq<Proc>, p: nat): (r: seq<Proc>)
    requires p < |procs|
    ensures |r| == |procs| - 1
    ensures forall q :: 0 <= q < |r| ==> r[q] == procs[if q < p then q else q + 1]
  {
    procs[..p] + procs[p + 1..]
  }

  /** The process gives back its allocations, its page structures, and its place. */
  ghost function Exited(s: State, p: nat): State
    requires Whole(s) && p < |s.procs|
  {
    FreeFromKeeps(s, p, 0);
    var s1 := FreeFrom(s, p, 0);
    State(Released(s1.table, s.procs[p].blocks), Without(s1.procs, p))
  }

  /** Taking away a process that owns nothing. */
  lemma WithoutKeeps(s: State, p: nat)
    requires Whole(s) && p < |s.procs| && forall i :: !Live(s, p, i)
    ensures var s' := State(s.table, Without(s.procs, p));
      && Whole(s')
      && forall b: nat :: IsKept(s', b) <==> IsKept(s, b) && b !in s.procs[p].blocks
  {
    var s' := State(s.table, Without(s.procs, p));
    assert Shape(s');
    hide WellFormed, Runs, IsRun;
    forall q: nat, i: nat
      ensures Live(s', q, i) ==> Live(s, if q < p then q else q + 1, i) && At(s', q, i) == At(s, if q < p then q else q + 1, i)
    {
    }
    forall q: nat, h: nat | q < |s'.procs| && h < HEAP_BLOCKS
      ensures PageOk(s', q, h)
    {
      WithoutPageOk(s, p, q, h);
    }
    WithoutBlocks(s, p);
    hide PageOk;
    forall b: nat | IsKept(s', b)
      ensures KeptBlock(s', b)
    {
      assert KeptBlock(s, b);
    }
  }

  lemma WithoutPageOk(s: State, p: nat, q: nat, h: nat)
    requires Inv(s) && p < |s.procs| && q < |s.procs| - 1 && h < HEAP_BLOCKS
    ensures Shape(State(s.table, Without(s.procs, p))) && PageOk(State(s.table, Without(s.procs, p)), q, h)
  {
    var s', q' := State(s.table, Without(s.procs, p)), if q < p then q else q + 1;
    assert PageOk(s, q', h) && Shape(s');
    hide Inv, Writeable;
    assert s'.procs[q] == s.procs[q'];
    if Owns(s, q', h) {
      var i :| Live(s, q', i) && Inside(At(s, q', i), h);
      assert Live(s', q, i) && Inside(At(s', q, i), h);
    }
    if Owns(s', q, h) {
      var i :| Live(s', q, i) && Inside(At(s', q, i), h);
      assert Live(s, q', i) && Inside(At(s, q', i), h);
    }
  }

  lemma WithoutBlocks(s: State, p: nat)
    requires OwnBlocks(s) && p < |s.procs|
    ensures var s' := State(s.table, Without(s.procs, p));
      OwnBlocks(s') && forall b: nat :: IsKept(s', b) <==> IsKept(s, b) && b !in s.procs[p].blocks
  {
    var s' := State(s.table, Without(s.procs, p));
    forall b: nat
      ensures IsKept(s', b) <==> IsKept(s, b) && b !in s.procs[p].blocks
    {
      if IsKept(s, b) && b !in s.procs[p].blocks {
        var q :| 0 <= q < |s.procs| && b in s.procs[q].blocks;
        var q' := if q < p then q else q - 1;
        assert s'.procs[q'] == s.procs[q];
      }
      if IsKept(s', b) {
        var q :| 0 <= q < |s'.procs| && b in s'.procs[q].blocks;
        assert b in s.procs[if q < p then q else q + 1].blocks;
      }
    }
  }

  lemma KeptAreSingles(s: State, p: nat)
    requires Whole(s) && p < |s.procs|
    ensures Singles(s.table, s.procs[p].blocks) && AllDifferent(s.procs[p].blocks)
  {
    forall b | b in s.procs[p].blocks
      ensures b < |s.table| && s.table[b] == TAKEN | IS_FIRST
    {
      assert IsKept(s, b);
      assert KeptBlock(s, b);
    }
  }

  /** Giving back the page structures of a process that owns nothing. */
  lemma GiveBackKeeps(s: State, p: nat)
    requires Whole(s) && p < |s.procs| && forall i :: !Live(s, p, i)
    ensures Whole(State(Released(s.table, s.procs[p].blocks), Without(s.procs, p)))
  {
    var bs := s.procs[p].blocks;
    KeptAreSingles(s, p);
    WithoutKeeps(s, p);
    var s' := State(s.table, Without(s.procs, p));
    ReleasedRemovesRuns(s.table, bs);
    hide WellFormed, Runs;
    forall q: nat, i: nat | Live(s', q, i) && IsRun(Runs(s'.table), At(s', q, i))
      ensures BlockOf(At(s', q, i).ptr) !in bs
    {
      var q' := if q < p then q else q + 1;
      assert Live(s, q', i) && At(s, q', i) == At(s', q, i);
      PointerIsNotKept(s, p, q', i);
    }
    TableChangeKeepsInv(s', Released(s.table, bs));
    forall b: nat | IsKept(s', b)
      ensures b < HEAP_BLOCKS && Released(s.table, bs)[b] == s'.table[b]
    {
      assert KeptBlock(s', b);
    }
    TableChangeKeepsKept(s', Released(s.table, bs));
  }

  lemma ExitKeeps(s: State, p: nat)
    requires Whole(s) && p < |s.procs|
    ensures Whole(Exited(s, p))
  {
    FreeFromKeeps(s, p, 0);
    FreeFromLeavesNothing(s, p, 0);
    hide Whole, FreeFrom, Released;
    GiveBackKeeps(FreeFrom(s, p, 0), p);
  }

  lemma PointerIsNotKept(s: State, p: nat, q: nat, i: nat)
    requires Whole(s) && p < |s.procs| && Live(s, q, i)
    ensures At(s, q, i).ptr >= HEAP_ADDRESS && BlockOf(At(s, q, i).ptr) !in s.procs[p].blocks
  {
    var a := At(s, q, i);
    assert IsRun(Runs(s.table), a);
    forall b | b in s.procs[p].blocks
      ensures b < HEAP_BLOCKS && a.ptr != BlockAddr(b)
    {
      assert IsKept(s, b);
      assert KeptBlock(s, b);
    }
    assert BlockOf(a.ptr) < HEAP_BLOCKS ==> BlockAddr(BlockOf(a.ptr)) == a.ptr;
  }

  /** Of the heap's runs, exactly the process's allocations and page structures leave; of the processes, exactly this
      one. */
  lemma ExitRemovesExactly(s: State, p: nat, b: nat)
    requires Whole(s) && p < |s.procs|
    ensures b in Runs(Exited(s, p).table) <==> b in Runs(s.table) && !StartsAt(s, p, b) && b !in s.procs[p].blocks
    ensures Exited(s, p).procs == Without(s.procs, p)
  {
    assert Shape(s);
    hide Runs, WellFormed, FreeFrom, Inv, Kept, Singles;
    var s1 := FreeFrom(s, p, 0);
    FreeFromKeeps(s, p, 0);
    FreeFromLeavesNothing(s, p, 0);
    FreeFromRemovesOwnRuns(s, p, 0, b);
    KeptAreSingles(s1, p);
    WholeIsWellFormed(s1);
    ReleasedRemovesRuns(s1.table, s.procs[p].blocks);
    ExitRemovesProcess(s, p);
    hide StartsAt, Released, Without;
  }

  lemma ExitRemovesProcess(s: State, p: nat)
    requires Whole(s) && p < |s.procs|
    ensures Exited(s, p).procs == Without(s.procs, p)
  {
    hide Runs, WellFormed, FreeFrom, Inv, Kept;
    FreeFromKeeps(s, p, 0);
    FreeFromLeavesNothing(s, p, 0);
    assert Without(FreeFrom(s, p, 0).procs, p) == Without(s.procs, p);
  }

  lemma WholeIsWellFormed(s: State)
    requires Whole(s)
    ensures Shape(s) && WellFormed(s.table)
  {
  }

  // ---------- Out of reach ----------

  lemma KeptIsNotWriteable(s: State, p: nat, h: nat)
    requires Whole(s) && p < |s.procs| && h < HEAP_BLOCKS && IsKept(s, h)
    ensures !Owns(s, p, h) && !Writeable(HeapEntry(s, p, h))
  {
    assert PageOk(s, p, h);
    if Owns(s, p, h) {
      var i :| Live(s, p, i) && Inside(At(s, p, i), h);
      KeptIsNotInside(s, h, p, i);
      assert false;
    }
  }

  /** No allocation reaches into a block that holds page structures. */
  lemma KeptIsNotInside(s: State, b: nat, p: nat, i: nat)
    requires Whole(s) && IsKept(s, b) && Live(s, p, i)
    ensures !Inside(At(s, p, i), b)
  {
    var a := At(s, p, i);
    assert IsRun(Runs(s.table), a);
    assert KeptBlock(s, b);
    assert a.ptr != BlockAddr(b) && BlockAddr(BlockOf(a.ptr)) == a.ptr;
    KeptIsNotInRun(s, b, BlockOf(a.ptr));
  }
}
