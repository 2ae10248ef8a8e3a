/** What physical memory holds of the processes: their page directories and tables, in the heap blocks the state
    keeps for them. */
module MemoryImage {
  import opened Machine
  import opened Heap
  import opened Memory
  import opened Paging
  import opened PageDirectory
  import opened ProcessMemory
  import opened ProcessBlocks
  import opened ProcessHeld

  /** The frame of the directory whose first block is bs[0]. */
  ghost function DirFrame(bs: seq<nat>): Frame {
    if |bs| > 0 && bs[0] < HEAP_BLOCKS then HEAP_PAGE + bs[0] else 0
  }

  /** The blocks hold a directory, its tables, and the structure that points at it; the directory's own entries allow
      everything, so that the tables' entries decide. */
  ghost predicate Structures(m: Words, bs: seq<nat>) {
    && |bs| == BLOCKS && (forall j :: 0 <= j < BLOCKS ==> bs[j] < HEAP_BLOCKS)
    && (forall i :: 0 <= i < ENTRIES ==> Linked(m, HEAP_PAGE, bs, i))
    && (forall i :: 0 <= i < ENTRIES ==> TableFlags(m, DirFrame(bs), i) == USER_RW)
    && m[ENTRIES * (HEAP_PAGE + bs[BLOCKS - 1])] == DirFrame(bs) * PAGE_SIZE
  }

  ghost predicate Realised(m: Words, proc: Proc) {
    Structures(m, proc.blocks) && proc.pages == Pages(m, DirFrame(proc.blocks))
  }

  /** Memory m realises the state s. */
  ghost predicate Consistent(s: State, m: Words) {
    Whole(s) && forall p :: 0 <= p < |s.procs| ==> Realised(m, s.procs[p])
  }

  /** The state that a heap table, the allocation arrays, the directories in memory and the runs held stand for. */
  ghost function Abstraction(table: seq<bv8>, tables: seq<seq<Allocation>>, m: Words, blocks: seq<seq<nat>>,
                             held: seq<set<nat>>): (s: State)
    requires |tables| == |blocks| == |held|
  {
    State(table, seq(|blocks|, p requires 0 <= p < |blocks| =>
      Proc(tables[p], Pages(m, DirFrame(blocks[p])), blocks[p], held[p])))
  }

  // ---------- What the processor lets a process do ----------

  /** What a process may read and write, by both levels of its directory in memory, is what its page entries say. */
  lemma ProcessorAllows(s: State, m: Words, p: nat, x: Frame)
    requires Consistent(s, m) && p < |s.procs|
    ensures |s.procs[p].pages| == PAGES && Entry(m, DirFrame(s.procs[p].blocks), x) == s.procs[p].pages[x]
    ensures MayRead(m, DirFrame(s.procs[p].blocks), x) <==> Usable(s.procs[p].pages[x])
    ensures MayWrite(m, DirFrame(s.procs[p].blocks), x) <==> Writeable(s.procs[p].pages[x])
  {
    var d := DirFrame(s.procs[p].blocks);
    assert Realised(m, s.procs[p]);
    assert TableFlags(m, d, x / ENTRIES) == USER_RW;
    hide Whole, Linked, Entry, Usable, Writeable;
    assert Pages(m, d)[x] == Entry(m, d, x);
    WriteableFlag(m[ENTRIES * d + x / ENTRIES], USER_RW);
    SameFlagsAllow(m[ENTRIES * d + x / ENTRIES], USER_RW);
    assert Usable(USER_RW) by { UserEntry(); }
  }

  lemma UserEntry()
    ensures Usable(USER_RW) && Usable(USER_RO) && Writeable(USER_RW) && !Writeable(USER_RO)
  {
  }

  /** What the processor's base register holds while these page structures are in use. */
  ghost function Cr3(bs: seq<nat>): uint32 {
    DirFrame(bs) * PAGE_SIZE
  }

  /** Where a process's accesses go. */
  lemma AccessIs(s: State, m: Words, p: nat, virt: uint32)
    requires Consistent(s, m) && p < |s.procs|
    ensures |s.procs[p].pages| == PAGES
    ensures var e := s.procs[p].pages[virt / PAGE_SIZE];
      && Access(m, Cr3(s.procs[p].blocks), virt, true)
         == (if Writeable(e) then Some(Translate(s.procs[p].pages, virt)) else None)
      && Access(m, Cr3(s.procs[p].blocks), virt, false)
         == (if Usable(e) then Some(Translate(s.procs[p].pages, virt)) else None)
  {
    var d := DirFrame(s.procs[p].blocks);
    ProcessorAllows(s, m, p, virt / PAGE_SIZE);
    AccessIsTranslate(m, d, virt, true);
    AccessIsTranslate(m, d, virt, false);
    assert Realised(m, s.procs[p]);
    hide Access, MayRead, MayWrite, Structures, Whole, Usable, Writeable, Pages, Translate;
  }

  /** A process may write the page of a heap block exactly when the block lies in one of its live allocations. */
  lemma HeapPageIsWritableExactlyWhen(s: State, m: Words, p: nat, h: nat)
    requires Consistent(s, m) && p < |s.procs| && h < HEAP_BLOCKS
    ensures MayWrite(m, DirFrame(s.procs[p].blocks), HEAP_PAGE + h) <==> Shape(s) && Owns(s, p, h)
    ensures Entry(m, DirFrame(s.procs[p].blocks), HEAP_PAGE + h) / PAGE_SIZE == HEAP_PAGE + h
  {
    ProcessorAllows(s, m, p, HEAP_PAGE + h);
    assert PageOk(s, p, h);
    hide MayWrite, Entry, Owns, Writeable, Kept;
  }

  /** Through whatever addresses, what one process may write no other may write, and it is no part of the kernel. */
  lemma MemoryIsIsolated(s: State, m: Words, p: nat, virt: uint32, q: nat, virt': uint32)
    requires Consistent(s, m) && Sealed(s) && p < |s.procs| && q < |s.procs|
    requires Access(m, Cr3(s.procs[p].blocks), virt, true).Some? && Access(m, Cr3(s.procs[q].blocks), virt', true).Some?
    requires Access(m, Cr3(s.procs[p].blocks), virt, true).value / PAGE_SIZE
          == Access(m, Cr3(s.procs[q].blocks), virt', true).value / PAGE_SIZE
    ensures p == q && PrivateTo(s, p, Access(m, Cr3(s.procs[p].blocks), virt, true).value / PAGE_SIZE)
  {
    AccessReaches(s, m, p, virt);
    AccessReaches(s, m, q, virt');
    hide Access, Sealed, Consistent, OutOfKernel, Reaches;
    ReachedIsPrivate(s, p, Access(m, Cr3(s.procs[p].blocks), virt, true).value / PAGE_SIZE);
  }

  lemma AccessReaches(s: State, m: Words, p: nat, virt: uint32)
    requires Consistent(s, m) && p < |s.procs| && Access(m, Cr3(s.procs[p].blocks), virt, true).Some?
    ensures Shape(s) && Reaches(s, p, Access(m, Cr3(s.procs[p].blocks), virt, true).value / PAGE_SIZE)
  {
    AccessIs(s, m, p, virt);
    TranslateInFrame(s.procs[p].pages[virt / PAGE_SIZE], virt);
    hide Access, Realised, Kept, Writeable;
    assert ShowsWriteable(s, p, virt / PAGE_SIZE, s.procs[p].pages[virt / PAGE_SIZE] / PAGE_SIZE);
  }

  // ---------- Changes of memory ----------

  lemma StructuresDirOk(m: Words, bs: seq<nat>)
    requires Structures(m, bs) && AllDifferent(bs)
    ensures DirOk(m, DirFrame(bs))
  {
    forall i | 0 <= i < ENTRIES
      ensures TableOf(m, DirFrame(bs), i) == HEAP_PAGE + bs[1 + i]
    {
      assert Linked(m, HEAP_PAGE, bs, i);
    }
  }

  lemma SameTableFlags(m: Words, m': Words, d: Frame)
    requires SameFrame(m, m', d)
    ensures forall i :: 0 <= i < ENTRIES ==> TableFlags(m', d, i) == TableFlags(m, d, i)
  {
  }

  /** Page structures depend on their own frames only. */
  lemma StructuresElsewhere(m: Words, m': Words, bs: seq<nat>)
    requires Structures(m, bs) && forall j :: 0 <= j < BLOCKS ==> SameFrame(m, m', HEAP_PAGE + bs[j])
    ensures Structures(m', bs) && Pages(m', DirFrame(bs)) == Pages(m, DirFrame(bs))
  {
    var d := DirFrame(bs);
    assert SameFrame(m, m', d) by { assert SameFrame(m, m', HEAP_PAGE + bs[0]); }
    forall i | 0 <= i < ENTRIES
      ensures TableOf(m, d, i) == HEAP_PAGE + bs[1 + i] && SameFrame(m, m', TableOf(m, d, i))
    {
      assert Linked(m, HEAP_PAGE, bs, i);
      assert SameFrame(m, m', HEAP_PAGE + bs[1 + i]);
    }
    OtherFramesKeepPages(m, m', d);
    assert SameFrame(m, m', HEAP_PAGE + bs[BLOCKS - 1]);
    hide Pages;
    forall i | 0 <= i < ENTRIES
      ensures Linked(m', HEAP_PAGE, bs, i)
    {
      assert TableOf(m', d, i) == TableOf(m, d, i);
    }
    SameTableFlags(m, m', d);
  }

  /** The tables of a directory are in its blocks, and the structure pointing at it is not one of them. */
  lemma TablesAreBlocks(m: Words, bs: seq<nat>, f: Frame)
    requires Structures(m, bs) && AllDifferent(bs) && IsTable(m, DirFrame(bs), f)
    ensures f >= HEAP_PAGE && f - HEAP_PAGE in bs && f != HEAP_PAGE + bs[BLOCKS - 1]
  {
    var i :| 0 <= i < ENTRIES && TableOf(m, DirFrame(bs), i) == f;
    assert Linked(m, HEAP_PAGE, bs, i);
    assert f - HEAP_PAGE == bs[1 + i];
  }

  /** Changing pages changes frames of the process's blocks only, and leaves its page structures in place. */
  lemma RemapStructures(m: Words, m': Words, bs: seq<nat>, pages: seq<uint32>)
    requires Structures(m, bs) && AllDifferent(bs) && OnlyPages(m, m', DirFrame(bs), pages)
    ensures Structures(m', bs) && Pages(m', DirFrame(bs)) == pages
    ensures OnlyBlocks(m, m', HEAP_PAGE, bs)
  {
    hide Pages;
    var d := DirFrame(bs);
    forall f: Frame | f < HEAP_PAGE || f - HEAP_PAGE !in bs || f == HEAP_PAGE + bs[BLOCKS - 1]
      ensures SameFrame(m, m', f)
    {
      if IsTable(m, d, f) {
        TablesAreBlocks(m, bs, f);
        assert false;
      }
    }
    assert SameFrame(m, m', HEAP_PAGE + bs[BLOCKS - 1]);
    SameTableFlags(m, m', d) by { assert !IsTable(m, d, d); }
    forall i | 0 <= i < ENTRIES
      ensures Linked(m', HEAP_PAGE, bs, i)
    {
      assert Linked(m, HEAP_PAGE, bs, i);
      assert TableOf(m', d, i) == TableOf(m, d, i);
    }
  }

  lemma ProcessBlocksKept(s: State, p: nat, j: nat)
    requires Whole(s) && p < |s.procs| && j < BLOCKS
    ensures |s.procs[p].blocks| == BLOCKS && AllDifferent(s.procs[p].blocks)
    ensures IsKept(s, s.procs[p].blocks[j]) && s.procs[p].blocks[j] < HEAP_BLOCKS
    ensures s.table[s.procs[p].blocks[j]] == TAKEN | IS_FIRST
  {
    var b := s.procs[p].blocks[j];
    assert b in s.procs[p].blocks;
    assert IsKept(s, b);
    assert KeptBlock(s, b);
  }

  /** Changing memory outside the blocks that hold page structures changes no page of any process. */
  lemma UnprotectedChange(s: State, m: Words, m': Words)
    requires Consistent(s, m)
    requires forall b: nat :: b < HEAP_BLOCKS && IsKept(s, b) ==> SameFrame(m, m', HEAP_PAGE + b)
    ensures Consistent(s, m')
  {
    hide Structures, Pages, SameFrame, Kept, Inv;
    forall p | 0 <= p < |s.procs|
      ensures Realised(m', s.procs[p])
    {
      var bs := s.procs[p].blocks;
      assert Realised(m, s.procs[p]);
      forall j | 0 <= j < BLOCKS
        ensures j < |bs| && bs[j] < HEAP_BLOCKS && SameFrame(m, m', HEAP_PAGE + bs[j])
      {
        ProcessBlocksKept(s, p, j);
      }
      StructuresElsewhere(m, m', bs);
    }
  }

  /** When one process's pages change, in memory as in the state, and its other parts in any way that keeps the
      invariant, memory still realises the state. */
  lemma OneProcessChanges(s: State, s': State, m: Words, m': Words, p: nat)
    requires Consistent(s, m) && Whole(s') && SameBlocks(s, s') && p < |s.procs|
    requires forall q :: 0 <= q < |s.procs| && q != p ==> s'.procs[q] == s.procs[q]
    requires OnlyPages(m, m', DirFrame(s.procs[p].blocks), s'.procs[p].pages)
    ensures Consistent(s', m') && OnlyBlocks(m, m', HEAP_PAGE, s.procs[p].blocks)
  {
    var bs := s.procs[p].blocks;
    assert Realised(m, s.procs[p]);
    ProcessBlocksKept(s, p, 0);
    RemapStructures(m, m', bs, s'.procs[p].pages);
    hide OnlyPages, Pages, Structures, Inv;
    forall q | 0 <= q < |s'.procs|
      ensures Realised(m', s'.procs[q])
    {
      if q != p {
        OtherProcessStays(s, m, m', p, q);
      }
    }
  }

  lemma OtherProcessStays(s: State, m: Words, m': Words, p: nat, q: nat)
    requires Consistent(s, m) && p < |s.procs| && q < |s.procs| && p != q
    requires OnlyBlocks(m, m', HEAP_PAGE, s.procs[p].blocks)
    ensures Realised(m', s.procs[q])
  {
    hide Structures, Pages, SameFrame, Inv;
    var bs := s.procs[q].blocks;
    assert Realised(m, s.procs[q]);
    forall j | 0 <= j < BLOCKS
      ensures j < |bs| && bs[j] < HEAP_BLOCKS && SameFrame(m, m', HEAP_PAGE + bs[j])
    {
      ProcessBlocksKept(s, q, j);
      assert bs[j] in bs && bs[j] !in s.procs[p].blocks;
      assert HEAP_PAGE + bs[j] - HEAP_PAGE == bs[j];
    }
    StructuresElsewhere(m, m', bs);
  }

  // ---------- Data ----------

  /** Frame f is in use by somebody, but not for page structures. */
  ghost predicate HoldsData(s: State, f: Frame)
    requires Shape(s)
  {
    && !(f >= HEAP_PAGE && IsKept(s, f - HEAP_PAGE))
    && (HEAP_PAGE <= f < HEAP_PAGE + HEAP_BLOCKS ==> !IsFree(s.table[f - HEAP_PAGE]))
  }

  ghost predicate DataKept(s: State, m: Words, m': Words)
    requires Shape(s)
  {
    forall f: Frame :: HoldsData(s, f) ==> SameFrame(m, m', f)
  }

  lemma OnlyBlocksKeepsData(s: State, m0: Words, m: Words, m': Words, p: nat)
    requires Shape(s) && p < |s.procs| && OnlyBlocks(m, m', HEAP_PAGE, s.procs[p].blocks) && DataKept(s, m0, m)
    ensures DataKept(s, m0, m')
  {
    assert forall b: nat :: b in s.procs[p].blocks ==> IsKept(s, b);
    forall f: Frame | HoldsData(s, f)
      ensures SameFrame(m0, m', f)
    {
      assert SameFrame(m0, m, f) && SameFrame(m, m', f);
    }
  }

  lemma NothingChanged(s: State, m: Words)
    requires Shape(s)
    ensures DataKept(s, m, m)
  {
  }

  lemma OnlyBlocksNothing(m: Words, bs: seq<nat>)
    ensures OnlyBlocks(m, m, HEAP_PAGE, bs)
  {
  }

  lemma OnlyBlocksTwice(m: Words, m1: Words, m2: Words, bs: seq<nat>)
    requires OnlyBlocks(m, m1, HEAP_PAGE, bs) && OnlyBlocks(m1, m2, HEAP_PAGE, bs)
    ensures OnlyBlocks(m, m2, HEAP_PAGE, bs)
  {
    forall f: Frame | f < HEAP_PAGE || f - HEAP_PAGE !in bs
      ensures SameFrame(m, m2, f)
    {
      assert SameFrame(m, m1, f) && SameFrame(m1, m2, f);
    }
  }

  // ---------- Clearing a new allocation ----------

  /** Clearing a freshly allocated run touches no other frame. */
  lemma ClearedOutsideRun(m: Words, m': Words, b: nat, size: uint32, f: Frame)
    requires 0 < size <= 0xFFFF_F000 && b + BlocksFor(size) <= HEAP_BLOCKS
    requires !(HEAP_PAGE + b <= f < HEAP_PAGE + b + BlocksFor(size))
    requires forall a: uint32 :: ByteAt(m', a) == if BlockAddr(b) <= a < BlockAddr(b) + size then 0 else ByteAt(m, a)
    ensures SameFrame(m, m', f)
  {
    assert size <= BlocksFor(size) * BLOCK_SIZE;
    hide BlocksFor, ByteAt;
    forall i | ENTRIES * f <= i < ENTRIES * f + ENTRIES
      ensures m[i] == m'[i]
    {
      ClearedElsewhere(m, m', BlockAddr(b), size, i);
    }
  }

  lemma RunEndsInMemory(b: nat, size: uint32)
    requires 0 < size <= 0xFFFF_F000 && b + BlocksFor(size) <= HEAP_BLOCKS
    ensures BlockAddr(b) + size <= 4 * WORDS
  {
    assert size <= BlocksFor(size) * BLOCK_SIZE;
  }

  lemma ClearedKeeps(s: State, m: Words, m': Words, b: nat, size: uint32)
    requires Consistent(s, m) && 0 < size <= 0xFFFF_F000 && FreeRun(s.table, b, BlocksFor(size))
    requires forall a: uint32 :: ByteAt(m', a) == if BlockAddr(b) <= a < BlockAddr(b) + size then 0 else ByteAt(m, a)
    ensures Consistent(s, m') && DataKept(s, m, m')
  {
    forall k: nat | k < HEAP_BLOCKS && IsKept(s, k)
      ensures SameFrame(m, m', HEAP_PAGE + k)
    {
      KeptIsNotFree(s, k);
      ClearedOutsideRun(m, m', b, size, HEAP_PAGE + k);
    }
    forall f: Frame | HoldsData(s, f)
      ensures SameFrame(m, m', f)
    {
      ClearedOutsideRun(m, m', b, size, f);
    }
    hide SameFrame, Whole, Realised, ByteAt;
    UnprotectedChange(s, m, m');
  }

  // ---------- A user's store ----------

  /** A store that the processor does not refuse lands in a frame that this process alone can write and that is no part
      of the kernel; it changes no page of any process and no other frame. Through a heap page it lands at the address it
      names. */
  lemma UserStoreIsContained(s: State, m: Words, p: nat, virt: uint32, w: uint32)
    requires Consistent(s, m) && Sealed(s) && p < |s.procs| && Access(m, Cr3(s.procs[p].blocks), virt, true).Some?
    ensures var at := Access(m, Cr3(s.procs[p].blocks), virt, true).value;
      && PrivateTo(s, p, at / PAGE_SIZE)
      && (IsHeapPage(virt / PAGE_SIZE) ==> at == virt)
      && Consistent(s, m[at / 4 := w])
      && OnlyFrames(m, m[at / 4 := w], [at / PAGE_SIZE])
    ensures |s.procs[p].pages| == PAGES && Writeable(s.procs[p].pages[virt / PAGE_SIZE])
         && Access(m, Cr3(s.procs[p].blocks), virt, true).value == Translate(s.procs[p].pages, virt)
  {
    AccessIs(s, m, p, virt);
    AccessReaches(s, m, p, virt);
    var at: uint32 := Access(m, Cr3(s.procs[p].blocks), virt, true).value;
    ReachedIsPrivate(s, p, at / PAGE_SIZE);
    if IsHeapPage(virt / PAGE_SIZE) {
      assert PageOk(s, p, virt / PAGE_SIZE - HEAP_PAGE);
    }
    hide Access, Whole, Realised, Reaches, SameFrame, Writeable;
    var m': Words := m[at / 4 := w];
    forall g: Frame | g != at / PAGE_SIZE
      ensures SameFrame(m, m', g)
    {
      StoreInFrame(m, at, w, g);
    }
    UnprotectedChange(s, m, m');
  }

  lemma TranslateInFrame(e: uint32, virt: uint32)
    ensures (e / PAGE_SIZE * PAGE_SIZE + virt % PAGE_SIZE) / PAGE_SIZE == e / PAGE_SIZE
  {
  }

  // ---------- A new directory ----------

  /** A directory built by paging_new makes a new process and disturbs nobody else. */
  lemma SpawnIsConsistent(s: State, m: Words, m': Words, bs: seq<nat>)
    requires Consistent(s, m) && Available(s, bs)
    requires Built(m', HEAP_PAGE, bs, ENTRIES, USER_RO) && OnlyBlocks(m, m', HEAP_PAGE, bs)
    requires m'[ENTRIES * (HEAP_PAGE + bs[BLOCKS - 1])] == DirFrame(bs) * PAGE_SIZE
    ensures Consistent(Spawned(s, bs), m')
    ensures DataKept(s, m, m')
  {
    SpawnKeeps(s, bs);
    NewDirectory(m', bs);
    forall p: nat | p < |s.procs|
      ensures Realised(m', s.procs[p])
    {
      AvailableIsElsewhere(s, m, m', bs, p);
    }
    assert forall b: nat :: b in bs ==> b < HEAP_BLOCKS && IsFree(s.table[b]);
    forall f: Frame | HoldsData(s, f)
      ensures SameFrame(m, m', f)
    {
    }
    hide Whole, Realised, SameFrame, Built, Available, NewProc;
  }

  lemma NewDirectory(m: Words, bs: seq<nat>)
    requires |bs| == BLOCKS && AllDifferent(bs) && (forall j :: 0 <= j < BLOCKS ==> bs[j] < HEAP_BLOCKS)
    requires Built(m, HEAP_PAGE, bs, ENTRIES, USER_RO)
    requires m[ENTRIES * (HEAP_PAGE + bs[BLOCKS - 1])] == DirFrame(bs) * PAGE_SIZE
    ensures Realised(m, NewProc(bs))
  {
    CompleteDirectory(m, HEAP_PAGE, bs, USER_RO);
    assert Or(USER_RO, IS_WRITEABLE) == USER_RW;
    forall i | 0 <= i < ENTRIES
      ensures Linked(m, HEAP_PAGE, bs, i) && TableFlags(m, DirFrame(bs), i) == USER_RW
    {
      BuiltIsLinked(m, HEAP_PAGE, bs, USER_RO, i);
    }
    hide Pages, Built, Linked;
    assert NewProc(bs).pages == FreshPages();
  }

  lemma AvailableIsElsewhere(s: State, m: Words, m': Words, bs: seq<nat>, p: nat)
    requires Consistent(s, m) && Available(s, bs) && OnlyBlocks(m, m', HEAP_PAGE, bs) && p < |s.procs|
    ensures Realised(m', s.procs[p])
  {
    assert Shape(s);
    hide Structures, Pages, SameFrame, Inv;
    var own := s.procs[p].blocks;
    assert Realised(m, s.procs[p]);
    forall j | 0 <= j < BLOCKS
      ensures j < |own| && own[j] < HEAP_BLOCKS && SameFrame(m, m', HEAP_PAGE + own[j])
    {
      ProcessBlocksKept(s, p, j);
      KeptIsNotFree(s, own[j]);
      assert own[j] !in bs;
      assert HEAP_PAGE + own[j] - HEAP_PAGE == own[j];
    }
    StructuresElsewhere(m, m', own);
  }

  /** A new process reads every address at itself and writes none. */
  lemma NewProcessAccess(s: State, m: Words, p: nat, bs: seq<nat>)
    requires Consistent(s, m) && p < |s.procs| && s.procs[p] == NewProc(bs)
    ensures forall a: uint32 :: Access(m, Cr3(bs), a, false) == Some(a) && Access(m, Cr3(bs), a, true) == None
  {
    hide Access, Consistent, NewProc;
    forall a: uint32
      ensures Access(m, Cr3(bs), a, false) == Some(a) && Access(m, Cr3(bs), a, true) == None
    {
      NewProcessAccessAt(s, m, p, bs, a);
    }
  }

  lemma NewProcessAccessAt(s: State, m: Words, p: nat, bs: seq<nat>, a: uint32)
    requires Consistent(s, m) && p < |s.procs| && s.procs[p] == NewProc(bs)
    ensures Access(m, Cr3(bs), a, false) == Some(a) && Access(m, Cr3(bs), a, true) == None
  {
    hide Access, Consistent, Writeable, Usable, EntryOf, Cr3;
    AccessIs(s, m, p, a);
    EntryFields(a / PAGE_SIZE, USER_RO);
    SameFlagsAllow(EntryOf(a / PAGE_SIZE, USER_RO), USER_RO);
    UserEntry();
    assert s.procs[p].pages[a / PAGE_SIZE] == EntryOf(a / PAGE_SIZE, USER_RO);
  }

  // ---------- The end of a process ----------

  /** Freeing page structures changes no memory, so those of the others stay. */
  lemma ExitIsConsistent(s: State, m: Words, p: nat)
    requires Consistent(s, m) && p < |s.procs| && forall i :: !Live(s, p, i)
    requires Whole(State(Released(s.table, s.procs[p].blocks), Without(s.procs, p)))
    ensures Consistent(State(Released(s.table, s.procs[p].blocks), Without(s.procs, p)), m)
  {
    hide Whole, Realised, Released;
    var procs := Without(s.procs, p);
    forall q | 0 <= q < |procs|
      ensures Realised(m, procs[q])
    {
      assert Realised(m, s.procs[if q < p then q else q + 1]);
    }
  }
}
