/** Loading a program into a process, and when that leaves the heap pages as they have to be. */
module ProcessLoad {
  import opened Machine
  import opened Heap
  import opened HeapRuns
  import opened Paging
  import opened Elf
  import opened ElfMap
  import opened ProcessMemory
  import opened ProcessBlocks

  ghost function Loaded(s: State, p: nat, program: Program, stack: uint32): State
    requires Shape(s) && p < |s.procs|
  {
    s.(procs := s.procs[p := s.procs[p].(pages := MapMemory(s.procs[p].pages, program, stack).0)])
  }

  /** Loading leaves the page of heap block h as it has to be: nothing maps it, or what maps it last maps it to
      itself, writable exactly if the process owns the block. */
  ghost predicate HeapPageStays(s: State, p: nat, program: Program, h: nat)
    requires Shape(s) && p < |s.procs| && h < HEAP_BLOCKS
  {
    match program
    case Binary(addr, size) =>
      BinaryTouches(addr, size, HEAP_PAGE + h) ==> addr == PGM_VIRT_ADDR && Owns(s, p, h)
    case ElfImage(memory, headers) =>
      var i := Setter(memory, headers, HEAP_PAGE + h);
      i != -1 ==> SelfMapped(memory, headers[i]) && (WantsWriteable(headers[i]) <==> Owns(s, p, h))
  }

  ghost predicate KeepsHeapPages(s: State, p: nat, program: Program)
    requires Shape(s) && p < |s.procs|
  {
    forall h :: 0 <= h < HEAP_BLOCKS ==> HeapPageStays(s, p, program, h)
  }

  lemma HeapIsNotStack(h: nat)
    requires h < HEAP_BLOCKS
    ensures !IsStackPage(HEAP_PAGE + h)
  {
  }

  /** The entry of a heap page after loading. */
  lemma LoadedEntry(pages: seq<uint32>, program: Program, stack: uint32, h: nat)
    requires |pages| == PAGES && h < HEAP_BLOCKS
    ensures MapMemory(pages, program, stack).0[HEAP_PAGE + h] == MapProgram(pages, program).0[HEAP_PAGE + h]
  {
    HeapIsNotStack(h);
    StackTouchesOnlyItsPages(MapProgram(pages, program).0, stack, HEAP_PAGE + h);
    hide MapProgram, MapStack, IsStackPage;
  }

  lemma LoadedOwner(s: State, p: nat, program: Program, stack: uint32, q: nat, h: nat)
    requires Shape(s) && p < |s.procs|
    ensures Shape(Loaded(s, p, program, stack))
    ensures Owns(Loaded(s, p, program, stack), q, h) <==> Owns(s, q, h)
  {
    hide MapMemory;
    var s' := Loaded(s, p, program, stack);
    assert Shape(s');
    forall i
      ensures Live(s', q, i) <==> Live(s, q, i)
      ensures Live(s, q, i) ==> At(s', q, i) == At(s, q, i)
    {
    }
    if q < |s.procs| {
      SameOwner(s, s', q, h);
    }
  }

  /** Loading keeps the page of one heap block right exactly when the condition says so. */
  lemma PageOkAfterLoad(s: State, p: nat, program: Program, stack: uint32, h: nat)
    requires Shape(s) && p < |s.procs| && h < HEAP_BLOCKS && PageOk(s, p, h)
    ensures Shape(Loaded(s, p, program, stack))
    ensures PageOk(Loaded(s, p, program, stack), p, h) <==> HeapPageStays(s, p, program, h)
  {
    var page: Frame := HEAP_PAGE + h;
    LoadedOwner(s, p, program, stack, p, h);
    LoadedEntry(s.procs[p].pages, program, stack, h);
    assert HeapEntry(Loaded(s, p, program, stack), p, h) == MapProgram(s.procs[p].pages, program).0[page];
    match program {
      case Binary(addr, size) =>
        BinaryEntryIs(s.procs[p].pages, addr, size, page);
        if addr % PAGE_SIZE == 0 {
          BinaryEntryFields(addr, page);
        }
        hide MapProgram, MapMemory, BinaryEntry, Writeable, Owns;
      case ElfImage(memory, headers) =>
        EntryIsTheSetters(s.procs[p].pages, memory, headers, page);
        var i := Setter(memory, headers, page);
        if i != -1 {
          SegmentEntryFields(memory, headers[i], page);
        }
        hide MapSegments, MapMemory, SegmentEntry, Writeable, Owns, SelfMapped, WantsWriteable;
    }
  }

  /** Loading a program keeps the invariant exactly when it leaves every heap page as it has to be. */
  lemma LoadKeepsExactlyWhen(s: State, p: nat, program: Program, stack: uint32)
    requires Whole(s) && p < |s.procs|
    ensures Whole(Loaded(s, p, program, stack)) <==> KeepsHeapPages(s, p, program)
    ensures Inv(Loaded(s, p, program, stack)) <==> KeepsHeapPages(s, p, program)
  {
    var s' := Loaded(s, p, program, stack);
    forall h: nat | h < HEAP_BLOCKS
      ensures Shape(s') && (PageOk(s', p, h) <==> HeapPageStays(s, p, program, h))
    {
      assert PageOk(s, p, h);
      PageOkAfterLoad(s, p, program, stack, h);
    }
    LoadKeepsTheRest(s, p, program, stack);
    hide Loaded, HeapPageStays, PageOk, WellFormed, Kept, IsRun, DistinctPointers;
    if KeepsHeapPages(s, p, program) {
      forall q, h | 0 <= q < |s'.procs| && 0 <= h < HEAP_BLOCKS
        ensures PageOk(s', q, h)
      {
        if q == p {
          assert HeapPageStays(s, p, program, h);
        }
      }
    }
    if Inv(s') {
      forall h: nat | h < HEAP_BLOCKS
        ensures HeapPageStays(s, p, program, h)
      {
        assert PageOk(s', p, h);
      }
    }
  }

  /** Nothing but pages of the one process changes. */
  lemma LoadKeepsTheRest(s: State, p: nat, program: Program, stack: uint32)
    requires Whole(s) && p < |s.procs|
    ensures var s' := Loaded(s, p, program, stack);
      && Shape(s') && WellFormed(s'.table) && DistinctPointers(s') && Kept(s') && SameBlocks(s, s')
      && (forall q, i :: Live(s', q, i) ==> IsRun(Runs(s'.table), At(s', q, i)))
      && (forall q, h :: 0 <= q < |s'.procs| && q != p && 0 <= h < HEAP_BLOCKS ==> PageOk(s', q, h))
  {
    hide MapMemory, WellFormed, Runs, IsRun;
    var s' := Loaded(s, p, program, stack);
    assert Shape(s') && SameBlocks(s, s');
    forall q, i
      ensures Live(s', q, i) <==> Live(s, q, i)
      ensures Live(s, q, i) ==> At(s', q, i) == At(s, q, i)
    {
    }
    forall q: nat, h: nat | q < |s'.procs| && q != p && h < HEAP_BLOCKS
      ensures PageOk(s', q, h)
    {
      assert PageOk(s, q, h);
      SameOwner(s, s', q, h);
    }
    forall b: nat | IsKept(s', b)
      ensures KeptBlock(s', b)
    {
      SameBlocksSameKept(s, s', b);
      assert KeptBlock(s, b);
    }
  }

  /** For a flat program, elsewhere than at its own address: it must end below the heap, or be so large that
      nothing is mapped. */
  lemma BinaryKeepsHeapExactlyWhen(s: State, p: nat, addr: uint32, size: uint32)
    requires Shape(s) && p < |s.procs|
    requires addr % PAGE_SIZE == 0 && addr != PGM_VIRT_ADDR && addr + size <= 0xFFFF_F000
    ensures KeepsHeapPages(s, p, Binary(addr, size)) <==>
            PGM_VIRT_ADDR + size <= HEAP_ADDRESS || size > 0x7FFF_F000
  {
    BinaryReachesHeapExactlyWhen(addr, size);
    hide BinaryTouches, Owns;
    if KeepsHeapPages(s, p, Binary(addr, size)) {
      assert HeapPageStays(s, p, Binary(addr, size), 0);
    }
    forall h | 0 <= h < HEAP_BLOCKS && !BinaryTouchesBlock(addr, size, 0)
      ensures HeapPageStays(s, p, Binary(addr, size), h)
    {
      assert !BinaryTouchesBlock(addr, size, h);
    }
  }

  /** Mapping this flat program writes the entry of heap block h's page. */
  predicate BinaryTouchesBlock(addr: uint32, size: uint32, h: nat)
    requires h < HEAP_BLOCKS
  {
    BinaryTouches(addr, size, HEAP_PAGE + h)
  }

  /** The pages of a flat program: its size rounded up, or none from 2 GiB on. */
  lemma BinaryPages(addr: uint32, size: uint32)
    requires addr % PAGE_SIZE == 0 && addr + size <= 0xFFFF_F000
    ensures var end, n := AlignUp(Wrap(addr + size)), PageCount(addr, AlignUp(Wrap(addr + size)));
      && addr <= end
      && (size <= 0x7FFF_F000 ==> size <= n * PAGE_SIZE < size + PAGE_SIZE)
      && (size > 0x7FFF_F000 ==> n < 0)
  {
    var end := AlignUp(Wrap(addr + size));
    assert Wrap(addr + size) == addr + size;
    assert addr + size <= end < addr + size + PAGE_SIZE;
    MultipleOfPage(addr, end);
    hide AlignUp, Wrap, PageCount;
    if size > 0x7FFF_F000 {
      NegativeCount(end - addr);
    }
  }

  lemma NegativeCount(span: uint32)
    requires span % PAGE_SIZE == 0 && span > 0x7FFF_F000
    ensures span >= 0x8000_0000 && (0x1_0000_0000 - span) / PAGE_SIZE > 0
  {
  }

  lemma BinaryReachesHeapExactlyWhen(addr: uint32, size: uint32)
    requires addr % PAGE_SIZE == 0 && addr + size <= 0xFFFF_F000
    ensures BinaryTouchesBlock(addr, size, 0) <==> PGM_VIRT_ADDR + size > HEAP_ADDRESS && size <= 0x7FFF_F000
    ensures forall h: nat :: h < HEAP_BLOCKS && BinaryTouchesBlock(addr, size, h) ==> BinaryTouchesBlock(addr, size, 0)
  {
    BinaryPages(addr, size);
    hide AlignUp, PageCount;
  }

  lemma MultipleOfPage(a: uint32, b: uint32)
    requires a <= b && a % PAGE_SIZE == 0 && b % PAGE_SIZE == 0
    ensures b == a + (b - a) / PAGE_SIZE * PAGE_SIZE
  {
  }

  /** For an ELF program whose headers all succeed and none of which is mapped to itself: no header may touch a heap
      page. */
  lemma ElfKeepsHeapExactlyWhen(s: State, p: nat, memory: uint32, hs: seq<Header>)
    requires Shape(s) && p < |s.procs|
    requires forall i :: 0 <= i < |hs| ==> !Fails(memory, hs[i]) && !SelfMapped(memory, hs[i])
    ensures KeepsHeapPages(s, p, ElfImage(memory, hs)) <==>
            forall h :: 0 <= h < HEAP_BLOCKS ==> NoneTouches(memory, hs, h)
  {
    hide Touches, Fails, SelfMapped, Setter;
    forall h | 0 <= h < HEAP_BLOCKS
      ensures HeapPageStays(s, p, ElfImage(memory, hs), h) <==> NoneTouches(memory, hs, h)
    {
      SetterIsLast(memory, hs, HEAP_PAGE + h);
      assert forall i :: 0 <= i < |hs| ==> Reached(memory, hs, i);
    }
    hide HeapPageStays, NoneTouches;
  }

  /** No header's range includes the page of heap block h. */
  ghost predicate NoneTouches(memory: uint32, hs: seq<Header>, h: nat)
    requires h < HEAP_BLOCKS
  {
    forall i :: 0 <= i < |hs| ==> !Touches(memory, hs[i], HEAP_PAGE + h)
  }

  const EXAMPLE_MEMORY: uint32 := HEAP_ADDRESS + BLOCK_SIZE
  const EXAMPLE_HEADER := Header(PT_LOAD, 0, HEAP_ADDRESS, 16, 16, PF_W)

  lemma ExampleHeader()
    ensures Touches(EXAMPLE_MEMORY, EXAMPLE_HEADER, HEAP_PAGE) && !Fails(EXAMPLE_MEMORY, EXAMPLE_HEADER)
    ensures !SelfMapped(EXAMPLE_MEMORY, EXAMPLE_HEADER) && WantsWriteable(EXAMPLE_HEADER)
    ensures SegmentEntry(EXAMPLE_MEMORY, EXAMPLE_HEADER, HEAP_PAGE) == EntryOf(HEAP_PAGE + 1, USER_RW)
  {
    ExampleRange();
    hide SegmentBase, SegmentEnd, AlignDown, EntryOf;
    assert FlagsOf(EXAMPLE_HEADER) == USER_RW;
  }

  lemma ExampleRange()
    ensures AlignDown(HEAP_ADDRESS) == HEAP_ADDRESS
    ensures SegmentBase(EXAMPLE_MEMORY, EXAMPLE_HEADER) == HEAP_ADDRESS + PAGE_SIZE
    ensures SegmentEnd(EXAMPLE_MEMORY, EXAMPLE_HEADER) == HEAP_ADDRESS + 2 * PAGE_SIZE
  {
    assert PhysOf(EXAMPLE_MEMORY, EXAMPLE_HEADER) == HEAP_ADDRESS + PAGE_SIZE;
  }

  lemma OneHeaderSets(memory: uint32, header: Header, p: Frame)
    requires Touches(memory, header, p) && !Fails(memory, header)
    ensures Setter(memory, [header], p) == 0
  {
    hide Touches, Fails;
    assert [header][1..] == [];
    assert Setter(memory, [], p) == -1;
  }

  /** A program the loader accepts and the invariant does not survive: one writable segment of 16 bytes at the
      first heap address, read to the second heap block. */
  lemma HeapSegmentExample(s: State, p: nat, stack: uint32)
    requires Whole(s) && p < |s.procs|
    ensures var s' := Loaded(s, p, ElfImage(EXAMPLE_MEMORY, [EXAMPLE_HEADER]), stack);
      && Shape(s') && !Whole(s')
      && HeapEntry(s', p, 0) == EntryOf(HEAP_PAGE + 1, USER_RW)
  {
    var hs, pages := [EXAMPLE_HEADER], s.procs[p].pages;
    ExampleHeader();
    OneHeaderSets(EXAMPLE_MEMORY, EXAMPLE_HEADER, HEAP_PAGE);
    LoadKeepsExactlyWhen(s, p, ElfImage(EXAMPLE_MEMORY, hs), stack);
    EntryIsTheSetters(pages, EXAMPLE_MEMORY, hs, HEAP_PAGE);
    LoadedEntry(pages, ElfImage(EXAMPLE_MEMORY, hs), stack, 0);
    LoadedShape(s, p, ElfImage(EXAMPLE_MEMORY, hs), stack);
    hide Setter, SelfMapped, Touches, Fails, MapSegments, MapMemory, SegmentEntry, Whole, WantsWriteable, EntryOf;
    assert !HeapPageStays(s, p, ElfImage(EXAMPLE_MEMORY, hs), 0);
  }

  lemma LoadedShape(s: State, p: nat, program: Program, stack: uint32)
    requires Shape(s) && p < |s.procs|
    ensures Shape(Loaded(s, p, program, stack))
  {
    LoadedOwner(s, p, program, stack, p, 0);
  }
}
