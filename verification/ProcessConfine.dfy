/** When loading a program keeps every writable page of the process inside the runs it alone holds. */
module ProcessConfine {
  import opened Machine
  import opened Heap
  import opened HeapRuns
  import opened Paging
  import opened Elf
  import opened ElfMap
  import opened ProcessMemory
  import opened ProcessBlocks
  import opened ProcessHeld
  import opened ProcessLoad

  /** Frame f lies in a run the process holds. */
  ghost predicate FrameHeld(s: State, p: nat, f: Frame) {
    InHeld(s, p, f - HEAP_PAGE)
  }

  /** What the program shows in page x, if the process can write it, lies in a run the process holds. */
  ghost predicate ProgramConfinesPage(s: State, p: nat, program: Program, x: Frame) {
    match program
    case Binary(addr, size) => BinaryTouches(addr, size, x) ==> FrameHeld(s, p, BinaryFrame(addr, x))
    case ElfImage(memory, headers) =>
      var i := Setter(memory, headers, x);
      i != -1 && WantsWriteable(headers[i]) ==> FrameHeld(s, p, SegmentFrame(memory, headers[i], x))
  }

  /** So does what shows there with the stack mapped. */
  ghost predicate ConfinesPage(s: State, p: nat, program: Program, stack: uint32, x: Frame) {
    if !SomeHeaderFails(program) && StackFits(stack) && IsStackPage(x) then FrameHeld(s, p, StackFrame(stack, x))
    else ProgramConfinesPage(s, p, program, x)
  }

  ghost predicate Confines(s: State, p: nat, program: Program, stack: uint32) {
    forall x: Frame :: !IsHeapPage(x) ==> ConfinesPage(s, p, program, stack, x)
  }

  /** The entry of every page after loading. */
  lemma EntryAfterLoad(pages: seq<uint32>, program: Program, stack: uint32, x: Frame)
    requires |pages| == PAGES
    ensures MapMemory(pages, program, stack).0[x] ==
      if !SomeHeaderFails(program) && StackFits(stack) && IsStackPage(x) then EntryOf(StackFrame(stack, x), USER_RW)
      else MapProgram(pages, program).0[x]
  {
    if program.ElfImage? {
      LoadingFailsExactlyWhen(pages, program.memory, program.headers);
    }
    StackEntryIs(MapProgram(pages, program).0, stack, x);
    hide MapSegments, MapStack, IsStackPage, StackFits, Fails, MapTo;
  }

  lemma LoadedHeld(s: State, p: nat, program: Program, stack: uint32, h: int)
    requires Shape(s) && p < |s.procs|
    ensures InHeld(Loaded(s, p, program, stack), p, h) <==> InHeld(s, p, h)
  {
    hide MapMemory, Runs;
    var s' := Loaded(s, p, program, stack);
    assert forall b :: Holds(s', p, b) <==> Holds(s, p, b);
  }

  /** Loading keeps one page confined exactly when the condition says so. */
  lemma PageConfinedAfterLoad(s: State, p: nat, program: Program, stack: uint32, x: Frame)
    requires Shape(s) && p < |s.procs| && !IsHeapPage(x) && PageConfined(s, p, x)
    ensures Shape(Loaded(s, p, program, stack))
    ensures PageConfined(Loaded(s, p, program, stack), p, x) <==> ConfinesPage(s, p, program, stack, x)
  {
    var pages := s.procs[p].pages;
    LoadedShape(s, p, program, stack);
    EntryAfterLoad(pages, program, stack, x);
    var e := MapMemory(pages, program, stack).0[x];
    LoadedHeld(s, p, program, stack, e / PAGE_SIZE - HEAP_PAGE);
    hide MapMemory, InHeld, SomeHeaderFails, IsStackPage, Writeable;
    assert Loaded(s, p, program, stack).procs[p].pages[x] == e;
    if !SomeHeaderFails(program) && StackFits(stack) && IsStackPage(x) {
      EntryFields(StackFrame(stack, x), USER_RW);
    } else {
      ProgramEntryFields(pages, program, x);
      hide MapProgram, Setter, BinaryTouches, BinaryFrame, SegmentFrame, WantsWriteable;
    }
  }

  /** Entry e has the frame and the writeable bit that the program gives to page x, or is the old one. */
  ghost predicate EntryFromProgram(before: uint32, e: uint32, program: Program, x: Frame) {
    match program
    case Binary(addr, size) =>
      if BinaryTouches(addr, size, x) then Writeable(e) && e / PAGE_SIZE == BinaryFrame(addr, x) else e == before
    case ElfImage(memory, headers) =>
      var i := Setter(memory, headers, x);
      if i == -1 then e == before
      else (Writeable(e) <==> WantsWriteable(headers[i])) && e / PAGE_SIZE == SegmentFrame(memory, headers[i], x)
  }

  lemma ProgramEntryFields(pages: seq<uint32>, program: Program, x: Frame)
    requires |pages| == PAGES
    ensures EntryFromProgram(pages[x], MapProgram(pages, program).0[x], program, x)
  {
    hide Writeable, WantsWriteable, BinaryEntry, SegmentEntry, BinaryFrame, SegmentFrame;
    match program {
      case Binary(addr, size) =>
        BinaryEntryIs(pages, addr, size, x);
        if addr % PAGE_SIZE == 0 {
          BinaryEntryFields(addr, x);
        }
        hide MapProgram;
      case ElfImage(memory, headers) =>
        EntryIsTheSetters(pages, memory, headers, x);
        var i := Setter(memory, headers, x);
        if i != -1 {
          SegmentEntryFields(memory, headers[i], x);
        }
        hide MapSegments;
    }
  }

  lemma LoadedPartsStay(s: State, p: nat, program: Program, stack: uint32)
    requires Sealed(s) && p < |s.procs|
    ensures Shape(Loaded(s, p, program, stack)) && HeldOk(Loaded(s, p, program, stack))
    ensures forall q, x :: 0 <= q < |s.procs| && q != p && 0 <= x < PAGES ==>
              PageConfined(Loaded(s, p, program, stack), q, x)
  {
    hide MapMemory, Writeable, Inv, Kept;
    WholeIsWellFormed(s);
    var s' := Loaded(s, p, program, stack);
    assert Shape(s') && SameBlocks(s, s');
    forall q, b
      ensures Holds(s', q, b) <==> Holds(s, q, b)
    {
    }
    forall q, b | Holds(s', q, b)
      ensures Spare(s', b)
    {
      assert Spare(s, b);
      SameBlocksSameKept(s, s', b);
      assert forall r, i :: Live(s', r, i) ==> Live(s, r, i) && At(s', r, i) == At(s, r, i);
    }
    hide Runs, Spare;
    forall q: nat, x: nat | q < |s.procs| && q != p && x < PAGES
      ensures PageConfined(s', q, x)
    {
      assert PageConfined(s, q, x);
    }
  }

  /** The main result: loading keeps every frame the process can write inside its own allocations and the runs it
      holds exactly when it leaves the heap's pages as they have to be and confines every other page. */
  lemma LoadKeepsSealedExactlyWhen(s: State, p: nat, program: Program, stack: uint32)
    requires Sealed(s) && p < |s.procs|
    ensures Sealed(Loaded(s, p, program, stack)) <==> KeepsHeapPages(s, p, program) && Confines(s, p, program, stack)
  {
    var s' := Loaded(s, p, program, stack);
    LoadKeepsExactlyWhen(s, p, program, stack);
    LoadedPartsStay(s, p, program, stack);
    hide Whole, KeepsHeapPages, HeldOk, Loaded, InHeld, Writeable;
    forall x: Frame | !IsHeapPage(x)
      ensures PageConfined(s', p, x) <==> ConfinesPage(s, p, program, stack, x)
    {
      assert PageConfined(s, p, x);
      PageConfinedAfterLoad(s, p, program, stack, x);
    }
    hide ConfinesPage;
    assert |s'.procs| == |s.procs| by {
      LoadedCount(s, p, program, stack);
    }
    if Confines(s, p, program, stack) {
      forall q: nat, x: nat | q < |s'.procs| && x < PAGES
        ensures PageConfined(s', q, x)
      {
        assert q == p && !IsHeapPage(x) ==> ConfinesPage(s, p, program, stack, x);
      }
    }
  }

  lemma LoadedCount(s: State, p: nat, program: Program, stack: uint32)
    requires Shape(s) && p < |s.procs|
    ensures |Loaded(s, p, program, stack).procs| == |s.procs|
  {
  }

  // ---------- In terms of segment ends and the file's run ----------

  /** Every frame from address a up to address b lies in a run the process holds. */
  ghost predicate RangeHeld(s: State, p: nat, a: uint32, b: uint32) {
    forall f: Frame :: a / PAGE_SIZE <= f < b / PAGE_SIZE ==> FrameHeld(s, p, f)
  }

  /** The segments are mapped in full, no page twice, away from the pages of the heap and the stack. */
  ghost predicate Apart(memory: uint32, hs: seq<Header>) {
    && (forall i :: 0 <= i < |hs| ==>
          !Fails(memory, hs[i]) && SegmentEnd(memory, hs[i]) - SegmentBase(memory, hs[i]) < 0x8000_0000)
    && (forall i, x: Frame :: 0 <= i < |hs| && Touches(memory, hs[i], x) ==> !IsHeapPage(x) && !IsStackPage(x))
    && (forall i, j, x: Frame :: 0 <= i < j < |hs| && Touches(memory, hs[i], x) ==> !Touches(memory, hs[j], x))
  }

  /** The frames a segment shows are those from its base to its end. */
  lemma SegmentFrames(memory: uint32, h: Header, f: Frame) returns (x: Frame)
    requires !Fails(memory, h) && SegmentEnd(memory, h) - SegmentBase(memory, h) < 0x8000_0000
    requires SegmentBase(memory, h) / PAGE_SIZE <= f < SegmentEnd(memory, h) / PAGE_SIZE
    ensures Touches(memory, h, x) && SegmentFrame(memory, h, x) == f
  {
    var vp, pf := AlignDown(h.vaddr) / PAGE_SIZE, SegmentBase(memory, h) / PAGE_SIZE;
    FramesBetween(SegmentBase(memory, h), SegmentEnd(memory, h));
    hide AlignDown, SegmentBase, SegmentEnd, PageCount;
    x := PlusPages(vp, f - pf);
    assert PageIndex(x, vp) == f - pf;
  }

  lemma FramesBetween(a: uint32, b: uint32)
    requires a % PAGE_SIZE == 0 && b % PAGE_SIZE == 0 && a <= b && b - a < 0x8000_0000
    ensures PageCount(a, b) == b / PAGE_SIZE - a / PAGE_SIZE
  {
    MultipleOfPage(a, b);
  }

  lemma SegmentFrameBetween(memory: uint32, h: Header, x: Frame)
    requires Touches(memory, h, x) && SegmentEnd(memory, h) - SegmentBase(memory, h) < 0x8000_0000
    ensures SegmentBase(memory, h) / PAGE_SIZE <= SegmentFrame(memory, h, x) < SegmentEnd(memory, h) / PAGE_SIZE
  {
    FramesBetween(SegmentBase(memory, h), SegmentEnd(memory, h));
    hide AlignDown, SegmentBase, SegmentEnd, PageCount;
  }

  lemma SetterOf(memory: uint32, hs: seq<Header>, i: nat, x: Frame)
    requires Apart(memory, hs) && i < |hs| && Touches(memory, hs[i], x)
    ensures Setter(memory, hs, x) == i
  {
    SetterIsLast(memory, hs, x);
    hide Touches, Fails, SegmentEnd, SegmentBase, IsStackPage;
    assert Reached(memory, hs, i);
  }

  /** A program whose segments lie apart, with a stack the process holds: exactly the ends of its writable segments
      decide. */
  lemma ElfKeepsSealedExactlyWhen(s: State, p: nat, memory: uint32, hs: seq<Header>, stack: uint32)
    requires Sealed(s) && p < |s.procs| && Apart(memory, hs)
    requires StackFits(stack) && RangeHeld(s, p, stack, stack + STACK_SIZE)
    ensures Sealed(Loaded(s, p, ElfImage(memory, hs), stack)) <==>
            forall i :: 0 <= i < |hs| && WantsWriteable(hs[i]) ==>
              RangeHeld(s, p, SegmentBase(memory, hs[i]), SegmentEnd(memory, hs[i]))
  {
    var program := ElfImage(memory, hs);
    LoadKeepsSealedExactlyWhen(s, p, program, stack);
    ApartKeepsHeap(s, p, memory, hs);
    hide Sealed, KeepsHeapPages, Apart, WantsWriteable;
    if Confines(s, p, program, stack) {
      forall i | 0 <= i < |hs| && WantsWriteable(hs[i])
        ensures RangeHeld(s, p, SegmentBase(memory, hs[i]), SegmentEnd(memory, hs[i]))
      {
        ConfinedSegment(s, p, memory, hs, stack, i);
      }
    }
    if forall i :: 0 <= i < |hs| && WantsWriteable(hs[i]) ==>
         RangeHeld(s, p, SegmentBase(memory, hs[i]), SegmentEnd(memory, hs[i])) {
      forall x: Frame | !IsHeapPage(x)
        ensures ConfinesPage(s, p, program, stack, x)
      {
        SegmentsConfinePage(s, p, memory, hs, stack, x);
      }
    }
  }

  lemma ApartKeepsHeap(s: State, p: nat, memory: uint32, hs: seq<Header>)
    requires Shape(s) && p < |s.procs| && Apart(memory, hs)
    ensures KeepsHeapPages(s, p, ElfImage(memory, hs))
  {
    hide Touches, Fails, SegmentEnd, SegmentBase, IsStackPage, SelfMapped, WantsWriteable, Owns;
    forall h | 0 <= h < HEAP_BLOCKS
      ensures HeapPageStays(s, p, ElfImage(memory, hs), h)
    {
      var x: Frame := HEAP_PAGE + h;
      assert IsHeapPage(x);
      assert Setter(memory, hs, x) == -1;
    }
  }

  lemma ConfinedSegment(s: State, p: nat, memory: uint32, hs: seq<Header>, stack: uint32, i: nat)
    requires Apart(memory, hs) && i < |hs| && WantsWriteable(hs[i])
    requires Confines(s, p, ElfImage(memory, hs), stack)
    ensures RangeHeld(s, p, SegmentBase(memory, hs[i]), SegmentEnd(memory, hs[i]))
  {
    hide FrameHeld, WantsWriteable, SegmentBase, SegmentEnd, SegmentFrame, IsStackPage, Touches, Fails;
    forall f: Frame | SegmentBase(memory, hs[i]) / PAGE_SIZE <= f < SegmentEnd(memory, hs[i]) / PAGE_SIZE
      ensures FrameHeld(s, p, f)
    {
      var x := SegmentFrames(memory, hs[i], f);
      SetterOf(memory, hs, i, x);
      assert ConfinesPage(s, p, ElfImage(memory, hs), stack, x);
    }
  }

  lemma SegmentsConfinePage(s: State, p: nat, memory: uint32, hs: seq<Header>, stack: uint32, x: Frame)
    requires Apart(memory, hs) && StackFits(stack) && RangeHeld(s, p, stack, stack + STACK_SIZE)
    requires forall i :: 0 <= i < |hs| && WantsWriteable(hs[i]) ==>
               RangeHeld(s, p, SegmentBase(memory, hs[i]), SegmentEnd(memory, hs[i]))
    ensures ConfinesPage(s, p, ElfImage(memory, hs), stack, x)
  {
    if IsStackPage(x) {
      StackFrameBetween(stack, x);
    }
    hide FrameHeld, WantsWriteable, SegmentBase, SegmentEnd, SegmentFrame, IsStackPage, Touches, Fails, StackFrame, StackFits;
    var i := Setter(memory, hs, x);
    if i != -1 && WantsWriteable(hs[i]) {
      SegmentFrameBetween(memory, hs[i], x);
    }
  }

  lemma StackFrameBetween(stack: uint32, x: Frame)
    requires StackFits(stack) && IsStackPage(x)
    ensures stack / PAGE_SIZE <= StackFrame(stack, x) < (stack + STACK_SIZE) / PAGE_SIZE
  {
    StackPages(x);
    StackSpan(stack);
  }

  /** A range that starts in a run the process holds, the next block not being held too: it is held exactly when it ends
      with the run. */
  lemma RangeFitsExactlyWhen(s: State, p: nat, b: nat, a: uint32, end: uint32)
    requires Shape(s) && Holds(s, p, b) && b in Runs(s.table) && !InHeld(s, p, b + Runs(s.table)[b])
    requires a % PAGE_SIZE == 0 && end % PAGE_SIZE == 0
    requires BlockAddr(b) <= a < BlockAddr(b) + Runs(s.table)[b] * PAGE_SIZE
    ensures RangeHeld(s, p, a, end) <==> end <= BlockAddr(b) + Runs(s.table)[b] * PAGE_SIZE
  {
    var n := Runs(s.table)[b];
    hide Runs;
    if end <= BlockAddr(b) + n * PAGE_SIZE {
      forall f: Frame | a / PAGE_SIZE <= f < end / PAGE_SIZE
        ensures FrameHeld(s, p, f)
      {
        assert InRun(Runs(s.table), b, f - HEAP_PAGE);
      }
    } else {
      assert !FrameHeld(s, p, HEAP_PAGE + b + n);
    }
  }

  /** The file lies in a run of n blocks from block b, and nothing the process holds follows it: loading keeps the process
      inside what it alone holds exactly when no writable segment ends behind the file's run. */
  lemma FileKeepsSealedExactlyWhen(s: State, p: nat, b: nat, hs: seq<Header>, stack: uint32)
    requires Sealed(s) && Holds(s, p, b) && b in Runs(s.table) && !InHeld(s, p, b + Runs(s.table)[b])
    requires b < HEAP_BLOCKS && Apart(BlockAddr(b), hs)
    requires forall i :: 0 <= i < |hs| ==> hs[i].offset < Runs(s.table)[b] * PAGE_SIZE
    requires StackFits(stack) && RangeHeld(s, p, stack, stack + STACK_SIZE)
    ensures Sealed(Loaded(s, p, ElfImage(BlockAddr(b), hs), stack)) <==>
            forall i :: 0 <= i < |hs| && WantsWriteable(hs[i]) ==>
              SegmentEnd(BlockAddr(b), hs[i]) <= BlockAddr(b) + Runs(s.table)[b] * PAGE_SIZE
  {
    ElfKeepsSealedExactlyWhen(s, p, BlockAddr(b), hs, stack);
    hide Sealed, Apart, WantsWriteable, RangeHeld, Runs;
    assert Shape(s) by { WholeIsWellFormed(s); }
    forall i | 0 <= i < |hs|
      ensures RangeHeld(s, p, SegmentBase(BlockAddr(b), hs[i]), SegmentEnd(BlockAddr(b), hs[i]))
         <==> SegmentEnd(BlockAddr(b), hs[i]) <= BlockAddr(b) + Runs(s.table)[b] * PAGE_SIZE
    {
      SegmentStartsInFile(s, b, hs[i]);
      RangeFitsExactlyWhen(s, p, b, SegmentBase(BlockAddr(b), hs[i]), SegmentEnd(BlockAddr(b), hs[i]));
    }
  }

  lemma SegmentStartsInFile(s: State, b: nat, h: Header)
    requires Shape(s) && b in Runs(s.table) && h.offset < Runs(s.table)[b] * PAGE_SIZE
    ensures BlockAddr(b) <= SegmentBase(BlockAddr(b), h) < BlockAddr(b) + Runs(s.table)[b] * PAGE_SIZE
  {
    var n := Runs(s.table)[b];
    assert b + n <= HEAP_BLOCKS;
    assert PhysOf(BlockAddr(b), h) == BlockAddr(b) + h.offset;
    assert BlockAddr(b) == (HEAP_PAGE + b) * PAGE_SIZE;
  }

  /** A flat program is as long as its run, so it stays inside it: loading keeps the process inside what it alone holds
      exactly when the program ends below the heap. */
  lemma BinaryKeepsSealedExactlyWhen(s: State, p: nat, b: nat, size: uint32, stack: uint32)
    requires Sealed(s) && Holds(s, p, b) && b in Runs(s.table) && Runs(s.table)[b] == BlocksFor(size)
    requires 0 < size <= 0xFFFF_F000 && b + BlocksFor(size) <= HEAP_BLOCKS
    requires StackFits(stack) && RangeHeld(s, p, stack, stack + STACK_SIZE)
    ensures Sealed(Loaded(s, p, Binary(BlockAddr(b), size), stack)) <==> PGM_VIRT_ADDR + size <= HEAP_ADDRESS
  {
    var program := Binary(BlockAddr(b), size);
    LoadKeepsSealedExactlyWhen(s, p, program, stack);
    RoundingsAgree(b, size);
    BinaryKeepsHeapExactlyWhen(s, p, BlockAddr(b), size);
    hide Sealed, KeepsHeapPages, Runs;
    forall x: Frame
      ensures ConfinesPage(s, p, program, stack, x)
    {
      if IsStackPage(x) {
        StackFrameBetween(stack, x);
      }
      BinaryFrameInRun(b, size, x);
      hide IsStackPage, BinaryTouches, StackFrame, BinaryFrame;
      if BinaryTouches(BlockAddr(b), size, x) {
        assert InRun(Runs(s.table), b, BinaryFrame(BlockAddr(b), x) - HEAP_PAGE);
      }
    }
  }

  lemma BinaryFrameInRun(b: nat, size: uint32, x: Frame)
    requires 0 < size <= 0xFFFF_F000 && b + BlocksFor(size) <= HEAP_BLOCKS
    ensures BinaryTouches(BlockAddr(b), size, x) ==>
              HEAP_PAGE + b <= BinaryFrame(BlockAddr(b), x) < HEAP_PAGE + b + BlocksFor(size)
  {
    RoundingsAgree(b, size);
    hide BlockAddr, BlocksFor, PageCount, AlignUp;
  }

  // ---------- A segment that runs past the file ----------

  const OVERRUN := Header(PT_LOAD, 0, PGM_VIRT_ADDR, 16, 2 * PAGE_SIZE, PF_W)

  lemma OverrunRange(b: nat)
    requires b + 1 < HEAP_BLOCKS
    ensures SegmentBase(BlockAddr(b), OVERRUN) == BlockAddr(b) && AlignDown(PGM_VIRT_ADDR) == PGM_VIRT_ADDR
    ensures SegmentEnd(BlockAddr(b), OVERRUN) == BlockAddr(b) + 2 * PAGE_SIZE
    ensures BlockAddr(b) / PAGE_SIZE == HEAP_PAGE + b
  {
    assert BlockAddr(b) == (HEAP_PAGE + b) * PAGE_SIZE;
    assert PhysOf(BlockAddr(b), OVERRUN) == BlockAddr(b);
  }

  /** It maps the first two program pages, to block b and the next. */
  lemma OverrunPages(b: nat, x: Frame)
    requires b + 1 < HEAP_BLOCKS
    ensures !Fails(BlockAddr(b), OVERRUN) && WantsWriteable(OVERRUN)
    ensures Touches(BlockAddr(b), OVERRUN, x) <==> 0 <= x - PGM_VIRT_ADDR / PAGE_SIZE <= 1
    ensures x == PGM_VIRT_ADDR / PAGE_SIZE + 1 ==> SegmentFrame(BlockAddr(b), OVERRUN, x) == HEAP_PAGE + b + 1
  {
    OverrunRange(b);
    hide SegmentBase, SegmentEnd, AlignDown, BlockAddr;
  }

  /** Loading a file of one block with a writable segment of two: page structures in the next block become writable. */
  lemma OverrunExample(s: State, p: nat, b: nat, stack: uint32)
    requires Whole(s) && p < |s.procs| && b + 1 < HEAP_BLOCKS && IsKept(s, b + 1)
    ensures var s' := Loaded(s, p, ElfImage(BlockAddr(b), [OVERRUN]), stack);
      Whole(s') && Reaches(s', p, HEAP_PAGE + b + 1) && IsKept(s', b + 1) && !Sealed(s')
  {
    WholeIsWellFormed(s);
    var memory, x := BlockAddr(b), PGM_VIRT_ADDR / PAGE_SIZE + 1;
    var program := ElfImage(memory, [OVERRUN]);
    OverrunKeepsHeap(s, p, b);
    LoadKeepsExactlyWhen(s, p, program, stack);
    OverrunEntry(s.procs[p].pages, b, stack);
    LoadedKept(s, p, program, stack, b + 1);
    hide Whole, MapMemory, Writeable, HeldOk, Confined, KeepsHeapPages;
    var s' := Loaded(s, p, program, stack);
    WholeIsWellFormed(s');
    assert ShowsWriteable(s', p, x, HEAP_PAGE + b + 1);
    if Sealed(s') {
      ReachedIsOutOfKernel(s', p, HEAP_PAGE + b + 1);
      assert false;
    }
  }

  lemma LoadedKept(s: State, p: nat, program: Program, stack: uint32, b: nat)
    requires Shape(s) && p < |s.procs|
    ensures IsKept(Loaded(s, p, program, stack), b) <==> IsKept(s, b)
  {
    SameBlocksSameKept(s, Loaded(s, p, program, stack), b);
  }

  lemma OverrunEntry(pages: seq<uint32>, b: nat, stack: uint32)
    requires |pages| == PAGES && b + 1 < HEAP_BLOCKS
    ensures var e := MapMemory(pages, ElfImage(BlockAddr(b), [OVERRUN]), stack).0[PGM_VIRT_ADDR / PAGE_SIZE + 1];
      Writeable(e) && e / PAGE_SIZE == HEAP_PAGE + b + 1
  {
    var memory, x := BlockAddr(b), PGM_VIRT_ADDR / PAGE_SIZE + 1;
    OverrunPages(b, x);
    OneHeaderSets(memory, OVERRUN, x);
    EntryAfterLoad(pages, ElfImage(memory, [OVERRUN]), stack, x);
    ProgramEntryFields(pages, ElfImage(memory, [OVERRUN]), x);
    assert !IsStackPage(x);
    hide MapMemory, MapProgram, Touches, Fails, Writeable, WantsWriteable, SegmentFrame, Setter;
  }

  lemma OverrunKeepsHeap(s: State, p: nat, b: nat)
    requires Shape(s) && p < |s.procs| && b + 1 < HEAP_BLOCKS
    ensures KeepsHeapPages(s, p, ElfImage(BlockAddr(b), [OVERRUN]))
  {
    hide Touches, Fails, WantsWriteable, SelfMapped, Owns;
    forall h | 0 <= h < HEAP_BLOCKS
      ensures HeapPageStays(s, p, ElfImage(BlockAddr(b), [OVERRUN]), h)
    {
      OverrunPages(b, HEAP_PAGE + h);
    }
  }
}
