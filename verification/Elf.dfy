/** The address bounds the loader works out from the program headers of a 32-bit ELF file (Tool Interface
    Standard ELF specification, version 1.2, book I, "Program Header"). */
module Elf {
  import opened Machine

  const PT_LOAD := 1
  const PF_W := 2

  /** The fields of a program header that the kernel uses. */
  datatype Header = Header(
    kind: uint32, offset: uint32, vaddr: uint32, filesz: uint32, memsz: uint32, flags: uint32)

  /** The end of a segment as the loader computes it, in 32 bits. */
  function EndOf(h: Header): uint32 {
    Wrap(h.vaddr + h.filesz)
  }

  datatype Bounds = Bounds(virtBase: uint32, physBase: uint32, virtEnd: uint32, physEnd: uint32)

  const NO_BOUNDS := Bounds(0, 0, 0, 0)

  function PtLoad(memory: uint32, b: Bounds, h: Header): Bounds {
    var lower := if b.virtBase >= h.vaddr || b.virtBase == 0
                 then b.(virtBase := h.vaddr, physBase := Wrap(memory + h.offset)) else b;
    if b.virtEnd <= EndOf(h) || b.virtEnd == 0
    then lower.(virtEnd := EndOf(h), physEnd := Wrap(memory + h.offset + h.filesz)) else lower
  }

  function AllBounds(memory: uint32, hs: seq<Header>): Bounds {
    if hs == [] then NO_BOUNDS
    else
      var b, h := AllBounds(memory, hs[..|hs| - 1]), hs[|hs| - 1];
      if h.kind == PT_LOAD then PtLoad(memory, b, h) else b
  }

  // ---------- What the bounds ought to be ----------

  ghost predicate HasLoad(hs: seq<Header>) {
    exists i :: 0 <= i < |hs| && hs[i].kind == PT_LOAD
  }

  ghost predicate LastLoad(hs: seq<Header>, i: nat) {
    i < |hs| && hs[i].kind == PT_LOAD && forall j :: i < j < |hs| ==> hs[j].kind != PT_LOAD
  }

  /** No loadable segment begins lower. */
  ghost predicate IsLowest(hs: seq<Header>, base: uint32) {
    forall i :: 0 <= i < |hs| && hs[i].kind == PT_LOAD ==> base <= hs[i].vaddr
  }

  /** No loadable segment ends higher, in true arithmetic. */
  ghost predicate IsHighest(hs: seq<Header>, end: int) {
    forall i :: 0 <= i < |hs| && hs[i].kind == PT_LOAD ==> hs[i].vaddr + hs[i].filesz <= end
  }

  ghost predicate NoneAtZero(hs: seq<Header>) {
    forall i :: 0 <= i < |hs| && hs[i].kind == PT_LOAD ==> hs[i].vaddr != 0
  }

  ghost predicate NoneOverflows(hs: seq<Header>) {
    forall i :: 0 <= i < |hs| && hs[i].kind == PT_LOAD ==> hs[i].vaddr + hs[i].filesz < 0x1_0000_0000
  }

  /** The base bounds are those of segment i, the last one with that address. */
  ghost predicate BaseFrom(memory: uint32, hs: seq<Header>, b: Bounds, i: nat) {
    && i < |hs| && hs[i].kind == PT_LOAD
    && b.virtBase == hs[i].vaddr && b.physBase == Wrap(memory + hs[i].offset)
    && forall j :: i < j < |hs| && hs[j].kind == PT_LOAD ==> hs[j].vaddr > b.virtBase
  }

  /** The end bounds are those of segment i, and no segment ends higher in 32-bit arithmetic. */
  ghost predicate EndFrom(memory: uint32, hs: seq<Header>, b: Bounds, i: nat) {
    && i < |hs| && hs[i].kind == PT_LOAD
    && b.virtEnd == EndOf(hs[i]) && b.physEnd == Wrap(memory + hs[i].offset + hs[i].filesz)
    && (forall j :: 0 <= j < |hs| && hs[j].kind == PT_LOAD ==> EndOf(hs[j]) <= b.virtEnd)
    && forall j :: i < j < |hs| && hs[j].kind == PT_LOAD ==> EndOf(hs[j]) < b.virtEnd
  }

  lemma {:induction false} EndBelongsToASegment(memory: uint32, hs: seq<Header>)
    returns (i: nat)
    requires HasLoad(hs)
    ensures EndFrom(memory, hs, AllBounds(memory, hs), i)
    decreases |hs|
  {
    var front, last := hs[..|hs| - 1], hs[|hs| - 1];
    if HasLoad(front) {
      i := EndBelongsToASegment(memory, front);
      if last.kind == PT_LOAD && AllBounds(memory, front).virtEnd <= EndOf(last) {
        i := |hs| - 1;
      }
    } else {
      NoLoadNoBounds(memory, front);
      i := |hs| - 1;
    }
  }

  lemma {:induction false} NoLoadNoBounds(memory: uint32, hs: seq<Header>)
    requires !HasLoad(hs)
    ensures AllBounds(memory, hs) == NO_BOUNDS
    decreases |hs|
  {
    if hs != [] {
      assert forall j :: 0 <= j < |hs| - 1 ==> hs[..|hs| - 1][j] == hs[j];
      NoLoadNoBounds(memory, hs[..|hs| - 1]);
    }
  }

  lemma {:induction false} BaseBelongsToASegment(memory: uint32, hs: seq<Header>)
    returns (i: nat)
    requires HasLoad(hs)
    ensures BaseFrom(memory, hs, AllBounds(memory, hs), i)
    decreases |hs|
  {
    var front, last := hs[..|hs| - 1], hs[|hs| - 1];
    if HasLoad(front) {
      i := BaseBelongsToASegment(memory, front);
      var base := AllBounds(memory, front).virtBase;
      if last.kind == PT_LOAD && (base >= last.vaddr || base == 0) {
        i := |hs| - 1;
      }
    } else {
      NoLoadNoBounds(memory, front);
      i := |hs| - 1;
    }
  }

  /** A base of 0 stands for "none yet", so a segment at 0 is forgotten unless it comes last. */
  lemma {:induction false} ZeroBaseExactlyWhen(memory: uint32, hs: seq<Header>, last: nat)
    requires LastLoad(hs, last)
    ensures AllBounds(memory, hs).virtBase == 0 <==> hs[last].vaddr == 0
    decreases |hs|
  {
    var front := hs[..|hs| - 1];
    if last < |hs| - 1 {
      ZeroBaseExactlyWhen(memory, front, last);
    }
  }

  lemma {:induction false} BaseIsLowest(memory: uint32, hs: seq<Header>)
    requires NoneAtZero(hs)
    ensures HasLoad(hs) ==> AllBounds(memory, hs).virtBase != 0
    ensures IsLowest(hs, AllBounds(memory, hs).virtBase)
    decreases |hs|
  {
    if hs != [] {
      var front := hs[..|hs| - 1];
      assert forall j :: 0 <= j < |front| ==> front[j] == hs[j];
      BaseIsLowest(memory, front);
      if !HasLoad(front) {
        NoLoadNoBounds(memory, front);
      }
    }
  }

  /** The base bound is the lowest segment address exactly when no segment lies at 0, or the last one does. */
  lemma {:induction false} BaseIsLowestExactlyWhen(memory: uint32, hs: seq<Header>, last: nat)
    requires LastLoad(hs, last)
    ensures IsLowest(hs, AllBounds(memory, hs).virtBase) <==> NoneAtZero(hs) || hs[last].vaddr == 0
  {
    ZeroBaseExactlyWhen(memory, hs, last);
    if NoneAtZero(hs) {
      BaseIsLowest(memory, hs);
    }
  }

  /** The end bound is the highest segment end exactly when no segment runs past the end of the address space. */
  lemma {:induction false} EndIsHighestExactlyWhen(memory: uint32, hs: seq<Header>)
    requires HasLoad(hs)
    ensures IsHighest(hs, AllBounds(memory, hs).virtEnd) <==> NoneOverflows(hs)
  {
    var i := EndBelongsToASegment(memory, hs);
    if NoneOverflows(hs) {
      forall j | 0 <= j < |hs| && hs[j].kind == PT_LOAD
        ensures hs[j].vaddr + hs[j].filesz <= AllBounds(memory, hs).virtEnd
      {
        assert EndOf(hs[j]) == hs[j].vaddr + hs[j].filesz;
      }
    }
  }

  /** A segment at address 0 that is not the last one is left out of the bounds. */
  lemma {:induction false} ForgottenSegmentExample(memory: uint32)
    ensures var hs := [Header(PT_LOAD, 0, 0, 16, 16, 0), Header(PT_LOAD, 16, 4096, 16, 16, 0)];
      AllBounds(memory, hs).virtBase == 4096 && !IsLowest(hs, 4096)
  {
    var first, second := Header(PT_LOAD, 0, 0, 16, 16, 0), Header(PT_LOAD, 16, 4096, 16, 16, 0);
    assert [first, second][..1] == [first];
    assert [first][..0] == [];
    assert AllBounds(memory, [first]) == PtLoad(memory, NO_BOUNDS, first);
    assert [first, second][0] == first;
  }

  /** The bounds of an open ELF file. */
  class ElfFile {
    const memory: uint32
    var virtBase: uint32
    var virtEnd: uint32
    var physBase: uint32
    var physEnd: uint32

    function Current(): Bounds
      reads this
    {
      Bounds(virtBase, physBase, virtEnd, physEnd)
    }

    constructor (memory: uint32)
      ensures this.memory == memory && Current() == NO_BOUNDS
    {
      this.memory := memory;
      virtBase, virtEnd, physBase, physEnd := 0, 0, 0, 0;
    }

    /** `elf_process_phdr_pt_load`. */
    method ProcessPtLoad(h: Header)
      modifies this
      ensures Current() == PtLoad(memory, old(Current()), h)
    {
      if virtBase >= h.vaddr || virtBase == 0 {
        virtBase := h.vaddr;
        physBase := Wrap(memory + h.offset);
      }
      var end := Wrap(h.vaddr + h.filesz);
      if virtEnd <= end || virtEnd == 0 {
        virtEnd := end;
        physEnd := Wrap(memory + h.offset + h.filesz);
      }
    }

    /** `elf_process_pheaders`. Which loadable segments the four bounds belong to, and when they are the lowest
        and the highest. */
    method ProcessHeaders(hs: seq<Header>)
      requires Current() == NO_BOUNDS
      modifies this
      ensures Current() == AllBounds(memory, hs)
      ensures if HasLoad(hs)
              then
                && (exists i: nat :: BaseFrom(memory, hs, Current(), i))
                && (exists i: nat :: EndFrom(memory, hs, Current(), i))
              else Current() == NO_BOUNDS
      ensures forall last: nat :: LastLoad(hs, last) ==>
                (IsLowest(hs, virtBase) <==> NoneAtZero(hs) || hs[last].vaddr == 0)
      ensures HasLoad(hs) ==> (IsHighest(hs, virtEnd) <==> NoneOverflows(hs))
    {
      var i := 0;
      while i < |hs|
        invariant 0 <= i <= |hs|
        invariant Current() == AllBounds(memory, hs[..i])
      {
        assert hs[..i + 1][..i] == hs[..i];
        if hs[i].kind == PT_LOAD {
          ProcessPtLoad(hs[i]);
        }
        i := i + 1;
      }
      assert hs[..|hs|] == hs;
      hide AllBounds, BaseFrom, EndFrom, IsLowest, IsHighest, NoneAtZero, NoneOverflows;
      if HasLoad(hs) {
        var base := BaseBelongsToASegment(memory, hs);
        var end := EndBelongsToASegment(memory, hs);
        EndIsHighestExactlyWhen(memory, hs);
      } else {
        NoLoadNoBounds(memory, hs);
      }
      forall last: nat | LastLoad(hs, last)
        ensures IsLowest(hs, virtBase) <==> NoneAtZero(hs) || hs[last].vaddr == 0
      {
        BaseIsLowestExactlyWhen(memory, hs, last);
      }
    }
  }
}
