/** Mapping a loaded program into its address space: the segments of an ELF file or one flat image, then the
    stack. */
module ElfMap {
  import opened Machine
  import opened Memory
  import opened Paging
  import opened Elf

  const PGM_VIRT_ADDR: uint32 := 0x40_0000
  const STACK_SIZE := 0x4000
  const STACK_START: uint32 := 0x3F_F000
  const STACK_END: uint32 := STACK_START - STACK_SIZE

  /** Where the bytes of a segment are in physical memory: `elf_phdr_phys_addr`. */
  function PhysOf(memory: uint32, h: Header): uint32 {
    Wrap(memory + h.offset)
  }

  function SegmentBase(memory: uint32, h: Header): uint32 {
    AlignDown(PhysOf(memory, h))
  }

  function SegmentEnd(memory: uint32, h: Header): uint32 {
    AlignUp(Wrap(PhysOf(memory, h) + h.memsz))
  }

  /** Bit 1 of the flags is set, whatever the other bits are. */
  predicate WantsWriteable(h: Header): (w: bool)
    ensures w <==> h.flags % 4 >= 2
  {
    h.flags / PF_W % 2 == 1
  }

  /** What the code tests. */
  lemma WantsWriteableIsMask(h: Header)
    ensures And(h.flags, 2) != 0 <==> WantsWriteable(h)
  {
    assert And(h.flags / 2, 1) == h.flags / 2 % 2;
    assert And(h.flags, 2) == if h.flags == 0 then 0 else 2 * And(h.flags / 2, 1);
  }

  function FlagsOf(h: Header): nat {
    if WantsWriteable(h) then USER_RW else USER_RO
  }

  ghost function MapSegment(pages: seq<uint32>, memory: uint32, h: Header): (r: (seq<uint32>, int))
    requires |pages| == PAGES
    ensures |r.0| == PAGES
  {
    MapTo(pages, AlignDown(h.vaddr), SegmentBase(memory, h), SegmentEnd(memory, h), FlagsOf(h))
  }

  /** What `process_map_elf` does to the entries, and its status: every header is mapped, loadable or not, up
      to the first one that fails. */
  ghost function MapSegments(pages: seq<uint32>, memory: uint32, hs: seq<Header>): (r: (seq<uint32>, int))
    requires |pages| == PAGES
    ensures |r.0| == PAGES
    decreases |hs|
  {
    if hs == [] then (pages, 0)
    else
      var first := MapSegment(pages, memory, hs[0]);
      if first.1 < 0 then first else MapSegments(first.0, memory, hs[1..])
  }

  /** The segment lies in the address space in one piece, below 2 GiB in size. */
  ghost predicate Sensible(memory: uint32, h: Header) {
    && memory + h.offset + h.memsz <= 0xFFFF_F000
    && SegmentEnd(memory, h) - SegmentBase(memory, h) < 0x8000_0000
  }

  /** The segment's range wraps, and `paging_map_to` refuses it. */
  predicate Fails(memory: uint32, h: Header) {
    SegmentEnd(memory, h) < SegmentBase(memory, h)
  }

  /** Mapping this segment writes the entry of page p. */
  predicate Touches(memory: uint32, h: Header, p: Frame) {
    !Fails(memory, h) && PageIndex(p, AlignDown(h.vaddr) / PAGE_SIZE) < PageCount(SegmentBase(memory, h), SegmentEnd(memory, h))
  }

  /** The address of byte k of a segment. */
  function ByteAddr(h: Header, k: nat): uint32 {
    Wrap(h.vaddr + k)
  }

  /** The bytes of a segment are found where the file was read to. */
  ghost predicate Reads(pages: seq<uint32>, memory: uint32, h: Header)
    requires |pages| == PAGES
  {
    forall k :: 0 <= k < h.memsz ==> Translate(pages, ByteAddr(h, k)) == memory + h.offset + k
  }

  lemma MapToFailsExactlyWhen(pages: seq<uint32>, memory: uint32, h: Header)
    requires |pages| == PAGES
    ensures MapSegment(pages, memory, h).1 < 0 <==> Fails(memory, h)
    ensures MapSegment(pages, memory, h).1 <= 0
  {
  }

  /** Loading fails exactly when some segment wraps round the end of the address space. */
  lemma {:induction false} LoadingFailsExactlyWhen(pages: seq<uint32>, memory: uint32, hs: seq<Header>)
    requires |pages| == PAGES
    ensures MapSegments(pages, memory, hs).1 < 0
       <==> exists i :: 0 <= i < |hs| && Fails(memory, hs[i])
    decreases |hs|
  {
    if hs != [] {
      MapToFailsExactlyWhen(pages, memory, hs[0]);
      var rest := hs[1..];
      LoadingFailsExactlyWhen(MapSegment(pages, memory, hs[0]).0, memory, rest);
      assert forall i :: 0 <= i < |rest| ==> rest[i] == hs[i + 1];
      if i :| 1 <= i < |hs| && Fails(memory, hs[i]) {
        assert rest[i - 1] == hs[i];
      }
    }
  }

  lemma OffsetOf(addr: uint32, k: nat)
    ensures Wrap(AlignDown(addr) + (addr % PAGE_SIZE + k)) == Wrap(addr + k)
  {
  }

  /** Before any other header is mapped, a segment is found byte by byte where the file was read to
      exactly when its file offset and its address agree modulo the page size. */
  lemma SegmentReadsExactlyWhen(pages: seq<uint32>, memory: uint32, h: Header)
    requires |pages| == PAGES && memory % PAGE_SIZE == 0 && Sensible(memory, h)
    ensures Reads(MapSegment(pages, memory, h).0, memory, h)
       <==> h.memsz == 0 || h.vaddr % PAGE_SIZE == h.offset % PAGE_SIZE
  {
    if h.memsz == 0 {
    } else if h.vaddr % PAGE_SIZE == h.offset % PAGE_SIZE {
      forall k | 0 <= k < h.memsz
        ensures Translate(MapSegment(pages, memory, h).0, ByteAddr(h, k)) == memory + h.offset + k
      {
        SegmentRange(memory, h);
        SegmentByte(pages, memory, h, k);
      }
    } else {
      SegmentRange(memory, h);
      SegmentByte(pages, memory, h, 0);
    }
  }

  /** The range mapped for a segment covers its bytes. */
  lemma SegmentRange(memory: uint32, h: Header)
    requires memory % PAGE_SIZE == 0 && Sensible(memory, h)
    ensures PhysOf(memory, h) == memory + h.offset
    ensures PhysOf(memory, h) % PAGE_SIZE == h.offset % PAGE_SIZE
    ensures PhysOf(memory, h) == SegmentBase(memory, h) + h.offset % PAGE_SIZE
    ensures SegmentEnd(memory, h) >= PhysOf(memory, h) + h.memsz
    ensures h.memsz > 0 ==> SegmentEnd(memory, h) - SegmentBase(memory, h) >= PAGE_SIZE
  {
    hide Wrap, AlignUp, AlignDown;
    var phys := memory + h.offset;
    SameOffset(memory, h.offset);
    DoesNotWrap(phys);
    DoesNotWrap(phys + h.memsz);
    AlignDownParts(phys);
    if h.memsz > 0 {
      NextPage(AlignDown(phys), AlignUp(phys + h.memsz));
    }
  }

  lemma DoesNotWrap(x: uint32)
    ensures Wrap(x) == x
  {
  }

  lemma AlignDownParts(addr: uint32)
    ensures AlignDown(addr) == addr - addr % PAGE_SIZE && AlignDown(addr) % PAGE_SIZE == 0
  {
  }

  lemma SameOffset(base: uint32, offset: uint32)
    requires base % PAGE_SIZE == 0
    ensures (base + offset) % PAGE_SIZE == offset % PAGE_SIZE
  {
  }

  lemma NextPage(a: uint32, b: uint32)
    requires a % PAGE_SIZE == 0 && b % PAGE_SIZE == 0 && a < b
    ensures b - a >= PAGE_SIZE
  {
  }

  /** Where byte k of a segment is found, when that lies in the range mapped for it. */
  lemma SegmentByte(pages: seq<uint32>, memory: uint32, h: Header, k: nat)
    requires |pages| == PAGES && memory % PAGE_SIZE == 0 && Sensible(memory, h) && k < h.memsz
    requires k == 0 || h.vaddr % PAGE_SIZE == h.offset % PAGE_SIZE
    ensures Translate(MapSegment(pages, memory, h).0, ByteAddr(h, k))
         == SegmentBase(memory, h) + h.vaddr % PAGE_SIZE + k
    ensures PhysOf(memory, h) == SegmentBase(memory, h) + h.offset % PAGE_SIZE
    ensures MapSegment(pages, memory, h).0[ByteAddr(h, k) / PAGE_SIZE] % PAGE_SIZE == FlagsOf(h)
  {
    SegmentRange(memory, h);
    OffsetOf(h.vaddr, k);
    assert MapSegment(pages, memory, h).1 == 0;
    var x := h.vaddr % PAGE_SIZE + k;
    assert x < SegmentEnd(memory, h) - SegmentBase(memory, h);
    hide AlignDown, AlignUp, Wrap, Translate;
    MapToMapsByte(pages, AlignDown(h.vaddr), SegmentBase(memory, h), SegmentEnd(memory, h), FlagsOf(h), x);
  }

  /** Byte k of a segment lies in memory as many pages behind its first byte as page p lies behind the first page of its
      address. (An empty segment counts as a byte, unless it is at a page boundary.) */
  ghost predicate ByteInPage(memory: uint32, h: Header, p: Frame, k: nat) {
    && (k < h.memsz || (k == 0 && (memory + h.offset) % PAGE_SIZE != 0))
    && (memory + h.offset + k) / PAGE_SIZE - (memory + h.offset) / PAGE_SIZE == PageIndex(p, h.vaddr / PAGE_SIZE)
  }

  /** No page is mapped for a segment but those some byte of it is in, and they show that byte's frame. */
  lemma TouchesExactlyWhen(memory: uint32, h: Header, p: Frame)
    requires Sensible(memory, h)
    ensures Touches(memory, h, p) <==> exists k: nat :: ByteInPage(memory, h, p, k)
    ensures forall k: nat :: ByteInPage(memory, h, p, k) ==> SegmentFrame(memory, h, p) == (memory + h.offset + k) / PAGE_SIZE
  {
    var phys, n, i := memory + h.offset, h.memsz, PageIndex(p, h.vaddr / PAGE_SIZE);
    DoesNotWrap(phys);
    DoesNotWrap(phys + n);
    PagesOfRange(phys, n);
    AlignDownParts(h.vaddr);
    hide Wrap, PageIndex, AlignUp, AlignDown, PageCount;
    assert Touches(memory, h, p) <==> phys / PAGE_SIZE + i < AlignUp(phys + n) / PAGE_SIZE;
    if Touches(memory, h, p) {
      ByteOfPage(phys, n, i);
      assert ByteInPage(memory, h, p, if i == 0 then 0 else i * PAGE_SIZE - phys % PAGE_SIZE);
    }
    forall k: nat | ByteInPage(memory, h, p, k)
      ensures Touches(memory, h, p) && SegmentFrame(memory, h, p) == (phys + k) / PAGE_SIZE
    {
      BelowEnd(phys, n, k);
    }
  }

  /** The pages of n bytes from an address on. */
  lemma PagesOfRange(phys: uint32, n: nat)
    requires phys + n <= 0xFFFF_F000 && AlignUp(phys + n) - AlignDown(phys) < 0x8000_0000
    ensures AlignDown(phys) / PAGE_SIZE == phys / PAGE_SIZE && AlignDown(phys) <= AlignUp(phys + n)
    ensures PageCount(AlignDown(phys), AlignUp(phys + n)) == AlignUp(phys + n) / PAGE_SIZE - phys / PAGE_SIZE
  {
    AlignDownParts(phys);
    var end := AlignUp(phys + n);
    assert end == end / PAGE_SIZE * PAGE_SIZE;
    assert AlignDown(phys) == phys / PAGE_SIZE * PAGE_SIZE;
  }

  lemma BelowEnd(phys: uint32, n: nat, k: nat)
    requires phys + n <= 0xFFFF_F000 && (k < n || (k == 0 && phys % PAGE_SIZE != 0))
    ensures (phys + k) / PAGE_SIZE < AlignUp(phys + n) / PAGE_SIZE
  {
    var end := AlignUp(phys + n);
    assert end == end / PAGE_SIZE * PAGE_SIZE && phys + n <= end;
  }

  lemma ByteOfPage(phys: uint32, n: nat, i: nat)
    requires phys + n <= 0xFFFF_F000 && phys / PAGE_SIZE + i < AlignUp(phys + n) / PAGE_SIZE
    ensures i == 0 ==> n > 0 || phys % PAGE_SIZE != 0
    ensures i > 0 ==> 0 <= i * PAGE_SIZE - phys % PAGE_SIZE < n
    ensures i > 0 ==> (phys + (i * PAGE_SIZE - phys % PAGE_SIZE)) / PAGE_SIZE == phys / PAGE_SIZE + i
  {
    var end := AlignUp(phys + n);
    assert end == end / PAGE_SIZE * PAGE_SIZE && end < phys + n + PAGE_SIZE;
    assert phys == phys / PAGE_SIZE * PAGE_SIZE + phys % PAGE_SIZE;
    assert phys + (i * PAGE_SIZE - phys % PAGE_SIZE) == (phys / PAGE_SIZE + i) * PAGE_SIZE;
  }

  /** Mapping a segment leaves the pages it does not touch alone. */
  lemma SegmentKeepsOthers(pages: seq<uint32>, memory: uint32, h: Header, p: Frame)
    requires |pages| == PAGES && !Touches(memory, h, p)
    ensures MapSegment(pages, memory, h).0[p] == pages[p]
  {
  }

  lemma {:induction false} LaterSegmentsKeep(pages: seq<uint32>, memory: uint32, hs: seq<Header>, p: Frame)
    requires |pages| == PAGES
    requires forall i :: 0 <= i < |hs| ==> !Touches(memory, hs[i], p)
    ensures MapSegments(pages, memory, hs).0[p] == pages[p]
    decreases |hs|
  {
    if hs != [] {
      SegmentKeepsOthers(pages, memory, hs[0], p);
      LaterSegmentsKeep(MapSegment(pages, memory, hs[0]).0, memory, hs[1..], p);
    }
  }

  // ---------- The entry of a page in terms of the headers ----------

  /** The frame a segment shows in a page it touches. */
  function SegmentFrame(memory: uint32, h: Header, p: Frame): Frame {
    PlusPages(SegmentBase(memory, h) / PAGE_SIZE, PageIndex(p, AlignDown(h.vaddr) / PAGE_SIZE))
  }

  /** The entry it gives to such a page. */
  function SegmentEntry(memory: uint32, h: Header, p: Frame): uint32 {
    EntryOf(SegmentFrame(memory, h, p), FlagsOf(h))
  }

  /** The last header to touch page p, of those mapped before one fails; -1 if there is none. */
  function Setter(memory: uint32, hs: seq<Header>, p: Frame): (i: int)
    ensures i == -1 || (0 <= i < |hs| && Touches(memory, hs[i], p))
    decreases |hs|
  {
    if hs == [] || Fails(memory, hs[0]) then -1
    else
      var later := Setter(memory, hs[1..], p);
      if later != -1 then later + 1 else if Touches(memory, hs[0], p) then 0 else -1
  }

  /** Nothing before header i fails. */
  ghost predicate Reached(memory: uint32, hs: seq<Header>, i: nat) {
    i < |hs| && forall j :: 0 <= j < i ==> !Fails(memory, hs[j])
  }

  lemma {:induction false} SetterIsLast(memory: uint32, hs: seq<Header>, p: Frame)
    ensures var i := Setter(memory, hs, p);
      && (i != -1 ==> Reached(memory, hs, i))
      && forall j :: i < j && Reached(memory, hs, j) ==> !Touches(memory, hs[j], p)
    decreases |hs|
  {
    if hs != [] && !Fails(memory, hs[0]) {
      var rest := hs[1..];
      SetterIsLast(memory, rest, p);
      forall j: nat | Reached(memory, hs, j) && j > 0
        ensures Reached(memory, rest, j - 1) && rest[j - 1] == hs[j]
      {
      }
      var i := Setter(memory, rest, p);
      if i != -1 {
        assert forall j :: 0 <= j < i ==> rest[j] == hs[j + 1];
        assert forall j :: 1 <= j < i + 1 ==> hs[j] == rest[j - 1];
      }
    }
  }

  /** After mapping, a page has the entry its last header gives it, or its old one. */
  lemma {:induction false} EntryIsTheSetters(pages: seq<uint32>, memory: uint32, hs: seq<Header>, p: Frame)
    requires |pages| == PAGES
    ensures var i := Setter(memory, hs, p);
      MapSegments(pages, memory, hs).0[p] == if i == -1 then pages[p] else SegmentEntry(memory, hs[i], p)
    decreases |hs|
  {
    if hs != [] {
      OneSegmentEntry(pages, memory, hs[0], p);
      MapToFailsExactlyWhen(pages, memory, hs[0]);
      if !Fails(memory, hs[0]) {
        hide MapSegment, Touches, SegmentEntry, Fails;
        EntryIsTheSetters(MapSegment(pages, memory, hs[0]).0, memory, hs[1..], p);
      }
    }
  }

  lemma OneSegmentEntry(pages: seq<uint32>, memory: uint32, h: Header, p: Frame)
    requires |pages| == PAGES
    ensures MapSegment(pages, memory, h).0[p] == if Touches(memory, h, p) then SegmentEntry(memory, h, p) else pages[p]
  {
  }

  /** The segment is mapped to itself: its physical and its virtual pages are the same. */
  predicate SelfMapped(memory: uint32, h: Header) {
    SegmentBase(memory, h) == AlignDown(h.vaddr)
  }

  /** A touched page is identity-mapped exactly if the segment is mapped to itself, and writable exactly if the
      file asks for it. */
  lemma SegmentEntryFields(memory: uint32, h: Header, p: Frame)
    ensures SegmentEntry(memory, h, p) / PAGE_SIZE == SegmentFrame(memory, h, p)
    ensures SegmentEntry(memory, h, p) / PAGE_SIZE == p <==> SelfMapped(memory, h)
    ensures Writeable(SegmentEntry(memory, h, p)) <==> h.flags % 4 >= 2
    ensures SegmentEntry(memory, h, p) % PAGE_SIZE == FlagsOf(h)
  {
    var vp, pf := AlignDown(h.vaddr) / PAGE_SIZE, SegmentBase(memory, h) / PAGE_SIZE;
    assert vp * PAGE_SIZE == AlignDown(h.vaddr) && pf * PAGE_SIZE == SegmentBase(memory, h);
    EntryParts(PlusPages(pf, PageIndex(p, vp)), FlagsOf(h));
    WriteableBit(SegmentEntry(memory, h, p), h);
  }

  /** A data segment that is readable and writable is mapped writable (flags 7), a code segment that is readable and
      executable is not (flags 5). */
  lemma FlagsExample(memory: uint32, vaddr: uint32, p: Frame)
    ensures SegmentEntry(memory, Header(PT_LOAD, 0, vaddr, 16, 16, 6), p) % PAGE_SIZE == 7
    ensures SegmentEntry(memory, Header(PT_LOAD, 0, vaddr, 16, 16, 5), p) % PAGE_SIZE == 5
  {
    SegmentEntryFields(memory, Header(PT_LOAD, 0, vaddr, 16, 16, 6), p);
    SegmentEntryFields(memory, Header(PT_LOAD, 0, vaddr, 16, 16, 5), p);
    hide SegmentEntry;
  }

  /** No later header maps a page of segment i again. */
  ghost predicate NotRemapped(memory: uint32, hs: seq<Header>, i: nat)
    requires i < |hs|
  {
    forall j, k :: i < j < |hs| && 0 <= k < hs[i].memsz ==> !Touches(memory, hs[j], ByteAddr(hs[i], k) / PAGE_SIZE)
  }

  /** The writeable bit of every page of the segment is the one the file asks for. */
  ghost predicate ProtectedAsAsked(pages: seq<uint32>, h: Header)
    requires |pages| == PAGES
  {
    forall k :: 0 <= k < h.memsz ==> (Writeable(pages[ByteAddr(h, k) / PAGE_SIZE]) <==> h.flags % 4 >= 2)
  }

  /** Segments mapped later are elsewhere, so they keep what this one set up. */
  lemma FirstSegmentStays(pages: seq<uint32>, memory: uint32, hs: seq<Header>)
    requires |pages| == PAGES && hs != [] && NotRemapped(memory, hs, 0)
    requires MapSegments(pages, memory, hs).1 == 0
    ensures forall k :: 0 <= k < hs[0].memsz ==>
              MapSegments(pages, memory, hs).0[ByteAddr(hs[0], k) / PAGE_SIZE]
              == MapSegment(pages, memory, hs[0]).0[ByteAddr(hs[0], k) / PAGE_SIZE]
  {
    var first, rest := MapSegment(pages, memory, hs[0]).0, hs[1..];
    hide MapSegment, Touches, ByteAddr;
    forall k | 0 <= k < hs[0].memsz
      ensures MapSegments(pages, memory, hs).0[ByteAddr(hs[0], k) / PAGE_SIZE] == first[ByteAddr(hs[0], k) / PAGE_SIZE]
    {
      var p: Frame := ByteAddr(hs[0], k) / PAGE_SIZE;
      forall j | 0 <= j < |rest|
        ensures !Touches(memory, rest[j], p)
      {
        assert rest[j] == hs[j + 1];
      }
      LaterSegmentsKeep(first, memory, rest, p);
    }
  }

  lemma SegmentIsProtected(pages: seq<uint32>, memory: uint32, h: Header)
    requires |pages| == PAGES && memory % PAGE_SIZE == 0 && Sensible(memory, h)
    requires h.vaddr % PAGE_SIZE == h.offset % PAGE_SIZE
    ensures ProtectedAsAsked(MapSegment(pages, memory, h).0, h)
  {
    forall k | 0 <= k < h.memsz
      ensures Writeable(MapSegment(pages, memory, h).0[ByteAddr(h, k) / PAGE_SIZE]) <==> WantsWriteable(h)
    {
      SegmentByte(pages, memory, h, k);
      WriteableBit(MapSegment(pages, memory, h).0[ByteAddr(h, k) / PAGE_SIZE], h);
    }
  }

  lemma WriteableBit(entry: uint32, h: Header)
    requires entry % PAGE_SIZE == FlagsOf(h)
    ensures Writeable(entry) <==> WantsWriteable(h)
  {
    WriteableFlag(entry, FlagsOf(h));
  }

  /** The main result about ELF loading: after every header has been mapped, a segment whose pages no later
      header maps again is found byte by byte where the file was read to, exactly when its offset and address
      agree modulo the page size; and then its pages are protected as the file asks. */
  lemma {:induction false} LoadedSegmentReadsExactlyWhen(pages: seq<uint32>, memory: uint32, hs: seq<Header>, i: nat)
    requires |pages| == PAGES && memory % PAGE_SIZE == 0 && i < |hs|
    requires MapSegments(pages, memory, hs).1 == 0
    requires Sensible(memory, hs[i]) && NotRemapped(memory, hs, i)
    ensures Reads(MapSegments(pages, memory, hs).0, memory, hs[i])
       <==> hs[i].memsz == 0 || hs[i].vaddr % PAGE_SIZE == hs[i].offset % PAGE_SIZE
    ensures hs[i].vaddr % PAGE_SIZE == hs[i].offset % PAGE_SIZE ==>
              ProtectedAsAsked(MapSegments(pages, memory, hs).0, hs[i])
    decreases i
  {
    var first, h := MapSegment(pages, memory, hs[0]).0, hs[i];
    if i == 0 {
      SegmentReadsExactlyWhen(pages, memory, h);
      if h.vaddr % PAGE_SIZE == h.offset % PAGE_SIZE {
        SegmentIsProtected(pages, memory, h);
      }
      FirstSegmentStays(pages, memory, hs);
      hide MapSegment, MapSegments, ByteAddr, PhysOf, Writeable, WantsWriteable;
      SameBytes(first, MapSegments(pages, memory, hs).0, memory, h);
    } else {
      var rest := hs[1..];
      assert rest[i - 1] == h;
      forall j, k | i - 1 < j < |rest| && 0 <= k < h.memsz
        ensures !Touches(memory, rest[j], ByteAddr(h, k) / PAGE_SIZE)
      {
        assert rest[j] == hs[j + 1];
      }
      hide MapSegment, Reads, ProtectedAsAsked, Sensible, Touches;
      LoadedSegmentReadsExactlyWhen(first, memory, rest, i - 1);
    }
  }

  lemma SameBytes(pages: seq<uint32>, pages': seq<uint32>, memory: uint32, h: Header)
    requires |pages| == |pages'| == PAGES
    requires forall k :: 0 <= k < h.memsz ==> pages'[ByteAddr(h, k) / PAGE_SIZE] == pages[ByteAddr(h, k) / PAGE_SIZE]
    ensures Reads(pages', memory, h) <==> Reads(pages, memory, h)
    ensures ProtectedAsAsked(pages', h) <==> ProtectedAsAsked(pages, h)
  {
    hide ByteAddr, PhysOf, Writeable, WantsWriteable;
    assert forall k :: 0 <= k < h.memsz ==> Translate(pages', ByteAddr(h, k)) == Translate(pages, ByteAddr(h, k));
  }

  // ---------- The whole program ----------

  datatype Program = Binary(addr: uint32, size: uint32) | ElfImage(memory: uint32, headers: seq<Header>)

  ghost function MapProgram(pages: seq<uint32>, program: Program): (r: (seq<uint32>, int))
    requires |pages| == PAGES
    ensures |r.0| == PAGES
  {
    match program
    case Binary(addr, size) => (MapTo(pages, PGM_VIRT_ADDR, addr, AlignUp(Wrap(addr + size)), USER_RW).0, 0)
    case ElfImage(memory, headers) => MapSegments(pages, memory, headers)
  }

  ghost function MapStack(pages: seq<uint32>, stack: uint32): (r: seq<uint32>)
    requires |pages| == PAGES
    ensures |r| == PAGES
  {
    MapTo(pages, STACK_END, stack, AlignUp(Wrap(stack + STACK_SIZE)), USER_RW).0
  }

  /** What `process_map_memory` does to the entries, and its status. */
  ghost function MapMemory(pages: seq<uint32>, program: Program, stack: uint32): (r: (seq<uint32>, int))
    requires |pages| == PAGES
    ensures |r.0| == PAGES
  {
    var loaded := MapProgram(pages, program);
    if loaded.1 < 0 then loaded else (MapStack(loaded.0, stack), loaded.1)
  }

  /** The status of loading: -EINVARG exactly when some header's range wraps, and else 0. */
  lemma LoadStatus(pages: seq<uint32>, program: Program, stack: uint32)
    requires |pages| == PAGES
    ensures MapMemory(pages, program, stack).1 == if SomeHeaderFails(program) then -EINVARG else 0
  {
    if program.ElfImage? {
      LoadingFailsExactlyWhen(pages, program.memory, program.headers);
      SegmentsStatus(pages, program.memory, program.headers);
    }
    hide MapSegments, MapTo, Fails, MapStack;
  }

  ghost predicate SomeHeaderFails(program: Program) {
    program.ElfImage? && exists i :: 0 <= i < |program.headers| && Fails(program.memory, program.headers[i])
  }

  lemma {:induction false} SegmentsStatus(pages: seq<uint32>, memory: uint32, hs: seq<Header>)
    requires |pages| == PAGES
    ensures MapSegments(pages, memory, hs).1 == 0 || MapSegments(pages, memory, hs).1 == -EINVARG
    decreases |hs|
  {
    if hs != [] {
      OneSegmentStatus(pages, memory, hs[0]);
      hide MapSegment;
      SegmentsStatus(MapSegment(pages, memory, hs[0]).0, memory, hs[1..]);
    }
  }

  lemma OneSegmentStatus(pages: seq<uint32>, memory: uint32, h: Header)
    requires |pages| == PAGES
    ensures MapSegment(pages, memory, h).1 == 0 || MapSegment(pages, memory, h).1 == -EINVARG
  {
  }

  /** Mapping a flat program writes the entry of page p. */
  predicate BinaryTouches(addr: uint32, size: uint32, p: Frame) {
    var end := AlignUp(Wrap(addr + size));
    && addr % PAGE_SIZE == 0 && addr <= end
    && PageIndex(p, PGM_VIRT_ADDR / PAGE_SIZE) < PageCount(addr, end)
  }

  function BinaryFrame(addr: uint32, p: Frame): Frame {
    PlusPages(addr / PAGE_SIZE, PageIndex(p, PGM_VIRT_ADDR / PAGE_SIZE))
  }

  function BinaryEntry(addr: uint32, p: Frame): uint32 {
    EntryOf(BinaryFrame(addr, p), USER_RW)
  }

  /** Byte k of a flat program is in page p. */
  ghost predicate BinaryByteIn(size: uint32, p: Frame, k: nat) {
    k < size && (PGM_VIRT_ADDR + k) / PAGE_SIZE == p
  }

  /** No page is mapped for a flat program but those some byte of it is in, and they show that byte's frame. */
  lemma BinaryTouchesExactlyWhen(addr: uint32, size: uint32, p: Frame)
    requires addr % PAGE_SIZE == 0 && addr + size <= 0xFFFF_F000 && size <= 0x7FFF_F000
    ensures BinaryTouches(addr, size, p) <==> exists k: nat :: BinaryByteIn(size, p, k)
    ensures forall k: nat :: BinaryByteIn(size, p, k) ==> BinaryFrame(addr, p) == (addr + k) / PAGE_SIZE
  {
    var i := PageIndex(p, PGM_VIRT_ADDR / PAGE_SIZE);
    var end := AlignUp(Wrap(addr + size));
    assert Wrap(addr + size) == addr + size <= end < addr + size + PAGE_SIZE;
    SpanBelow(addr, end, size);
    PagesOfRange(addr, size);
    hide AlignUp, Wrap, PageCount, AlignDown;
    assert BinaryTouches(addr, size, p) <==> addr / PAGE_SIZE + i < end / PAGE_SIZE;
    if BinaryTouches(addr, size, p) {
      ByteOfPage(addr, size, i);
      assert PGM_VIRT_ADDR + i * PAGE_SIZE < 0x1_0000_0000;
      assert BinaryByteIn(size, p, i * PAGE_SIZE);
    }
    forall k: nat | BinaryByteIn(size, p, k)
      ensures BinaryTouches(addr, size, p) && BinaryFrame(addr, p) == (addr + k) / PAGE_SIZE
    {
      assert i == k / PAGE_SIZE;
      BelowEnd(addr, size, k);
    }
  }

  lemma BinaryEntryIs(pages: seq<uint32>, addr: uint32, size: uint32, p: Frame)
    requires |pages| == PAGES
    ensures MapProgram(pages, Binary(addr, size)).0[p]
         == if BinaryTouches(addr, size, p) then BinaryEntry(addr, p) else pages[p]
  {
  }

  lemma BinaryEntryFields(addr: uint32, p: Frame)
    requires addr % PAGE_SIZE == 0
    ensures BinaryEntry(addr, p) / PAGE_SIZE == BinaryFrame(addr, p)
    ensures BinaryEntry(addr, p) / PAGE_SIZE == p <==> addr == PGM_VIRT_ADDR
    ensures Writeable(BinaryEntry(addr, p)) && BinaryEntry(addr, p) % PAGE_SIZE == USER_RW
  {
    var pf := addr / PAGE_SIZE;
    assert pf * PAGE_SIZE == addr;
    EntryParts(PlusPages(pf, PageIndex(p, PGM_VIRT_ADDR / PAGE_SIZE)), USER_RW);
    WriteableFlag(BinaryEntry(addr, p), USER_RW);
  }

  /** The pages of the stack, just below the program. */
  predicate IsStackPage(p: Frame) {
    STACK_END <= p * PAGE_SIZE < STACK_START
  }

  lemma {:induction false} StackIsMapped(pages: seq<uint32>, stack: uint32)
    requires |pages| == PAGES && stack % PAGE_SIZE == 0 && stack + STACK_SIZE <= 0xFFFF_F000
    ensures forall k :: 0 <= k < STACK_SIZE ==> MapsByte(MapStack(pages, stack), STACK_END, stack, k, USER_RW)
    ensures forall p: Frame :: !IsStackPage(p) ==> MapStack(pages, stack)[p] == pages[p]
  {
    assert AlignUp(Wrap(stack + STACK_SIZE)) == stack + STACK_SIZE;
    MapToMapsTheRange(pages, STACK_END, stack, stack + STACK_SIZE, USER_RW);
    forall p: Frame | !IsStackPage(p)
      ensures MapStack(pages, stack)[p] == pages[p]
    {
      assert PageIndex(p, STACK_END / PAGE_SIZE) * PAGE_SIZE >= STACK_SIZE;
    }
  }

  /** A stack on a page boundary that does not wrap; any other is not mapped at all. */
  predicate StackFits(stack: uint32) {
    stack % PAGE_SIZE == 0 && stack + STACK_SIZE < 0x1_0000_0000
  }

  /** The frame that shows in a page of the stack. */
  function StackFrame(stack: uint32, p: Frame): Frame
    requires StackFits(stack) && IsStackPage(p)
  {
    PlusPages(stack / PAGE_SIZE, PageIndex(p, STACK_END / PAGE_SIZE))
  }

  lemma StackSpan(stack: uint32)
    requires stack % PAGE_SIZE == 0
    ensures var end := AlignUp(Wrap(stack + STACK_SIZE));
      (stack <= end <==> StackFits(stack)) && (stack <= end ==> PageCount(stack, end) == STACK_SIZE / PAGE_SIZE)
  {
  }

  lemma StackPages(p: Frame)
    ensures PageIndex(p, STACK_END / PAGE_SIZE) < STACK_SIZE / PAGE_SIZE <==> IsStackPage(p)
  {
  }

  /** The entry of every page after the stack is mapped. */
  lemma StackEntryIs(pages: seq<uint32>, stack: uint32, p: Frame)
    requires |pages| == PAGES
    ensures MapStack(pages, stack)[p] == if StackFits(stack) && IsStackPage(p) then EntryOf(StackFrame(stack, p), USER_RW)
                                         else pages[p]
  {
    StackPages(p);
    if stack % PAGE_SIZE == 0 {
      StackSpan(stack);
    }
    hide AlignUp, PageIndex, PageCount, IsStackPage;
  }

  /** Wherever the stack is, mapping it writes no other page. */
  lemma StackTouchesOnlyItsPages(pages: seq<uint32>, stack: uint32, p: Frame)
    requires |pages| == PAGES && !IsStackPage(p)
    ensures MapStack(pages, stack)[p] == pages[p]
  {
    hide MapStack;
    StackEntryIs(pages, stack, p);
  }

  lemma BinaryAlone(pages: seq<uint32>, addr: uint32, size: uint32)
    requires |pages| == PAGES && addr % PAGE_SIZE == 0 && addr + size <= 0xFFFF_F000 && size <= 0x7FFF_F000
    ensures forall k :: 0 <= k < size ==>
              MapsByte(MapProgram(pages, Binary(addr, size)).0, PGM_VIRT_ADDR, addr, k, USER_RW)
  {
    var end := AlignUp(Wrap(addr + size));
    assert Wrap(addr + size) == addr + size <= end < addr + size + PAGE_SIZE;
    SpanBelow(addr, end, size);
    hide AlignUp, Wrap, MapsByte;
    MapToMapsTheRange(pages, PGM_VIRT_ADDR, addr, end, USER_RW);
  }

  /** A flat program is found, byte by byte, at the fixed program address, with its stack below it. */
  lemma {:induction false} BinaryIsMapped(pages: seq<uint32>, addr: uint32, size: uint32, stack: uint32)
    requires |pages| == PAGES && addr % PAGE_SIZE == 0 && stack % PAGE_SIZE == 0
    requires addr + size <= 0xFFFF_F000 && size <= 0x7FFF_F000 && stack + STACK_SIZE <= 0xFFFF_F000
    ensures var final := MapMemory(pages, Binary(addr, size), stack).0;
      && (forall k :: 0 <= k < size ==> MapsByte(final, PGM_VIRT_ADDR, addr, k, USER_RW))
      && forall k :: 0 <= k < STACK_SIZE ==> MapsByte(final, STACK_END, stack, k, USER_RW)
  {
    var loaded := MapProgram(pages, Binary(addr, size)).0;
    assert MapMemory(pages, Binary(addr, size), stack).0 == MapStack(loaded, stack);
    BinaryAlone(pages, addr, size);
    StackIsMapped(loaded, stack);
    hide MapProgram, MapMemory, MapStack, IsStackPage;
    forall k | 0 <= k < size
      ensures MapsByte(MapStack(loaded, stack), PGM_VIRT_ADDR, addr, k, USER_RW)
    {
      assert MapsByte(loaded, PGM_VIRT_ADDR, addr, k, USER_RW);
      ProgramIsNotStack(k);
    }
  }

  lemma ProgramIsNotStack(k: nat)
    requires k < 0x7FFF_F000
    ensures !IsStackPage(Wrap(PGM_VIRT_ADDR + k) / PAGE_SIZE)
  {
  }

  lemma SpanBelow(addr: uint32, end: uint32, size: uint32)
    requires addr % PAGE_SIZE == 0 && end % PAGE_SIZE == 0
    requires addr + size <= end < addr + size + PAGE_SIZE && size <= 0x7FFF_F000
    ensures end - addr < 0x8000_0000
  {
  }

  /** Loading an ELF program touches only the pages of its segments and its stack. */
  lemma OnlyTheProgramIsMapped(pages: seq<uint32>, memory: uint32, hs: seq<Header>, stack: uint32, p: Frame)
    requires |pages| == PAGES && stack % PAGE_SIZE == 0 && stack + STACK_SIZE <= 0xFFFF_F000
    requires !IsStackPage(p) && forall i :: 0 <= i < |hs| ==> !Touches(memory, hs[i], p)
    ensures MapMemory(pages, ElfImage(memory, hs), stack).0[p] == pages[p]
  {
    LaterSegmentsKeep(pages, memory, hs, p);
    StackIsMapped(MapSegments(pages, memory, hs).0, stack);
  }

  // ---------- The code ----------

  lemma OnlyPagesCompose(m0: Words, m1: Words, m2: Words, d: Frame, pages1: seq<uint32>, pages2: seq<uint32>)
    requires OnlyPages(m0, m1, d, pages1) && OnlyPages(m1, m2, d, pages2)
    ensures OnlyPages(m0, m2, d, pages2)
  {
    assert forall i :: 0 <= i < ENTRIES ==> TableOf(m2, d, i) == TableOf(m1, d, i) == TableOf(m0, d, i);
    forall f: Frame | !IsTable(m0, d, f)
      ensures SameFrame(m0, m2, f)
    {
      assert !IsTable(m1, d, f);
      assert SameFrame(m0, m1, f) && SameFrame(m1, m2, f);
    }
  }

  lemma OnlyPagesRefl(m: Words, d: Frame)
    requires DirOk(m, d)
    ensures OnlyPages(m, m, d, Pages(m, d))
  {
  }

  /** `process_map_elf`. */
  method MapElf(mem: array<uint32>, dir: uint32, memory: uint32, headers: seq<Header>) returns (status: int)
    requires mem.Length == WORDS && dir % PAGE_SIZE == 0 && DirOk(mem[..], dir / PAGE_SIZE)
    modifies mem
    ensures status == MapSegments(Pages(old(mem[..]), dir / PAGE_SIZE), memory, headers).1
    ensures OnlyPages(old(mem[..]), mem[..], dir / PAGE_SIZE,
                      MapSegments(Pages(old(mem[..]), dir / PAGE_SIZE), memory, headers).0)
  {
    hide MapSegment, OnlyPages;
    ghost var d: Frame, m0: Words := dir / PAGE_SIZE, mem[..];
    ghost var pages := Pages(m0, d);
    ghost var all := MapSegments(pages, memory, headers);
    OnlyPagesRefl(m0, d);
    status := 0;
    var i := 0;
    while i < |headers|
      invariant 0 <= i <= |headers| && status == 0
      invariant |pages| == PAGES && OnlyPages(m0, mem[..], d, pages)
      invariant MapSegments(pages, memory, headers[i..]) == all
    {
      var phdr := headers[i];
      ghost var m: Words, step := mem[..], MapSegment(pages, memory, phdr);
      OnlyPagesArePages(m0, m, d, pages);
      MapToFailsExactlyWhen(pages, memory, phdr);
      status := MapHeader(mem, dir, memory, phdr);
      OnlyPagesCompose(m0, m, mem[..], d, pages, step.0);
      assert headers[i..][0] == phdr && headers[i..][1..] == headers[i + 1..];
      if status < 0 {
        return;
      }
      pages := step.0;
      i := i + 1;
    }
  }

  lemma OnlyPagesArePages(m0: Words, m: Words, d: Frame, pages: seq<uint32>)
    requires OnlyPages(m0, m, d, pages)
    ensures DirOk(m, d) && Pages(m, d) == pages
  {
  }

  /** One round of that loop. */
  method MapHeader(mem: array<uint32>, dir: uint32, memory: uint32, phdr: Header) returns (status: int)
    requires mem.Length == WORDS && dir % PAGE_SIZE == 0 && DirOk(mem[..], dir / PAGE_SIZE)
    modifies mem
    ensures status == MapSegment(Pages(old(mem[..]), dir / PAGE_SIZE), memory, phdr).1
    ensures OnlyPages(old(mem[..]), mem[..], dir / PAGE_SIZE, MapSegment(Pages(old(mem[..]), dir / PAGE_SIZE), memory, phdr).0)
  {
    hide MapTo, OnlyPages;
    var flags := USER_RO;
    WantsWriteableIsMask(phdr);
    if And(phdr.flags, PF_W) != 0 {
      flags := flags + IS_WRITEABLE;
    }
    var phys := PhysOf(memory, phdr);
    var virtBase, physBase := AlignDown(phdr.vaddr), AlignDown(phys);
    var physEnd := AlignUp(Wrap(phys + phdr.memsz));
    status := MapToRange(mem, dir, virtBase, physBase, physEnd, flags);
    assert flags == FlagsOf(phdr);
  }

  /** `process_map_memory`, with `process_map_bin` for flat programs. */
  method MapProcess(mem: array<uint32>, dir: uint32, program: Program, stack: uint32) returns (status: int)
    requires mem.Length == WORDS && dir % PAGE_SIZE == 0 && DirOk(mem[..], dir / PAGE_SIZE)
    modifies mem
    ensures status == MapMemory(Pages(old(mem[..]), dir / PAGE_SIZE), program, stack).1
    ensures OnlyPages(old(mem[..]), mem[..], dir / PAGE_SIZE,
                      MapMemory(Pages(old(mem[..]), dir / PAGE_SIZE), program, stack).0)
  {
    ghost var d: Frame, m0: Words := dir / PAGE_SIZE, mem[..];
    match program {
      case Binary(addr, size) =>
        var _ := MapToRange(mem, dir, PGM_VIRT_ADDR, addr, AlignUp(Wrap(addr + size)), USER_RW);
        status := 0;
      case ElfImage(memory, headers) =>
        status := MapElf(mem, dir, memory, headers);
    }
    ghost var m1: Words, loaded := mem[..], MapProgram(Pages(m0, d), program).0;
    assert OnlyPages(m0, m1, d, loaded);
    if status < 0 {
      return;
    }
    assert Pages(m1, d) == loaded && DirOk(m1, d);
    var _ := MapToRange(mem, dir, STACK_END, stack, AlignUp(Wrap(stack + STACK_SIZE)), USER_RW);
    hide OnlyPages, MapTo, Pages;
    OnlyPagesCompose(m0, m1, mem[..], d, loaded, MapStack(loaded, stack));
  }
}
