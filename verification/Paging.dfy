/** Two-level page directories kept in physical memory. Frames and pages are numbered; the frame or page
    number of an address is address / 4096. */
module Paging {
  import opened Machine
  import opened Memory

  const ENTRIES := 1024
  const PAGES := 0x10_0000
  const TABLE_SPAN := 0x40_0000

  const IS_WRITEABLE := 2
  const ACCESS_FROM_ALL := 4
  const IS_PRESENT := 1

  /** What a user program may do with a page: read it, or read and write it. */
  const USER_RO := IS_PRESENT + ACCESS_FROM_ALL
  const USER_RW := USER_RO + IS_WRITEABLE

  type Frame = f: nat | f < PAGES

  // ---------- Reading a directory ----------

  /** The frame of the i-th page table of the directory in frame d. */
  function TableOf(m: Words, d: Frame, i: nat): Frame
    requires i < ENTRIES
  {
    m[ENTRIES * d + i] / PAGE_SIZE
  }

  /** The word holding the entry of virtual page p. */
  function EntryIdx(m: Words, d: Frame, p: Frame): nat {
    ENTRIES * TableOf(m, d, p / ENTRIES) + p % ENTRIES
  }

  function Entry(m: Words, d: Frame, p: Frame): uint32 {
    m[EntryIdx(m, d, p)]
  }

  /** All entries of a directory, by virtual page number. */
  ghost function Pages(m: Words, d: Frame): (pages: seq<uint32>)
    ensures |pages| == PAGES
  {
    seq(PAGES, p requires 0 <= p < PAGES => Entry(m, d, p))
  }

  /** Where a directory sends a virtual address. */
  ghost function Translate(pages: seq<uint32>, virt: uint32): uint32
    requires |pages| == PAGES
  {
    pages[virt / PAGE_SIZE] / PAGE_SIZE * PAGE_SIZE + virt % PAGE_SIZE
  }

  /** The flags of the i-th directory entry. */
  function TableFlags(m: Words, d: Frame, i: nat): nat
    requires i < ENTRIES
  {
    m[ENTRIES * d + i] % PAGE_SIZE
  }

  // ---------- What the processor lets a program do ----------

  /** Present, and not for the kernel alone. */
  ghost predicate Usable(entry: uint32) {
    entry % 2 == 1 && entry / 4 % 2 == 1
  }

  /** Writable besides. */
  ghost predicate Writeable(entry: uint32) {
    Usable(entry) && entry / 2 % 2 == 1
  }

  /** A user program may read page p: both entries on the way there allow it. */
  ghost predicate MayRead(m: Words, d: Frame, p: Frame) {
    Usable(m[ENTRIES * d + p / ENTRIES]) && Usable(Entry(m, d, p))
  }

  ghost predicate MayWrite(m: Words, d: Frame, p: Frame) {
    Writeable(m[ENTRIES * d + p / ENTRIES]) && Writeable(Entry(m, d, p))
  }

  /** Where the processor takes a program's access to an address, with the directory at `cr3`: two tables are read on the
      way, the first by the high ten bits of the address, the second by the ten below; None is a page fault. */
  ghost function Access(m: Words, cr3: uint32, virt: uint32, write: bool): Option<uint32> {
    var first := m[(cr3 / 0x1000 * 0x1000 + virt / 0x40_0000 * 4) / 4];
    if !Usable(first) || (write && !Writeable(first)) then None
    else
      var second := m[(first / 0x1000 * 0x1000 + virt / 0x1000 % 0x400 * 4) / 4];
      if !Usable(second) || (write && !Writeable(second)) then None
      else Some(second / 0x1000 * 0x1000 + virt % 0x1000)
  }

  /** So a page is read and written where its entry says, when both entries allow it. */
  lemma AccessIsTranslate(m: Words, d: Frame, virt: uint32, write: bool)
    ensures var allowed := if write then MayWrite(m, d, virt / PAGE_SIZE) else MayRead(m, d, virt / PAGE_SIZE);
      Access(m, d * PAGE_SIZE, virt, write) == if allowed then Some(Translate(Pages(m, d), virt)) else None
  {
    var p: Frame := virt / PAGE_SIZE;
    var first := m[ENTRIES * d + p / ENTRIES];
    WordOfEntry(d, p / ENTRIES);
    WordOfEntry(first / PAGE_SIZE, p % ENTRIES);
    hide Usable;
    assert virt / 0x40_0000 == p / ENTRIES;
    assert Pages(m, d)[p] == Entry(m, d, p);
  }

  lemma WordOfEntry(f: Frame, i: nat)
    requires i < ENTRIES
    ensures (f * PAGE_SIZE / 0x1000 * 0x1000 + i * 4) / 4 == ENTRIES * f + i
  {
    assert f * PAGE_SIZE / 0x1000 * 0x1000 + i * 4 == 4 * (ENTRIES * f + i);
  }

  /** Of an entry, only the flags decide. */
  lemma SameFlagsAllow(entry: uint32, flags: nat)
    requires entry % PAGE_SIZE == flags
    ensures Usable(entry) <==> Usable(flags)
    ensures Writeable(entry) <==> Writeable(flags)
  {
    var q := entry / PAGE_SIZE;
    Halves(2048 * q, flags);
    Halves(1024 * q, flags / 2);
    Halves(512 * q, flags / 2 / 2);
    assert entry == 2 * (2048 * q) + flags;
    assert entry / 2 == 2 * (1024 * q) + flags / 2;
    assert entry / 2 / 2 == 2 * (512 * q) + flags / 2 / 2;
  }

  /** All three flags are needed to write. */
  lemma WriteableFlag(entry: uint32, flags: nat)
    requires entry % PAGE_SIZE == flags
    ensures Writeable(entry) <==> flags % 8 == 7
  {
    SameFlagsAllow(entry, flags);
  }

  lemma Halves(a: nat, b: nat)
    ensures (2 * a + b) / 2 == a + b / 2 && (2 * a + b) % 2 == b % 2
  {
  }

  /** The tables are distinct frames, none of them the directory itself. */
  ghost predicate DirOk(m: Words, d: Frame) {
    && (forall i :: 0 <= i < ENTRIES ==> TableOf(m, d, i) != d)
    && (forall i, j :: 0 <= i < j < ENTRIES ==> TableOf(m, d, i) != TableOf(m, d, j))
  }

  ghost predicate IsTable(m: Words, d: Frame, f: Frame) {
    exists i :: 0 <= i < ENTRIES && TableOf(m, d, i) == f
  }

  ghost predicate SameTables(m: Words, m': Words, d: Frame) {
    forall i :: 0 <= i < ENTRIES ==> TableOf(m', d, i) == TableOf(m, d, i)
  }

  // ---------- Frames ----------

  ghost predicate SameFrame(m: Words, m': Words, f: Frame) {
    forall j :: ENTRIES * f <= j < ENTRIES * f + ENTRIES ==> m[j] == m'[j]
  }

  /** A store changes the frame of its address only. */
  lemma StoreInFrame(m: Words, addr: uint32, w: uint32, f: Frame)
    requires f != addr / PAGE_SIZE
    ensures SameFrame(m, m[addr / 4 := w], f)
  {
    assert ENTRIES * (addr / PAGE_SIZE) <= addr / 4 < ENTRIES * (addr / PAGE_SIZE) + ENTRIES;
  }

  /** A change of memory outside a directory's own frames leaves every entry of it alone. */
  lemma {:induction false} OtherFramesKeepPages(m: Words, m': Words, d: Frame)
    requires SameFrame(m, m', d) && forall i :: 0 <= i < ENTRIES ==> SameFrame(m, m', TableOf(m, d, i))
    ensures SameTables(m, m', d) && (DirOk(m, d) ==> DirOk(m', d))
    ensures Pages(m', d) == Pages(m, d)
  {
    forall p | 0 <= p < PAGES ensures Entry(m', d, p) == Entry(m, d, p) {
      assert SameFrame(m, m', TableOf(m, d, p / ENTRIES));
    }
  }

  // ---------- Writing one entry ----------

  lemma EntryIdxInjective(m: Words, d: Frame, p: Frame, q: Frame)
    requires DirOk(m, d)
    ensures EntryIdx(m, d, p) == EntryIdx(m, d, q) <==> p == q
  {
    assert TableOf(m, d, p / ENTRIES) == TableOf(m, d, q / ENTRIES) ==> p / ENTRIES == q / ENTRIES;
  }

  /** Memory m differs from m0 in page-table frames of d only, and there so that the entries are `pages`. */
  ghost predicate OnlyPages(m0: Words, m: Words, d: Frame, pages: seq<uint32>) {
    && DirOk(m0, d) && DirOk(m, d) && SameTables(m0, m, d)
    && Pages(m, d) == pages
    && (forall f: Frame :: !IsTable(m0, d, f) ==> SameFrame(m0, m, f))
  }

  /** Storing one entry changes that entry and nothing else of the directory, nor of any other memory. */
  lemma SetEntryChangesOnePage(m0: Words, m: Words, d: Frame, pages: seq<uint32>, p: Frame, w: uint32)
    requires OnlyPages(m0, m, d, pages)
    ensures OnlyPages(m0, m[EntryIdx(m, d, p) := w], d, pages[p := w])
  {
    var e := EntryIdx(m, d, p);
    var m': Words := m[e := w];
    forall i | 0 <= i < ENTRIES ensures TableOf(m', d, i) == TableOf(m, d, i) {
      assert TableOf(m, d, p / ENTRIES) != d;
    }
    forall q | 0 <= q < PAGES ensures Entry(m', d, q) == pages[p := w][q] {
      EntryIdxInjective(m, d, p, q);
    }
    forall f: Frame | !IsTable(m0, d, f) ensures SameFrame(m0, m', f) {
      assert TableOf(m0, d, p / ENTRIES) != f;
      assert SameFrame(m0, m, f);
    }
  }

  // ---------- Mapping a range ----------

  /** A page-table entry: a frame and the flags below it. */
  function EntryOf(frame: Frame, flags: nat): uint32
    requires flags < PAGE_SIZE
  {
    frame * PAGE_SIZE + flags
  }

  /** The two parts of an entry. */
  lemma EntryParts(frame: Frame, flags: nat)
    requires flags < PAGE_SIZE
    ensures EntryOf(frame, flags) / PAGE_SIZE == frame && EntryOf(frame, flags) % PAGE_SIZE == flags
  {
  }

  /** How many pages after vp page p comes, going round the address space. */
  function PageIndex(p: Frame, vp: Frame): Frame {
    if vp <= p then p - vp else p - vp + PAGES
  }

  function PlusPages(p: Frame, k: nat): Frame
    requires k < PAGES
  {
    if p + k < PAGES then p + k else p + k - PAGES
  }

  /** Pages vp, vp + 1, ... (wrapping at the end of the address space) mapped to frames pf, pf + 1, ... */
  ghost function MapPages(pages: seq<uint32>, vp: Frame, pf: Frame, count: nat, flags: nat): (r: seq<uint32>)
    requires |pages| == PAGES && flags < PAGE_SIZE
    ensures |r| == PAGES
  {
    seq(PAGES, p requires 0 <= p < PAGES =>
      if PageIndex(p, vp) < count then EntryOf(PlusPages(pf, PageIndex(p, vp)), flags) else pages[p])
  }

  lemma MapOneMorePage(pages: seq<uint32>, vp: Frame, pf: Frame, i: nat, flags: nat)
    requires |pages| == PAGES && flags < PAGE_SIZE && i < PAGES
    ensures MapPages(pages, vp, pf, i, flags)[PlusPages(vp, i) := EntryOf(PlusPages(pf, i), flags)]
         == MapPages(pages, vp, pf, i + 1, flags)
  {
  }

  /** The next page boundary after an address that is not on one; 0 at the end of the address space. */
  lemma NextBoundary(addr: uint32)
    requires addr % PAGE_SIZE != 0
    ensures var next := addr + PAGE_SIZE - addr % PAGE_SIZE;
      && next % PAGE_SIZE == 0 && addr < next < addr + PAGE_SIZE && next <= 0x1_0000_0000
      && Wrap(next) == if next < 0x1_0000_0000 then next else 0
  {
    var q := addr / PAGE_SIZE;
    assert addr == q * PAGE_SIZE + addr % PAGE_SIZE;
    assert addr + PAGE_SIZE - addr % PAGE_SIZE == (q + 1) * PAGE_SIZE;
  }

  function AlignUp(addr: uint32): (r: uint32)
    ensures r % PAGE_SIZE == 0
    ensures addr <= 0xFFFF_F000 ==> addr <= r < addr + PAGE_SIZE
    ensures addr > 0xFFFF_F000 ==> r == 0
  {
    if addr % PAGE_SIZE != 0 then NextBoundary(addr); Wrap(addr + PAGE_SIZE - addr % PAGE_SIZE) else addr
  }

  function AlignDown(addr: uint32): (r: uint32)
    ensures r % PAGE_SIZE == 0 && r <= addr < r + PAGE_SIZE
  {
    addr - addr % PAGE_SIZE
  }

  /** The number of pages `paging_map_to` asks for: a signed pointer difference, so a span of 2 GiB or
      more counts as negative. */
  function PageCount(phys: uint32, physEnd: uint32): (n: int)
    ensures n < PAGES
    ensures phys <= physEnd ==> n == if physEnd - phys < 0x8000_0000 then (physEnd - phys) / PAGE_SIZE
                                     else -((0x1_0000_0000 - physEnd + phys) / PAGE_SIZE)
  {
    TruncDiv(ToSigned(Wrap(physEnd - phys)), PAGE_SIZE)
  }

  /** What `paging_map_to` does to the entries, and its status. */
  ghost function MapTo(pages: seq<uint32>, virt: uint32, phys: uint32, physEnd: uint32,
                       flags: nat): (r: (seq<uint32>, int))
    requires |pages| == PAGES && flags < PAGE_SIZE
    ensures |r.0| == PAGES
  {
    if virt % PAGE_SIZE != 0 || phys % PAGE_SIZE != 0 || physEnd % PAGE_SIZE != 0 || physEnd < phys then (pages, -EINVARG)
    else if PageCount(phys, physEnd) <= 0 then (pages, 0)
    else (MapPages(pages, virt / PAGE_SIZE, phys / PAGE_SIZE, PageCount(phys, physEnd), flags), 0)
  }

  /** The k-th byte of the range translates to the matching byte, with the requested flags. */
  ghost predicate MapsByte(pages: seq<uint32>, virt: uint32, phys: uint32, k: nat, flags: nat)
    requires |pages| == PAGES
  {
    && Translate(pages, Wrap(virt + k)) == phys + k
    && pages[Wrap(virt + k) / PAGE_SIZE] % PAGE_SIZE == flags
  }

  ghost predicate MapsRange(pages: seq<uint32>, virt: uint32, phys: uint32, physEnd: uint32, flags: nat)
    requires |pages| == PAGES && flags < PAGE_SIZE && phys <= physEnd
  {
    forall k :: 0 <= k < physEnd - phys ==> MapsByte(pages, virt, phys, k, flags)
  }

  lemma PageOfOffset(virt: uint32, k: uint32)
    requires virt % PAGE_SIZE == 0
    ensures PageIndex(Wrap(virt + k) / PAGE_SIZE, virt / PAGE_SIZE) == k / PAGE_SIZE
    ensures Wrap(virt + k) % PAGE_SIZE == k % PAGE_SIZE
  {
  }

  lemma MapToMapsByte(pages: seq<uint32>, virt: uint32, phys: uint32, physEnd: uint32, flags: nat, k: nat)
    requires |pages| == PAGES && flags < PAGE_SIZE
    requires MapTo(pages, virt, phys, physEnd, flags).1 == 0
    requires k < physEnd - phys < 0x8000_0000
    ensures MapsByte(MapTo(pages, virt, phys, physEnd, flags).0, virt, phys, k, flags)
  {
    var pages', pf := MapTo(pages, virt, phys, physEnd, flags).0, phys / PAGE_SIZE;
    PageOfOffset(virt, k);
    assert k / PAGE_SIZE < (physEnd - phys) / PAGE_SIZE && pf + k / PAGE_SIZE < PAGES;
    assert pages'[Wrap(virt + k) / PAGE_SIZE] == EntryOf(pf + k / PAGE_SIZE, flags);
  }

  /** A successful `paging_map_to` of a span below 2 GiB maps every byte of the range and touches no page
      outside it. */
  lemma {:induction false} MapToMapsTheRange(pages: seq<uint32>, virt: uint32, phys: uint32, physEnd: uint32,
                                             flags: nat)
    requires |pages| == PAGES && flags < PAGE_SIZE
    requires MapTo(pages, virt, phys, physEnd, flags).1 == 0
    requires physEnd - phys < 0x8000_0000
    ensures MapsRange(MapTo(pages, virt, phys, physEnd, flags).0, virt, phys, physEnd, flags)
    ensures forall p: Frame :: PageIndex(p, virt / PAGE_SIZE) * PAGE_SIZE >= physEnd - phys ==>
              MapTo(pages, virt, phys, physEnd, flags).0[p] == pages[p]
  {
    forall k | 0 <= k < physEnd - phys
      ensures MapsByte(MapTo(pages, virt, phys, physEnd, flags).0, virt, phys, k, flags)
    {
      MapToMapsByte(pages, virt, phys, physEnd, flags, k);
    }
  }

  /** From 2 GiB on the call still reports success but maps nothing; below, it maps what it was asked to
      map whatever was mapped before. */
  lemma MapToMapsExactlyWhen(virt: uint32, phys: uint32, physEnd: uint32, flags: nat)
    requires virt % PAGE_SIZE == 0 && phys % PAGE_SIZE == 0 && physEnd % PAGE_SIZE == 0 && phys <= physEnd
    requires flags < PAGE_SIZE
    ensures (forall pages: seq<uint32> :: |pages| == PAGES ==>
               MapsRange(MapTo(pages, virt, phys, physEnd, flags).0, virt, phys, physEnd, flags))
            <==> physEnd - phys < 0x8000_0000
  {
    if physEnd - phys < 0x8000_0000 {
      forall pages: seq<uint32> | |pages| == PAGES
        ensures MapsRange(MapTo(pages, virt, phys, physEnd, flags).0, virt, phys, physEnd, flags)
      {
        MapToMapsTheRange(pages, virt, phys, physEnd, flags);
      }
    } else {
      var pages: seq<uint32> := seq(PAGES, _ => 0);
      assert MapTo(pages, virt, phys, physEnd, flags).0 == pages;
      PageOfOffset(virt, 0);
      PageOfOffset(virt, PAGE_SIZE);
      assert !MapsByte(pages, virt, phys, 0, flags) || !MapsByte(pages, virt, phys, PAGE_SIZE, flags);
      assert !MapsRange(MapTo(pages, virt, phys, physEnd, flags).0, virt, phys, physEnd, flags);
    }
  }

  // ---------- The code ----------

  /** `paging_get_indices`: a status and, when it is 0, the two indices; otherwise they stay 0. */
  function Indices(virt: uint32): (r: (int, nat, nat))
    ensures r.0 == 0 <==> virt % PAGE_SIZE == 0
    ensures r.0 == 0 ==> r.1 == virt / PAGE_SIZE / ENTRIES && r.2 == virt / PAGE_SIZE % ENTRIES
    ensures r.0 != 0 ==> r == (-EINVARG, 0, 0)
  {
    if virt % PAGE_SIZE != 0 then (-EINVARG, 0, 0)
    else (0, virt / TABLE_SPAN, virt % TABLE_SPAN / PAGE_SIZE)
  }

  /** Dereferencing a table pointer recovered from a directory entry by masking. */
  lemma MaskedPointer(entry: uint32, k: nat)
    requires k < ENTRIES
    ensures And(entry, 0xFFFF_F000) + 4 * k < 0x1_0000_0000
    ensures (And(entry, 0xFFFF_F000) + 4 * k) / 4 == ENTRIES * (entry / PAGE_SIZE) + k
  {
    MaskIsFrame(entry);
    assert FrameOf(entry) == 4 * (ENTRIES * (entry / PAGE_SIZE));
  }

  lemma DirectoryWord(dir: uint32, k: nat)
    requires dir % PAGE_SIZE == 0 && k < ENTRIES
    ensures (dir + 4 * k) / 4 == ENTRIES * (dir / PAGE_SIZE) + k < WORDS
  {
    assert dir == 4 * (ENTRIES * (dir / PAGE_SIZE));
  }

  /** `paging_get`; an unaligned address reads the entry of page 0. */
  method Get(mem: array<uint32>, dir: uint32, virt: uint32) returns (entry: uint32)
    requires mem.Length == WORDS && dir % PAGE_SIZE == 0
    ensures entry == Entry(mem[..], dir / PAGE_SIZE, if virt % PAGE_SIZE == 0 then virt / PAGE_SIZE else 0)
  {
    hide And;
    var (_, dirIdx, tabIdx) := Indices(virt);
    DirectoryWord(dir, dirIdx);
    var dirEntry := mem[(dir + 4 * dirIdx) / 4];
    MaskedPointer(dirEntry, tabIdx);
    var table := And(dirEntry, 0xFFFF_F000);
    entry := mem[(table + 4 * tabIdx) / 4];
  }

  /** `paging_set`. */
  method Set(mem: array<uint32>, dir: uint32, virt: uint32, val: uint32) returns (status: int)
    requires mem.Length == WORDS && dir % PAGE_SIZE == 0
    modifies mem
    ensures status == if virt % PAGE_SIZE == 0 then 0 else -EINVARG
    ensures mem[..] == if status == 0 then old(mem[..])[EntryIdx(old(mem[..]), dir / PAGE_SIZE, virt / PAGE_SIZE) := val]
                                      else old(mem[..])
  {
    if virt % PAGE_SIZE != 0 {
      return -EINVARG;
    }
    hide And;
    var (_, dirIdx, tabIdx) := Indices(virt);
    DirectoryWord(dir, dirIdx);
    var dirEntry := mem[(dir + 4 * dirIdx) / 4];
    MaskedPointer(dirEntry, tabIdx);
    var table := And(dirEntry, 0xFFFF_F000);
    mem[(table + 4 * tabIdx) / 4] := val;
    status := 0;
  }

  /** `paging_map`. */
  method Map(mem: array<uint32>, dir: uint32, virt: uint32, phys: uint32, flags: nat) returns (status: int)
    requires mem.Length == WORDS && dir % PAGE_SIZE == 0 && flags < PAGE_SIZE
    modifies mem
    ensures status == if virt % PAGE_SIZE == 0 && phys % PAGE_SIZE == 0 then 0 else -EINVARG
    ensures mem[..] == if status == 0
                         then old(mem[..])[EntryIdx(old(mem[..]), dir / PAGE_SIZE, virt / PAGE_SIZE)
                                           := EntryOf(phys / PAGE_SIZE, flags)]
                         else old(mem[..])
  {
    if virt % PAGE_SIZE != 0 || phys % PAGE_SIZE != 0 {
      return -EINVARG;
    }
    OrIsFlags(phys, flags);
    status := Set(mem, dir, virt, Or(phys, flags));
  }

  /** `paging_map_range`. */
  method MapRange(mem: array<uint32>, dir: uint32, virt: uint32, phys: uint32, pageCount: int, flags: nat)
    returns (status: int)
    requires mem.Length == WORDS && dir % PAGE_SIZE == 0 && DirOk(mem[..], dir / PAGE_SIZE)
    requires flags < PAGE_SIZE && pageCount <= PAGES
    modifies mem
    ensures status == if pageCount > 0 && (virt % PAGE_SIZE != 0 || phys % PAGE_SIZE != 0) then -EINVARG else 0
    ensures status != 0 || pageCount <= 0 ==> mem[..] == old(mem[..])
    ensures status == 0 && pageCount > 0 ==>
      OnlyPages(old(mem[..]), mem[..], dir / PAGE_SIZE,
                MapPages(Pages(old(mem[..]), dir / PAGE_SIZE), virt / PAGE_SIZE, phys / PAGE_SIZE, pageCount, flags))
  {
    ghost var d, vp, pf := dir / PAGE_SIZE, virt / PAGE_SIZE, phys / PAGE_SIZE;
    ghost var m0: Words := mem[..];
    status := 0;
    var v: uint32, p: uint32, i := virt, phys, 0;
    assert MapPages(Pages(m0, d), vp, pf, 0, flags) == Pages(m0, d);
    while i < pageCount
      invariant 0 <= i && (i == 0 || i <= pageCount)
      invariant status == 0
      invariant i == 0 ==> v == virt && p == phys && mem[..] == m0
      invariant i > 0 ==> virt % PAGE_SIZE == 0 && phys % PAGE_SIZE == 0
      invariant virt % PAGE_SIZE == 0 && phys % PAGE_SIZE == 0 && i < pageCount ==>
        v == PlusPages(vp, i) * PAGE_SIZE && p == PlusPages(pf, i) * PAGE_SIZE
      invariant OnlyPages(m0, mem[..], d, MapPages(Pages(m0, d), vp, pf, i, flags))
    {
      ghost var m: Words := mem[..];
      status := Map(mem, dir, v, p, flags);
      if status < 0 {
        break;
      }
      AdvancePage(vp, i);
      AdvancePage(pf, i);
      SetEntryChangesOnePage(m0, m, d, MapPages(Pages(m0, d), vp, pf, i, flags), PlusPages(vp, i),
                             EntryOf(PlusPages(pf, i), flags));
      MapOneMorePage(Pages(m0, d), vp, pf, i, flags);
      v := Wrap(v + PAGE_SIZE);
      p := Wrap(p + PAGE_SIZE);
      i := i + 1;
    }
  }

  /** Moving an address on by one page, in 32-bit arithmetic. */
  lemma AdvancePage(base: Frame, i: nat)
    requires i < PAGES
    ensures PlusPages(base, i) * PAGE_SIZE / PAGE_SIZE == PlusPages(base, i)
    ensures i + 1 < PAGES ==> Wrap(PlusPages(base, i) * PAGE_SIZE + PAGE_SIZE) == PlusPages(base, i + 1) * PAGE_SIZE
  {
  }

  /** `paging_map_to`. */
  method MapToRange(mem: array<uint32>, dir: uint32, virt: uint32, phys: uint32, physEnd: uint32, flags: nat)
    returns (status: int)
    requires mem.Length == WORDS && dir % PAGE_SIZE == 0 && DirOk(mem[..], dir / PAGE_SIZE) && flags < PAGE_SIZE
    modifies mem
    ensures status == if virt % PAGE_SIZE != 0 || phys % PAGE_SIZE != 0 || physEnd % PAGE_SIZE != 0 || physEnd < phys
                        then -EINVARG else 0
    ensures status == MapTo(Pages(old(mem[..]), dir / PAGE_SIZE), virt, phys, physEnd, flags).1
    ensures OnlyPages(old(mem[..]), mem[..], dir / PAGE_SIZE,
                      MapTo(Pages(old(mem[..]), dir / PAGE_SIZE), virt, phys, physEnd, flags).0)
  {
    if virt % PAGE_SIZE != 0 || phys % PAGE_SIZE != 0 {
      return -EINVARG;
    }
    if physEnd % PAGE_SIZE != 0 || physEnd < phys {
      return -EINVARG;
    }
    var pages := PageCount(phys, physEnd);
    status := MapRange(mem, dir, virt, phys, pages, flags);
  }

  /** `paging_get_phys_addr`. */
  method GetPhysAddr(mem: array<uint32>, dir: uint32, virt: uint32) returns (phys: uint32)
    requires mem.Length == WORDS && dir % PAGE_SIZE == 0
    ensures phys == Translate(Pages(mem[..], dir / PAGE_SIZE), virt)
  {
    var virtAligned := AlignDown(virt);
    var offset := virt - virtAligned;
    assert virtAligned / PAGE_SIZE == virt / PAGE_SIZE && offset == virt % PAGE_SIZE;
    var entry := Get(mem, dir, virtAligned);
    MaskIsFrame(entry);
    assert FrameOf(entry) == entry / PAGE_SIZE * PAGE_SIZE;
    hide And, AlignDown, FrameOf;
    phys := And(entry, 0xFFFF_F000) + offset;
  }
}
