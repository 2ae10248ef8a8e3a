/** Borrowing one entry of a task's directory to copy a string out of its address space. */
module TaskCopy {
  import opened Machine
  import opened Memory
  import opened Paging
  import opened MemoryBytes

  /** The directory while the copy runs: the buffer's page shows the buffer. */
  ghost function Borrowed(pages: seq<uint32>, buffer: Frame): (r: seq<uint32>)
    requires |pages| == PAGES
    ensures |r| == PAGES
  {
    pages[buffer := EntryOf(buffer, USER_RW)]
  }

  /** While the copy runs, an address shows what the task sees there exactly when it is not in the page borrowed
      for the buffer, or the task had the buffer's own frame in that page. */
  lemma {:induction false} TaskViewExactlyWhen(pages: seq<uint32>, buffer: Frame, virt: uint32)
    requires |pages| == PAGES
    ensures Translate(Borrowed(pages, buffer), virt) == Translate(pages, virt)
       <==> virt / PAGE_SIZE != buffer || pages[buffer] / PAGE_SIZE == buffer
  {
    if virt / PAGE_SIZE == buffer {
      assert Borrowed(pages, buffer)[buffer] / PAGE_SIZE == buffer;
      SameFrameSameAddress(buffer, pages[buffer] / PAGE_SIZE, virt % PAGE_SIZE);
    }
  }

  lemma SameFrameSameAddress(f: nat, g: nat, k: nat)
    ensures f * PAGE_SIZE + k == g * PAGE_SIZE + k <==> f == g
  {
  }

  /** Writing a frame that is no table of the directory. */
  lemma BufferWriteKeepsPages(m: Words, m': Words, d: Frame, buffer: Frame)
    requires DirOk(m, d) && buffer != d && !IsTable(m, d, buffer)
    requires forall f: Frame :: f != buffer ==> SameFrame(m, m', f)
    ensures DirOk(m', d) && SameTables(m, m', d) && Pages(m', d) == Pages(m, d)
  {
    OtherFramesKeepPages(m, m', d);
  }

  /** Borrowing the entry, using the buffer and giving the entry back leaves every other frame as it was. */
  lemma BorrowAndReturn(m0: Words, m1: Words, m2: Words, d: Frame, buffer: Frame)
    requires DirOk(m0, d) && buffer != d && !IsTable(m0, d, buffer)
    requires OnlyPages(m0, m1, d, Borrowed(Pages(m0, d), buffer))
    requires m1 == m0[EntryIdx(m0, d, buffer) := EntryOf(buffer, USER_RW)]
    requires forall f: Frame :: f != buffer ==> SameFrame(m1, m2, f)
    ensures var m3: Words := m2[EntryIdx(m2, d, buffer) := Entry(m0, d, buffer)];
      && DirOk(m3, d) && Pages(m3, d) == Pages(m0, d)
      && (forall f: Frame :: f != buffer ==> SameFrame(m0, m3, f))
      && SameFrame(m2, m3, buffer)
  {
    assert !IsTable(m1, d, buffer);
    BufferWriteKeepsPages(m1, m2, d, buffer);
    var e := EntryIdx(m0, d, buffer);
    assert EntryIdx(m2, d, buffer) == e;
    var m3: Words := m2[e := m0[e]];
    var table := TableOf(m0, d, buffer / ENTRIES);
    assert table != buffer && ENTRIES * table <= e < ENTRIES * table + ENTRIES;
    forall f: Frame | f != buffer
      ensures SameFrame(m0, m3, f)
    {
      assert SameFrame(m1, m2, f);
    }
    BufferWriteKeepsPages(m0, m3, d, buffer);
  }

  /** A buffer page of its own, mapped to itself and writable, n bytes of which are wanted. */
  ghost predicate CopyOk(m: Words, d: Frame, tmp: uint32, n: nat) {
    && DirOk(m, d) && tmp % PAGE_SIZE == 0 && 0 < n < PAGE_SIZE && tmp / PAGE_SIZE != d
    && !IsTable(m, d, tmp / PAGE_SIZE) && Pages(m, d)[tmp / PAGE_SIZE] / PAGE_SIZE == tmp / PAGE_SIZE
    && MayWrite(m, d, tmp / PAGE_SIZE)
  }

  /** t is in the buffer, and is as much of the string as there is of it. */
  ghost predicate Copying(m0: Words, m: Words, d: Frame, tmp: uint32, virt: uint32, n: nat, t: seq<uint8>) {
    && |t| < n && tmp + n <= 4 * WORDS && Bytes(m, tmp, |t|) == t && 0 !in t
    && (forall f: Frame :: f != tmp / PAGE_SIZE ==> SameFrame(m0, m, f))
    && CopiedSoFar(m0, Pages(m0, d), virt, n - 1, tmp / PAGE_SIZE, t)
  }

  /** Unless the string leads through the buffer, t is the string. */
  ghost predicate IsShown(m: Words, d: Frame, buffer: Frame, virt: uint32, n: nat, t: seq<uint8>) {
    var shown := StringShown(m, Pages(m, d), virt, n);
    NotShown(Pages(m, d), virt, ReadLength(shown, n), buffer) ==> t == shown
  }

  /** The first copy: `strncpy` into the buffer while the task's directory is loaded. What it leaves there is some
      string, and the one the task sees unless that leads through the buffer itself. */
  method CopyIn(mem: array<uint32>, dir: uint32, tmp: uint32, virt: uint32, n: nat) returns (ghost t: seq<uint8>)
    requires mem.Length == WORDS && dir % PAGE_SIZE == 0 && CopyOk(mem[..], dir / PAGE_SIZE, tmp, n)
    modifies mem
    ensures forall f: Frame :: f != tmp / PAGE_SIZE ==> SameFrame(old(mem[..]), mem[..], f)
    ensures |t| < n && tmp + n <= 4 * WORDS && HoldsString(mem[..], tmp, t)
    ensures IsShown(old(mem[..]), dir / PAGE_SIZE, tmp / PAGE_SIZE, virt, n - 1, t)
  {
    ghost var d: Frame, m0: Words := dir / PAGE_SIZE, mem[..];
    CopyingStarts(m0, d, tmp, virt, n);
    hide Copying, CopyOk, IsShown, SameFrame, Bytes, Pages;
    t := [];
    var i := 0;
    while i < n - 1
      invariant 0 <= i == |t| <= n - 1 && Copying(m0, mem[..], d, tmp, virt, n, t)
    {
      var c;
      c, t := CopyByte(mem, dir, tmp, virt, i, n, m0, t);
      if c == 0 {
        break;
      }
      i := i + 1;
    }
    if i == n - 1 {
      AllCopied(m0, mem[..], d, tmp, virt, n, t);
    }
    CopyEnd(mem, dir, tmp, virt, i, n, m0, t);
  }

  lemma CopyingStarts(m: Words, d: Frame, tmp: uint32, virt: uint32, n: nat)
    requires CopyOk(m, d, tmp, n)
    ensures Copying(m, m, d, tmp, virt, n, [])
  {
    assert tmp == tmp / PAGE_SIZE * PAGE_SIZE;
  }

  lemma AllCopied(m0: Words, m: Words, d: Frame, tmp: uint32, virt: uint32, n: nat, t: seq<uint8>)
    requires Copying(m0, m, d, tmp, virt, n, t) && |t| == n - 1
    ensures IsShown(m0, d, tmp / PAGE_SIZE, virt, n - 1, t)
  {
  }

  /** One round of the loop: the next byte is read and, unless it is the NUL, stored. */
  method CopyByte(mem: array<uint32>, dir: uint32, tmp: uint32, virt: uint32, i: nat, ghost n: nat, ghost m0: Words,
                  ghost t: seq<uint8>)
    returns (c: uint8, ghost t': seq<uint8>)
    requires mem.Length == WORDS && dir % PAGE_SIZE == 0 && CopyOk(m0, dir / PAGE_SIZE, tmp, n)
    requires i == |t| < n - 1 && Copying(m0, mem[..], dir / PAGE_SIZE, tmp, virt, n, t)
    modifies mem
    ensures t' == if c == 0 then t else t + [c]
    ensures Copying(m0, mem[..], dir / PAGE_SIZE, tmp, virt, n, t')
    ensures c == 0 ==> IsShown(m0, dir / PAGE_SIZE, tmp / PAGE_SIZE, virt, n - 1, t)
  {
    hide Pages, DirOk, IsTable, ByteAt, SameFrame, CopiedSoFar, ByteShown, IsShown;
    ghost var d: Frame, buffer: Frame, m: Words := dir / PAGE_SIZE, tmp / PAGE_SIZE, mem[..];
    BufferWriteKeepsPages(m0, m, d, buffer);
    var from := GetPhysAddr(mem, dir, Wrap(virt + i));
    c := LoadByte(mem, from);
    ThenCopied(m0, m, d, tmp, virt, n - 1, t, c);
    t' := t;
    if c != 0 {
      t' := t + [c];
      PutShown(mem, dir, tmp, i, c, Pages(m0, d));
      OthersTwice(m0, m, mem[..], buffer);
    }
  }

  /** The NUL behind the string. */
  method CopyEnd(mem: array<uint32>, dir: uint32, tmp: uint32, virt: uint32, i: nat, ghost n: nat, ghost m0: Words,
                 ghost t: seq<uint8>)
    requires mem.Length == WORDS && dir % PAGE_SIZE == 0 && CopyOk(m0, dir / PAGE_SIZE, tmp, n)
    requires i == |t| && Copying(m0, mem[..], dir / PAGE_SIZE, tmp, virt, n, t)
    modifies mem
    ensures forall f: Frame :: f != tmp / PAGE_SIZE ==> SameFrame(m0, mem[..], f)
    ensures |t| < n && tmp + n <= 4 * WORDS && HoldsString(mem[..], tmp, t)
  {
    hide Pages, DirOk, IsTable, ByteAt, SameFrame, CopiedSoFar;
    ghost var m: Words := mem[..];
    BufferWriteKeepsPages(m0, m, dir / PAGE_SIZE, tmp / PAGE_SIZE);
    PutShown(mem, dir, tmp, i, 0, Pages(m0, dir / PAGE_SIZE));
    OthersTwice(m0, m, mem[..], tmp / PAGE_SIZE);
  }

  /** Unless the string leads through the buffer, t is the part of it copied so far. */
  ghost predicate CopiedSoFar(m: Words, pages: seq<uint32>, virt: uint32, n: nat, buffer: Frame, t: seq<uint8>)
    requires |pages| == PAGES
  {
    var shown := StringShown(m, pages, virt, n);
    NotShown(pages, virt, ReadLength(shown, n), buffer) ==> |t| <= |shown| && t == shown[..|t|]
  }

  /** The next byte is the next of the string, or the NUL behind it. */
  lemma ThenCopied(m0: Words, m: Words, d: Frame, tmp: uint32, virt: uint32, n: nat, t: seq<uint8>, c: uint8)
    requires |t| < n && CopiedSoFar(m0, Pages(m0, d), virt, n, tmp / PAGE_SIZE, t)
    requires c == ByteAt(m, Translate(Pages(m0, d), Wrap(virt + |t|)))
    requires forall f: Frame :: f != tmp / PAGE_SIZE ==> SameFrame(m0, m, f)
    ensures c != 0 ==> CopiedSoFar(m0, Pages(m0, d), virt, n, tmp / PAGE_SIZE, t + [c])
    ensures c == 0 ==> IsShown(m0, d, tmp / PAGE_SIZE, virt, n, t)
  {
    var pages := Pages(m0, d);
    var shown := StringShown(m0, pages, virt, n);
    StringShownIs(m0, pages, virt, n);
    hide StringShown, ByteAt, Translate, SameFrame, Pages;
    assert c == ByteShown(m, pages, virt, |t|);
    if NotShown(pages, virt, ReadLength(shown, n), tmp / PAGE_SIZE) {
      assert FrameShown(pages, virt, |t|) != tmp / PAGE_SIZE;
      SameByteShown(m0, m, pages, virt, |t|);
      hide ByteShown;
      assert |t| < |shown| ==> shown[..|t| + 1] == t + [c];
    }
  }

  lemma OthersTwice(m0: Words, m1: Words, m2: Words, buffer: Frame)
    requires forall f: Frame :: f != buffer ==> SameFrame(m0, m1, f) && SameFrame(m1, m2, f)
    ensures forall f: Frame :: f != buffer ==> SameFrame(m0, m2, f)
  {
    forall f: Frame | f != buffer
      ensures SameFrame(m0, m2, f)
    {
      assert SameFrame(m0, m1, f) && SameFrame(m1, m2, f);
    }
  }

  /** None of the frames shown for the n bytes from virt on is f. */
  ghost predicate NotShown(pages: seq<uint32>, virt: uint32, n: nat, f: Frame)
    requires |pages| == PAGES
  {
    forall i :: 0 <= i < n ==> FrameShown(pages, virt, i) != f
  }

  /** A byte stored through the borrowed page. */
  method PutShown(mem: array<uint32>, dir: uint32, tmp: uint32, i: nat, c: uint8, ghost pages: seq<uint32>)
    requires mem.Length == WORDS && dir % PAGE_SIZE == 0 && tmp % PAGE_SIZE == 0 && i < PAGE_SIZE
    requires pages == Pages(mem[..], dir / PAGE_SIZE) && pages[tmp / PAGE_SIZE] / PAGE_SIZE == tmp / PAGE_SIZE
    modifies mem
    ensures tmp + PAGE_SIZE <= 4 * WORDS && Bytes(mem[..], tmp, i + 1) == Bytes(old(mem[..]), tmp, i) + [c]
    ensures forall f: Frame :: f != tmp / PAGE_SIZE ==> SameFrame(old(mem[..]), mem[..], f)
  {
    InPage(tmp / PAGE_SIZE, i);
    var at := GetPhysAddr(mem, dir, tmp + i);
    hide Pages, SameFrame, ByteAt;
    StoreByte(mem, at, c);
  }

  /** The task sees the byte neither in the page borrowed for the buffer, nor in the buffer, nor in the page table that
      is changed for it. */
  ghost predicate UndisturbedByte(m: Words, d: Frame, buffer: Frame, virt: uint32, i: nat) {
    && Wrap(virt + i) / PAGE_SIZE != buffer
    && FrameShown(Pages(m, d), virt, i) != buffer
    && FrameShown(Pages(m, d), virt, i) != TableOf(m, d, buffer / ENTRIES)
  }

  ghost predicate Undisturbed(m: Words, d: Frame, buffer: Frame, virt: uint32, n: nat) {
    forall i :: 0 <= i < n ==> UndisturbedByte(m, d, buffer, virt, i)
  }

  /** Then the borrowed directory shows the same string. */
  lemma BorrowedShowsTheSame(m0: Words, m1: Words, d: Frame, buffer: Frame, virt: uint32, n: nat)
    requires DirOk(m0, d) && OnlyPages(m0, m1, d, Borrowed(Pages(m0, d), buffer))
    requires m1 == m0[EntryIdx(m0, d, buffer) := EntryOf(buffer, USER_RW)]
    requires Undisturbed(m0, d, buffer, virt, ReadLength(StringShown(m0, Pages(m0, d), virt, n), n))
    ensures StringShown(m1, Pages(m1, d), virt, n) == StringShown(m0, Pages(m0, d), virt, n)
    ensures NotShown(Pages(m1, d), virt, ReadLength(StringShown(m0, Pages(m0, d), virt, n), n), buffer)
  {
    var pages, l := Pages(m0, d), ReadLength(StringShown(m0, Pages(m0, d), virt, n), n);
    var table := TableOf(m0, d, buffer / ENTRIES);
    forall f: Frame | f != table
      ensures SameFrame(m0, m1, f)
    {
    }
    hide Pages, StringShown, DirOk, OnlyPages, EntryOf, SameFrame, ByteAt, Translate;
    forall i | 0 <= i < l
      ensures ByteShown(m1, Pages(m1, d), virt, i) == ByteShown(m0, pages, virt, i)
      ensures FrameShown(Pages(m1, d), virt, i) != buffer
    {
      assert UndisturbedByte(m0, d, buffer, virt, i);
      SameByteShown(m0, m1, pages, virt, i);
      assert Pages(m1, d)[Wrap(virt + i) / PAGE_SIZE] == pages[Wrap(virt + i) / PAGE_SIZE];
      BorrowedByte(m1, pages, buffer, virt, i);
    }
    SameStringShown(m0, m1, pages, Pages(m1, d), virt, n);
  }

  lemma BorrowedByte(m: Words, pages: seq<uint32>, buffer: Frame, virt: uint32, i: nat)
    requires |pages| == PAGES && Wrap(virt + i) / PAGE_SIZE != buffer
    ensures ByteShown(m, Borrowed(pages, buffer), virt, i) == ByteShown(m, pages, virt, i)
  {
  }

  /** What `copy_str_from_task` relies on, given the buffer `kzalloc` returned: it is no part of the directory, and neither
      is the place the string goes to, which lies below it; and the directory's entry for it allows everything. */
  ghost predicate CopyPlaces(m: Words, d: Frame, tmp: uint32, phys: uint32, max: nat) {
    && tmp % PAGE_SIZE == 0 && tmp / PAGE_SIZE != d && !IsTable(m, d, tmp / PAGE_SIZE)
    && 0 < max && phys + max <= tmp && TableFlags(m, d, tmp / PAGE_SIZE / ENTRIES) == USER_RW
    && forall f: Frame :: InFrames(phys, max, f) ==> f != d && !IsTable(m, d, f) && f != tmp / PAGE_SIZE
  }

  /** The part of `copy_str_from_task` between saving the entry and restoring it. */
  method Fetch(mem: array<uint32>, dir: uint32, tmp: uint32, virt: uint32, max: nat)
    returns (ghost during: Words, ghost t: seq<uint8>)
    requires mem.Length == WORDS && dir % PAGE_SIZE == 0 && DirOk(mem[..], dir / PAGE_SIZE)
    requires tmp % PAGE_SIZE == 0 && tmp / PAGE_SIZE != dir / PAGE_SIZE && 0 < max < PAGE_SIZE
    requires !IsTable(mem[..], dir / PAGE_SIZE, tmp / PAGE_SIZE)
    requires TableFlags(mem[..], dir / PAGE_SIZE, tmp / PAGE_SIZE / ENTRIES) == USER_RW
    modifies mem
    ensures MayWrite(during, dir / PAGE_SIZE, tmp / PAGE_SIZE)
    ensures Pages(during, dir / PAGE_SIZE) == Borrowed(Pages(old(mem[..]), dir / PAGE_SIZE), tmp / PAGE_SIZE)
    ensures DirOk(mem[..], dir / PAGE_SIZE) && Pages(mem[..], dir / PAGE_SIZE) == Pages(old(mem[..]), dir / PAGE_SIZE)
    ensures forall f: Frame :: f != tmp / PAGE_SIZE ==> SameFrame(old(mem[..]), mem[..], f)
    ensures |t| < max && tmp + max <= 4 * WORDS && HoldsString(mem[..], tmp, t)
    ensures IsSeen(old(mem[..]), dir / PAGE_SIZE, tmp / PAGE_SIZE, virt, max - 1, t)
  {
    hide OnlyPages, IsTable, DirOk, Pages, SameFrame, EntryIdx, Entry, EntryOf, StringShown, Undisturbed, HoldsString,
         MayWrite;
    ghost var d: Frame, buffer: Frame, m0: Words := dir / PAGE_SIZE, tmp / PAGE_SIZE, mem[..];
    var oldEntry := Get(mem, dir, tmp);
    Borrowing(m0, d, buffer);
    var status := Map(mem, dir, tmp, tmp, USER_RW);
    ghost var m1: Words := mem[..];
    during := m1;
    t := CopyIn(mem, dir, tmp, virt, max);
    ghost var m2: Words := mem[..];
    status := Set(mem, dir, tmp, oldEntry);
    BorrowAndReturn(m0, m1, m2, d, buffer);
    SameString(m2, mem[..], tmp, t);
    BorrowedIsSeen(m0, m1, d, buffer, virt, max - 1, t);
  }

  /** Unless it is disturbed, t is the string the task sees. */
  ghost predicate IsSeen(m: Words, d: Frame, buffer: Frame, virt: uint32, n: nat, t: seq<uint8>) {
    var shown := StringShown(m, Pages(m, d), virt, n);
    Undisturbed(m, d, buffer, virt, ReadLength(shown, n)) ==> t == shown
  }

  lemma BorrowedIsSeen(m0: Words, m1: Words, d: Frame, buffer: Frame, virt: uint32, n: nat, t: seq<uint8>)
    requires DirOk(m0, d) && OnlyPages(m0, m1, d, Borrowed(Pages(m0, d), buffer))
    requires m1 == m0[EntryIdx(m0, d, buffer) := EntryOf(buffer, USER_RW)]
    requires IsShown(m1, d, buffer, virt, n, t)
    ensures IsSeen(m0, d, buffer, virt, n, t)
  {
    hide Undisturbed, StringShown, NotShown, OnlyPages, DirOk, Pages, EntryOf, EntryIdx;
    if Undisturbed(m0, d, buffer, virt, ReadLength(StringShown(m0, Pages(m0, d), virt, n), n)) {
      BorrowedShowsTheSame(m0, m1, d, buffer, virt, n);
    }
  }

  /** `copy_str_from_task`, given the buffer `kzalloc` returned (0 for none). The string the task sees, cut to max - 1
      characters, arrives; the directory is as before; and nothing but the buffer and the string's place changes. */
  method CopyStrFromTask(mem: array<uint32>, dir: uint32, tmp: uint32, virt: uint32, phys: uint32, max: int)
    returns (status: int, ghost during: Words, ghost t: seq<uint8>)
    requires mem.Length == WORDS && dir % PAGE_SIZE == 0 && DirOk(mem[..], dir / PAGE_SIZE)
    requires max < PAGE_SIZE && tmp != 0 ==> 0 < max && CopyPlaces(mem[..], dir / PAGE_SIZE, tmp, phys, max)
    modifies mem
    ensures status == if max >= PAGE_SIZE then -EINVARG else if tmp == 0 then -ENOMEM else 0
    ensures status != 0 ==> mem[..] == old(mem[..])
    ensures status == 0 ==>
      && Pages(during, dir / PAGE_SIZE) == Borrowed(Pages(old(mem[..]), dir / PAGE_SIZE), tmp / PAGE_SIZE)
      && MayWrite(during, dir / PAGE_SIZE, tmp / PAGE_SIZE)
      && DirOk(mem[..], dir / PAGE_SIZE) && Pages(mem[..], dir / PAGE_SIZE) == Pages(old(mem[..]), dir / PAGE_SIZE)
      && (forall f: Frame :: f != tmp / PAGE_SIZE && !InFrames(phys, max, f) ==> SameFrame(old(mem[..]), mem[..], f))
      && |t| < max && HoldsString(mem[..], phys, t)
      && IsSeen(old(mem[..]), dir / PAGE_SIZE, tmp / PAGE_SIZE, virt, max - 1, t)
  {
    hide IsTable, DirOk, Pages, SameFrame, InFrames, IsSeen, HoldsString, MayWrite;
    ghost var m0: Words := mem[..];
    during, t := m0, [];
    if max >= PAGE_SIZE {
      return -EINVARG, during, t;
    }
    if tmp == 0 {
      return -ENOMEM, during, t;
    }
    during, t := Fetch(mem, dir, tmp, virt, max);
    ghost var m3: Words := mem[..];
    CopyString(mem, phys, tmp, max, t);
    CopyingOut(m0, m3, mem[..], dir / PAGE_SIZE, tmp, phys, max);
    status := 0;
  }

  /** The directory with the buffer's page borrowed. */
  lemma Borrowing(m0: Words, d: Frame, buffer: Frame)
    requires DirOk(m0, d) && !IsTable(m0, d, buffer) && TableFlags(m0, d, buffer / ENTRIES) == USER_RW
    ensures var m1: Words := m0[EntryIdx(m0, d, buffer) := EntryOf(buffer, USER_RW)];
      && OnlyPages(m0, m1, d, Borrowed(Pages(m0, d), buffer)) && DirOk(m1, d) && !IsTable(m1, d, buffer)
      && Pages(m1, d) == Borrowed(Pages(m0, d), buffer) && Pages(m1, d)[buffer] / PAGE_SIZE == buffer
      && MayWrite(m1, d, buffer)
  {
    assert OnlyPages(m0, m0, d, Pages(m0, d));
    SetEntryChangesOnePage(m0, m0, d, Pages(m0, d), buffer, EntryOf(buffer, USER_RW));
    EntryParts(buffer, USER_RW);
    WriteableFlag(m0[ENTRIES * d + buffer / ENTRIES], USER_RW);
    WriteableFlag(EntryOf(buffer, USER_RW), USER_RW);
    hide Writeable;
    assert TableOf(m0, d, buffer / ENTRIES) != d;
  }

  /** A string inside one frame depends on that frame. */
  lemma SameString(m: Words, m': Words, a: uint32, t: seq<uint8>)
    requires a % PAGE_SIZE == 0 && |t| < PAGE_SIZE && SameFrame(m, m', a / PAGE_SIZE)
    requires a + |t| < 4 * WORDS && HoldsString(m, a, t)
    ensures HoldsString(m', a, t)
  {
    hide ByteAt, SameFrame;
    var before, after := Bytes(m, a, |t| + 1), Bytes(m', a, |t| + 1);
    forall k | 0 <= k < |t| + 1
      ensures after[k] == before[k]
    {
      InPage(a / PAGE_SIZE, k);
      SameByte(m, m', a + k);
    }
  }

  /** The second copy leaves the directory alone. */
  lemma CopyingOut(m0: Words, m3: Words, m4: Words, d: Frame, tmp: uint32, phys: uint32, max: nat)
    requires CopyPlaces(m0, d, tmp, phys, max) && DirOk(m0, d) && DirOk(m3, d) && Pages(m3, d) == Pages(m0, d)
    requires forall f: Frame :: f != tmp / PAGE_SIZE ==> SameFrame(m0, m3, f)
    requires forall f: Frame :: !InFrames(phys, max, f) ==> SameFrame(m3, m4, f)
    ensures DirOk(m4, d) && Pages(m4, d) == Pages(m0, d)
    ensures forall f: Frame :: f != tmp / PAGE_SIZE && !InFrames(phys, max, f) ==> SameFrame(m0, m4, f)
  {
    hide InFrames;
    assert SameFrame(m0, m3, d);
    forall i | 0 <= i < ENTRIES
      ensures SameFrame(m3, m4, TableOf(m3, d, i))
    {
      assert TableOf(m3, d, i) == TableOf(m0, d, i);
      assert IsTable(m0, d, TableOf(m0, d, i));
    }
    OtherFramesKeepPages(m3, m4, d);
    forall f: Frame | f != tmp / PAGE_SIZE && !InFrames(phys, max, f)
      ensures SameFrame(m0, m4, f)
    {
      assert SameFrame(m0, m3, f) && SameFrame(m3, m4, f);
    }
  }
}
