/** Building a page directory out of heap blocks, and giving the blocks back. */
module PageDirectory {
  import opened Machine
  import opened Heap
  import opened HeapRuns
  import opened Memory
  import opened Paging

  /** Blocks a directory takes: one for its entries, one per table, one for the structure pointing at it. */
  const BLOCKS := 1026

  ghost function FreeCount(t: seq<bv8>): nat {
    if t == [] then 0 else FreeCount(t[..|t| - 1]) + if IsFree(t[|t| - 1]) then 1 else 0
  }

  lemma {:induction false} FreeCountUpdate(t: seq<bv8>, b: nat, e: bv8)
    requires b < |t| && IsFree(t[b]) && !IsFree(e)
    ensures FreeCount(t[b := e]) == FreeCount(t) - 1
  {
    var t' := t[b := e];
    if b < |t| - 1 {
      assert t'[..|t| - 1] == t[..|t| - 1][b := e];
      FreeCountUpdate(t[..|t| - 1], b, e);
    } else {
      assert t'[..|t| - 1] == t[..|t| - 1];
    }
  }

  lemma {:induction false} SomeBlockIsFree(t: seq<bv8>) returns (b: nat)
    requires FreeCount(t) > 0
    ensures b < |t| && IsFree(t[b])
  {
    if IsFree(t[|t| - 1]) {
      b := |t| - 1;
    } else {
      b := SomeBlockIsFree(t[..|t| - 1]);
    }
  }

  lemma OneBlock(size: uint32)
    requires 0 < size <= BLOCK_SIZE
    ensures BlocksFor(size) == 1
  {
  }

  lemma TakenOne(t: seq<bv8>, b: nat)
    requires b < |t|
    ensures Taken(t, b, 1) == t[b := TAKEN | IS_FIRST]
  {
    assert Tag(0, 1) == TAKEN | IS_FIRST;
  }

  /** While a block is free, a request of up to one block is answered, with a free block. */
  lemma OneBlockFits(t: seq<bv8>, size: uint32)
    requires FreeCount(t) > 0 && 0 < size <= BLOCK_SIZE
    ensures Serviceable(t, size) && BlocksFor(size) == 1
    ensures 0 <= FirstFit(t, 1, 0) < |t| && IsFree(t[FirstFit(t, 1, 0)])
    ensures Taken(t, FirstFit(t, 1, 0), 1) == t[FirstFit(t, 1, 0) := TAKEN | IS_FIRST]
  {
    var b := SomeBlockIsFree(t);
    assert FreeRun(t, b, 1);
    FirstFitIsLowest(t, 1, 0);
    OneBlock(size);
    assert FreeRun(t, FirstFit(t, 1, 0), 1);
    TakenOne(t, FirstFit(t, 1, 0));
  }

  /** Table t is t0 with the blocks bs, all different and all free before, made into runs of one block. */
  ghost predicate SinglesTaken(t0: seq<bv8>, t: seq<bv8>, bs: seq<nat>) {
    && |t| == |t0|
    && (forall i :: 0 <= i < |t| ==> t[i] == if i in bs then TAKEN | IS_FIRST else t0[i])
    && (forall j :: 0 <= j < |bs| ==> bs[j] < |t0| && IsFree(t0[bs[j]]))
    && (forall j, k :: 0 <= j < k < |bs| ==> bs[j] != bs[k])
    && WellFormed(t)
    && (forall s :: s in Runs(t0) ==> s in Runs(t) && Runs(t)[s] == Runs(t0)[s])
  }

  lemma NoSinglesTaken(t: seq<bv8>)
    requires WellFormed(t)
    ensures SinglesTaken(t, t, [])
  {
  }

  lemma SinglesDistinct(t0: seq<bv8>, t: seq<bv8>, bs: seq<nat>)
    requires SinglesTaken(t0, t, bs)
    ensures forall j, k :: 0 <= j < k < |bs| ==> bs[j] != bs[k]
  {
  }

  lemma OneMoreSingle(t0: seq<bv8>, t: seq<bv8>, bs: seq<nat>, b: nat)
    requires SinglesTaken(t0, t, bs) && b < |t| && IsFree(t[b])
    ensures SinglesTaken(t0, t[b := TAKEN | IS_FIRST], bs + [b]) && b !in bs && b < |t0|
  {
    hide RunLength;
    TakenOne(t, b);
    assert FreeRun(t, b, 1);
    TakenAddsRun(t, b, 1);
    assert b !in Runs(t) by { assert BlockOk(t, b); }
    var t' := t[b := TAKEN | IS_FIRST];
    forall i | 0 <= i < |t| ensures t'[i] == if i in bs + [b] then TAKEN | IS_FIRST else t0[i] {
    }
  }

  // ---------- Filling one table ----------

  /** The table in frame f maps pages 1024 * i, 1024 * i + 1, ... to themselves. */
  ghost predicate Filled(m: Words, f: Frame, i: nat, flags: nat)
    requires i < ENTRIES && flags < PAGE_SIZE
  {
    forall w :: ENTRIES * f <= w < ENTRIES * f + ENTRIES ==> m[w] == EntryOf(ENTRIES * i + (w - ENTRIES * f), flags)
  }

  /** Only words of these frames differ. */
  ghost predicate OnlyFrames(m0: Words, m: Words, fs: seq<Frame>) {
    forall f: Frame :: f !in fs ==> SameFrame(m0, m, f)
  }

  lemma OrOfEntry(x: nat, flags: nat)
    requires x < PAGES && flags < PAGE_SIZE
    ensures Or(x * PAGE_SIZE, flags) == EntryOf(x, flags)
  {
    OrIsFlags(x * PAGE_SIZE, flags);
  }

  /** The inner loop of `paging_new`. */
  method FillTable(mem: array<uint32>, f: Frame, offset: uint32, ghost i: nat, flags: uint8)
    requires mem.Length == WORDS && i < ENTRIES && offset == i * TABLE_SPAN
    modifies mem
    ensures Filled(mem[..], f, i, flags) && OnlyFrames(old(mem[..]), mem[..], [f])
  {
    for j := 0 to ENTRIES
      invariant forall w :: ENTRIES * f <= w < ENTRIES * f + j ==> mem[w] == EntryOf(ENTRIES * i + (w - ENTRIES * f), flags)
      invariant forall w :: 0 <= w < WORDS && !(ENTRIES * f <= w < ENTRIES * f + ENTRIES) ==> mem[w] == old(mem[w])
    {
      OrOfEntry(ENTRIES * i + j, flags);
      mem[ENTRIES * f + j] := Or(Wrap(offset + j * PAGE_SIZE), flags);
    }
  }

  // ---------- paging_new ----------

  lemma ClearedInFrame(m: Words, m': Words, f: Frame, size: uint32)
    requires size <= BLOCK_SIZE
    requires forall b: uint32 ::
               ByteAt(m', b) == if f * PAGE_SIZE <= b < f * PAGE_SIZE + size then 0 else ByteAt(m, b)
    ensures OnlyFrames(m, m', [f])
  {
    hide ByteAt;
    forall g: Frame | g !in [f]
      ensures SameFrame(m, m', g)
    {
      assert g != f;
      forall i | ENTRIES * g <= i < ENTRIES * g + ENTRIES
        ensures m[i] == m'[i]
      {
        ClearedElsewhere(m, m', f * PAGE_SIZE, size, i);
      }
    }
  }

  /** One zeroed block for page structures. */
  method NewBlock(heap: Heap, mem: array<uint32>, size: uint32, ghost t0: seq<bv8>, ghost bs: seq<nat>)
    returns (f: Frame, ghost b: nat)
    requires heap.Valid() && mem.Length == WORDS && heap.entries as object != mem
    requires SinglesTaken(t0, heap.Table(), bs) && FreeCount(heap.Table()) > 0 && 0 < size <= BLOCK_SIZE
    modifies heap.entries, mem
    ensures b !in bs && b < |t0| && f == heap.startAddr / PAGE_SIZE + b
    ensures SinglesTaken(t0, heap.Table(), bs + [b]) && FreeCount(heap.Table()) == old(FreeCount(heap.Table())) - 1
    ensures OnlyFrames(old(mem[..]), mem[..], [f]) && heap.Before() == old(heap.Before())
  {
    hide SinglesTaken, FreeCount, Taken, FirstFit, ByteAt;
    ghost var t, m: Words := heap.Table(), mem[..];
    OneBlockFits(t, size);
    b := FirstFit(t, 1, 0);
    OneMoreSingle(t0, t, bs, b);
    FreeCountUpdate(t, b, TAKEN | IS_FIRST);
    var addr := Kzalloc(heap, mem, size);
    PageAlignedWord(addr);
    f := addr / PAGE_SIZE;
    ClearedInFrame(m, mem[..], f, size);
  }

  // ---------- The directory so far ----------

  ghost predicate FitsBelow(base: nat, bs: seq<nat>) {
    forall j :: 0 <= j < |bs| ==> base + bs[j] < PAGES
  }

  /** Only the frames of these blocks differ. */
  ghost predicate OnlyBlocks(m0: Words, m: Words, base: nat, bs: seq<nat>) {
    forall f: Frame :: f < base || f - base !in bs ==> SameFrame(m0, m, f)
  }

  /** Entry j of the directory in block bs[0] points at the filled table in block bs[1 + j], with the requested flags
      and the one that lets the table's own entries decide what is writable. */
  ghost predicate Slot(m: Words, base: nat, bs: seq<nat>, j: nat, flags: nat)
    requires FitsBelow(base, bs) && 1 + j < |bs| && j < ENTRIES && flags < PAGE_SIZE
  {
    && TableOf(m, base + bs[0], j) == base + bs[1 + j] && TableFlags(m, base + bs[0], j) == Or(flags, IS_WRITEABLE)
    && Filled(m, base + bs[1 + j], j, flags)
  }

  ghost predicate Built(m: Words, base: nat, bs: seq<nat>, n: nat, flags: nat)
    requires flags < PAGE_SIZE
  {
    && FitsBelow(base, bs) && n <= ENTRIES && |bs| >= 1 + n
    && forall j :: 0 <= j < n ==> Slot(m, base, bs, j, flags)
  }

  lemma FilledElsewhere(m: Words, m': Words, f: Frame, i: nat, flags: nat)
    requires i < ENTRIES && flags < PAGE_SIZE && Filled(m, f, i, flags) && SameFrame(m, m', f)
    ensures Filled(m', f, i, flags)
  {
  }

  /** Changes inside a block of its own keep everything built so far. */
  lemma BuiltElsewhere(m: Words, m': Words, base: nat, bs: seq<nat>, n: nat, flags: nat, b: nat)
    requires flags < PAGE_SIZE && Built(m, base, bs, n, flags) && b !in bs && base + b < PAGES
    requires OnlyFrames(m, m', [base + b])
    ensures Built(m', base, bs + [b], n, flags)
  {
    forall j | 0 <= j < n ensures Slot(m', base, bs + [b], j, flags) {
      assert Slot(m, base, bs, j, flags);
      assert SameFrame(m, m', base + bs[0]) && SameFrame(m, m', base + bs[1 + j]);
      FilledElsewhere(m, m', base + bs[1 + j], j, flags);
    }
  }

  /** Linking the filled table in the last block completes one more slot. */
  lemma LinkTable(m: Words, base: nat, bs: seq<nat>, n: nat, flags: nat, e: uint32)
    requires flags < PAGE_SIZE && n < ENTRIES && |bs| == 2 + n && Built(m, base, bs, n, flags)
    requires forall j, k :: 0 <= j < k < |bs| ==> bs[j] != bs[k]
    requires Filled(m, base + bs[1 + n], n, flags)
    requires e / PAGE_SIZE == base + bs[1 + n] && e % PAGE_SIZE == Or(flags, IS_WRITEABLE)
    ensures Built(m[ENTRIES * (base + bs[0]) + n := e], base, bs, n + 1, flags)
  {
    var d := base + bs[0];
    var m': Words := m[ENTRIES * d + n := e];
    forall j | 0 <= j < n + 1 ensures Slot(m', base, bs, j, flags) {
      if j < n { assert Slot(m, base, bs, j, flags); }
      var f := base + bs[1 + j];
      assert f != d;
      assert SameFrame(m, m', f);
      FilledElsewhere(m, m', f, j, flags);
    }
  }

  lemma OnlyBlocksGrows(m0: Words, m: Words, m': Words, base: nat, bs: seq<nat>, b: nat)
    requires OnlyBlocks(m0, m, base, bs) && base + b < PAGES
    requires forall f: Frame :: f != base + b && (f < base || f - base !in bs) ==> SameFrame(m, m', f)
    ensures OnlyBlocks(m0, m', base, bs + [b])
  {
    forall f: Frame | f < base || f - base !in bs + [b] ensures SameFrame(m0, m', f) {
      assert f != base + b && (f < base || f - base !in bs);
      assert SameFrame(m0, m, f) && SameFrame(m, m', f);
    }
  }

  /** A complete directory translates every page to itself, with the requested flags. */
  lemma CompleteDirectory(m: Words, base: nat, bs: seq<nat>, flags: nat)
    requires flags < PAGE_SIZE && Built(m, base, bs, ENTRIES, flags)
    requires forall j, k :: 0 <= j < k < |bs| ==> bs[j] != bs[k]
    ensures DirOk(m, base + bs[0])
    ensures Pages(m, base + bs[0]) == seq(PAGES, p requires 0 <= p < PAGES => EntryOf(p, flags))
  {
    hide Or;
    var d := base + bs[0];
    forall i | 0 <= i < ENTRIES ensures TableOf(m, d, i) == base + bs[1 + i] {
      assert Slot(m, base, bs, i, flags);
    }
    forall p | 0 <= p < PAGES ensures Entry(m, d, p) == EntryOf(p, flags) {
      assert Slot(m, base, bs, p / ENTRIES, flags);
      assert p == ENTRIES * (p / ENTRIES) + p % ENTRIES;
    }
  }

  /** The processor lets a program do through it, on every page, what the requested flags say. */
  lemma CompleteDirectoryAllows(m: Words, base: nat, bs: seq<nat>, flags: nat, p: Frame)
    requires flags < PAGE_SIZE && Built(m, base, bs, ENTRIES, flags)
    requires forall j, k :: 0 <= j < k < |bs| ==> bs[j] != bs[k]
    ensures MayRead(m, base + bs[0], p) <==> flags % 2 == 1 && flags / 4 % 2 == 1
    ensures MayWrite(m, base + bs[0], p) <==> flags % 8 == 7
  {
    CompleteDirectory(m, base, bs, flags);
    assert Slot(m, base, bs, p / ENTRIES, flags);
    DirectoryAllows(m[ENTRIES * (base + bs[0]) + p / ENTRIES], flags);
    var e := Entry(m, base + bs[0], p);
    assert e == Pages(m, base + bs[0])[p] == EntryOf(p, flags);
    EntryParts(p, flags);
    SameFlagsAllow(e, flags);
    hide Entry, Pages, Built, Slot, Or, Writeable;
    WriteableFlag(flags, flags);
  }

  /** The flags of a directory entry withhold nothing that those of the table entries allow. */
  lemma DirectoryAllows(e: uint32, flags: nat)
    requires flags < PAGE_SIZE && e % PAGE_SIZE == Or(flags, IS_WRITEABLE)
    ensures Usable(e) <==> Usable(flags)
    ensures Writeable(e) <==> Usable(flags)
  {
    SameFlagsAllow(e, Or(flags, IS_WRITEABLE));
    assert Or(flags / 2 / 2, 0) == flags / 2 / 2;
    assert Or(flags / 2, 1) == 1 + 2 * (flags / 2 / 2);
    assert Or(flags, 2) == flags % 2 + 2 * Or(flags / 2, 1);
  }

  lemma FirstBlockOnly(m0: Words, m: Words, base: nat, b: nat)
    requires base + b < PAGES && OnlyFrames(m0, m, [base + b])
    ensures OnlyBlocks(m0, m, base, [b])
  {
    forall f: Frame | f < base || f - base !in [b] ensures SameFrame(m0, m, f) {
      assert f != base + b;
    }
  }

  lemma NothingBuilt(m: Words, base: nat, b: nat, flags: nat)
    requires base + b < PAGES && flags < PAGE_SIZE
    ensures Built(m, base, [b], 0, flags)
  {
  }

  lemma OrKeepsFrame(e: uint32, flags: nat)
    requires flags < PAGE_SIZE
    ensures Or(e, flags) < 0x1_0000_0000 && Or(e, flags) / PAGE_SIZE == e / PAGE_SIZE
    ensures Or(e, flags) % PAGE_SIZE == Or(e % PAGE_SIZE, flags)
  {
    hide Or;
    OrIsFlags(e, flags);
  }

  lemma OrZero(b: nat)
    ensures Or(0, b) == b
  {
  }

  /** `(uint32_t) entry | flags | PAGING_IS_WRITEABLE`: the table's frame, with these flags. */
  method DirectoryEntry(f: Frame, flags: uint8) returns (e: uint32)
    ensures e / PAGE_SIZE == f && e % PAGE_SIZE == Or(flags, IS_WRITEABLE)
  {
    hide Or;
    OrKeepsFrame(f * PAGE_SIZE, flags);
    OrKeepsFrame(Or(f * PAGE_SIZE, flags), IS_WRITEABLE);
    OrZero(flags);
    e := Or(Or(f * PAGE_SIZE, flags), IS_WRITEABLE);
  }

  /** One round of the outer loop: a new block (m to m2, filled) and a new directory entry. */
  lemma TableStep(m0: Words, m: Words, m2: Words, base: nat, bs: seq<nat>, b: nat, i: nat, flags: nat, e: uint32)
    requires flags < PAGE_SIZE && i < ENTRIES && |bs| == 1 + i && b !in bs && base + b < PAGES
    requires forall j, k :: 0 <= j < k < |bs + [b]| ==> (bs + [b])[j] != (bs + [b])[k]
    requires Built(m, base, bs, i, flags) && OnlyBlocks(m0, m, base, bs)
    requires OnlyFrames(m, m2, [base + b]) && Filled(m2, base + b, i, flags)
    requires e / PAGE_SIZE == base + b && e % PAGE_SIZE == Or(flags, IS_WRITEABLE)
    ensures Built(m2[ENTRIES * (base + bs[0]) + i := e], base, bs + [b], i + 1, flags)
    ensures OnlyBlocks(m0, m2[ENTRIES * (base + bs[0]) + i := e], base, bs + [b])
  {
    var m3: Words := m2[ENTRIES * (base + bs[0]) + i := e];
    BuiltElsewhere(m, m2, base, bs, i, flags, b);
    LinkTable(m2, base, bs + [b], i, flags, e);
    forall f: Frame | f != base + b && (f < base || f - base !in bs) ensures SameFrame(m, m3, f) {
      assert f != base + bs[0];
      assert SameFrame(m, m2, f);
    }
    OnlyBlocksGrows(m0, m, m3, base, bs, b);
  }

  lemma StructStep(m0: Words, m: Words, m': Words, base: nat, bs: seq<nat>, b: nat, flags: nat)
    requires flags < PAGE_SIZE && b !in bs && base + b < PAGES
    requires Built(m, base, bs, ENTRIES, flags) && OnlyBlocks(m0, m, base, bs)
    requires OnlyFrames(m, m', [base + b])
    ensures Built(m', base, bs + [b], ENTRIES, flags) && OnlyBlocks(m0, m', base, bs + [b])
  {
    BuiltElsewhere(m, m', base, bs, ENTRIES, flags, b);
    OnlyBlocksGrows(m0, m, m', base, bs, b);
  }

  lemma OnlyFramesTwice(m: Words, m1: Words, m2: Words, f: Frame)
    requires OnlyFrames(m, m1, [f]) && OnlyFrames(m1, m2, [f])
    ensures OnlyFrames(m, m2, [f])
  {
    forall g: Frame | g !in [f] ensures SameFrame(m, m2, g) {
      assert SameFrame(m, m1, g) && SameFrame(m1, m2, g);
    }
  }

  lemma WriteInFrame(m: Words, f: Frame, w: uint32)
    ensures OnlyFrames(m, m[ENTRIES * f := w], [f])
  {
    forall g: Frame | g !in [f] ensures SameFrame(m, m[ENTRIES * f := w], g) {
      assert g != f;
    }
  }

  /** `paging_new`. It takes 1026 blocks that were free, and leaves all other memory as it was. */
  method PagingNew(heap: Heap, mem: array<uint32>, flags: uint8) returns (pageDir: uint32, ghost bs: seq<nat>)
    requires heap.Valid() && mem.Length == WORDS && heap.entries as object != mem
    requires WellFormed(heap.Table()) && FreeCount(heap.Table()) >= BLOCKS
    modifies heap.entries, mem
    ensures |bs| == BLOCKS && SinglesTaken(old(heap.Table()), heap.Table(), bs)
    ensures pageDir == heap.startAddr + bs[BLOCKS - 1] * BLOCK_SIZE
    ensures mem[pageDir / 4] == heap.startAddr + bs[0] * BLOCK_SIZE
    ensures Built(mem[..], heap.startAddr / PAGE_SIZE, bs, ENTRIES, flags)
    ensures OnlyBlocks(old(mem[..]), mem[..], heap.startAddr / PAGE_SIZE, bs)
    ensures heap.Before() == old(heap.Before())
  {
    hide FreeCount, Runs, WellFormed, Built, OnlyBlocks, OnlyFrames, SameFrame, Filled, SinglesTaken;
    ghost var t0, m0: Words, base := heap.Table(), mem[..], heap.startAddr / PAGE_SIZE;
    bs := [];
    NoSinglesTaken(t0);
    var d, b := NewBlock(heap, mem, 4 * ENTRIES, t0, bs);
    bs := bs + [b];
    assert bs == [b];
    var offset: uint32 := 0;
    assert OnlyBlocks(m0, mem[..], base, bs) by { FirstBlockOnly(m0, mem[..], base, b); }
    assert Built(mem[..], base, bs, 0, flags) by { NothingBuilt(mem[..], base, b, flags); }
    for i := 0 to ENTRIES
      invariant |bs| == 1 + i && d == base + bs[0]
      invariant SinglesTaken(t0, heap.Table(), bs) && FreeCount(heap.Table()) == FreeCount(t0) - |bs|
      invariant Built(mem[..], base, bs, i, flags) && OnlyBlocks(m0, mem[..], base, bs)
      invariant i < ENTRIES ==> offset == i * TABLE_SPAN
      invariant heap.Before() == old(heap.Before())
    {
      ghost var m: Words := mem[..];
      var f, b := NewBlock(heap, mem, 4 * ENTRIES, t0, bs);
      ghost var m1: Words := mem[..];
      FillTable(mem, f, offset, i, flags);
      OnlyFramesTwice(m, m1, mem[..], f);
      offset := Wrap(offset + TABLE_SPAN);
      ghost var m2: Words := mem[..];
      var e := DirectoryEntry(f, flags);
      mem[ENTRIES * d + i] := e;
      SinglesDistinct(t0, heap.Table(), bs + [b]);
      TableStep(m0, m, m2, base, bs, b, i, flags, e);
      bs := bs + [b];
    }
    ghost var m: Words := mem[..];
    var s, b' := NewBlock(heap, mem, 4, t0, bs);
    ghost var m1: Words := mem[..];
    pageDir := s * PAGE_SIZE;
    mem[ENTRIES * s] := d * PAGE_SIZE;
    WriteInFrame(m1, s, d * PAGE_SIZE);
    OnlyFramesTwice(m, m1, mem[..], s);
    StructStep(m0, m, mem[..], base, bs, b', flags);
    bs := bs + [b'];
  }

  // ---------- paging_free ----------

  lemma BlockOfAddress(heap: Heap, b: nat)
    requires heap.Valid() && b < heap.length
    ensures heap.AddressToBlock(heap.startAddr + b * BLOCK_SIZE) == b
    ensures heap.startAddr / PAGE_SIZE * PAGE_SIZE == heap.startAddr
  {
  }

  lemma FreedSingle(t: seq<bv8>, b: nat)
    requires b < |t| && t[b] == TAKEN | IS_FIRST
    ensures Freed(t, b, |t|) == t[b := FREE]
  {
    assert !HasNext(t[b]);
  }

  /** Directory entry i names the table in block bs[1 + i]. */
  ghost predicate Linked(m: Words, base: nat, bs: seq<nat>, i: nat) {
    i < ENTRIES && 1 + i < |bs| && base + bs[0] < PAGES && TableOf(m, base + bs[0], i) == base + bs[1 + i]
  }

  lemma BuiltIsLinked(m: Words, base: nat, bs: seq<nat>, flags: nat, i: nat)
    requires flags < PAGE_SIZE && i < ENTRIES && Built(m, base, bs, ENTRIES, flags)
    ensures Linked(m, base, bs, i) && TableFlags(m, base + bs[0], i) == Or(flags, IS_WRITEABLE)
  {
    assert Slot(m, base, bs, i, flags);
  }

  /** Masking directory entry i gives the address of block bs[1 + i]. */
  lemma LinkedAddress(m: Words, startAddr: uint32, bs: seq<nat>, i: nat)
    requires startAddr % PAGE_SIZE == 0 && Linked(m, startAddr / PAGE_SIZE, bs, i)
    ensures And(m[ENTRIES * (startAddr / PAGE_SIZE + bs[0]) + i], 0xFFFF_F000) == startAddr + bs[1 + i] * BLOCK_SIZE
  {
    hide And;
    var entry := m[ENTRIES * (startAddr / PAGE_SIZE + bs[0]) + i];
    MaskIsFrame(entry);
    assert FrameOf(entry) == entry / PAGE_SIZE * PAGE_SIZE;
  }

  lemma StillTaken(t0: seq<bv8>, t: seq<bv8>, bs: seq<nat>, k: nat)
    requires SinglesTaken(t0, t, bs) && 1 <= k < |bs|
    ensures |t| == |t0| && bs[0] < |t| && t[bs[0]] == TAKEN | IS_FIRST
    ensures bs[k] < |t| && t[bs[k]] == TAKEN | IS_FIRST && bs[k] !in bs[1..k] && bs[0] !in bs[1..] && bs[k] != bs[0]
  {
  }

  /** `paging_free`: gives back exactly the blocks `paging_new` took, whatever has been mapped meanwhile. */
  method PagingFree(heap: Heap, mem: array<uint32>, pageDir: uint32, ghost t0: seq<bv8>, ghost bs: seq<nat>)
    requires heap.Valid() && mem.Length == WORDS && heap.entries as object != mem
    requires WellFormed(t0) && |bs| == BLOCKS && SinglesTaken(t0, heap.Table(), bs)
    requires pageDir == heap.startAddr + bs[BLOCKS - 1] * BLOCK_SIZE
    requires mem[pageDir / 4] == heap.startAddr + bs[0] * BLOCK_SIZE
    requires forall i :: 0 <= i < ENTRIES ==> Linked(mem[..], heap.startAddr / PAGE_SIZE, bs, i)
    modifies heap.entries
    ensures heap.Table() == t0 && heap.Before() == old(heap.Before())
  {
    hide WellFormed, Runs, Freed, SinglesTaken, Linked;
    ghost var t := heap.Table();
    var entries := mem[pageDir / 4];
    StillTaken(t0, t, bs, 1);
    FreeTables(heap, mem, entries, t0, bs);
    FreeSingle(heap, entries, bs[0]);
    StillTaken(t0, t, bs, BLOCKS - 1);
    FreeSingle(heap, pageDir, bs[BLOCKS - 1]);
    AllGivenBack(t0, t, heap.Table(), bs);
  }

  /** The loop of `paging_free`. */
  method FreeTables(heap: Heap, mem: array<uint32>, entries: uint32, ghost t0: seq<bv8>, ghost bs: seq<nat>)
    requires heap.Valid() && mem.Length == WORDS && heap.entries as object != mem
    requires |bs| == BLOCKS && SinglesTaken(t0, heap.Table(), bs)
    requires bs[0] < heap.length && entries == heap.startAddr + bs[0] * BLOCK_SIZE
    requires forall i :: 0 <= i < ENTRIES ==> Linked(mem[..], heap.startAddr / PAGE_SIZE, bs, i)
    modifies heap.entries
    ensures forall x :: 0 <= x < heap.length ==>
      heap.Table()[x] == if x in bs[1..1 + ENTRIES] then FREE else old(heap.Table())[x]
    ensures heap.Before() == old(heap.Before())
  {
    hide SinglesTaken, And;
    ghost var t := heap.Table();
    BlockOfAddress(heap, 0);
    PageAlignedWord(entries);
    for i := 0 to ENTRIES
      invariant heap.Before() == old(heap.Before())
      invariant forall x :: 0 <= x < |t| ==> heap.Table()[x] == if x in bs[1..1 + i] then FREE else t[x]
    {
      var entry := mem[entries / 4 + i];
      assert Linked(mem[..], heap.startAddr / PAGE_SIZE, bs, i);
      LinkedAddress(mem[..], heap.startAddr, bs, i);
      StillTaken(t0, t, bs, 1 + i);
      FreeSingle(heap, And(entry, 0xFFFF_F000), bs[1 + i]);
    }
  }

  method FreeSingle(heap: Heap, addr: uint32, ghost b: nat)
    requires heap.Valid() && b < heap.length && addr == heap.startAddr + b * BLOCK_SIZE
    requires heap.Table()[b] == TAKEN | IS_FIRST
    modifies heap.entries
    ensures heap.Table() == old(heap.Table())[b := FREE] && heap.Before() == old(heap.Before())
  {
    BlockOfAddress(heap, b);
    FreedSingle(heap.Table(), b);
    Kfree(heap, addr);
  }

  lemma AllGivenBack(t0: seq<bv8>, t: seq<bv8>, t': seq<bv8>, bs: seq<nat>)
    requires WellFormed(t0) && SinglesTaken(t0, t, bs) && |t'| == |t|
    requires forall x :: 0 <= x < |t| ==> t'[x] == if x in bs then FREE else t[x]
    ensures t' == t0
  {
    forall x | 0 <= x < |t| ensures t'[x] == t0[x] {
      assert BlockOk(t0, x);
    }
  }
}
