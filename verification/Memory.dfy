/** Physical memory as 32-bit words (a byte address names word address / 4; bytes are little-endian), its single
    bytes, and the zeroing kernel allocator. */
module Memory {
  import opened Machine
  import opened Heap

  const WORDS := 0x4000_0000

  type Words = m: seq<uint32> | |m| == WORDS ghost witness seq(WORDS, _ => 0)

  // ---------- Bytes of a word ----------

  /** A word put together from its bytes, the lowest first. */
  function Word(b0: uint8, b1: uint8, b2: uint8, b3: uint8): uint32 {
    b0 + 0x100 * (b1 + 0x100 * (b2 + 0x100 * b3))
  }

  function ByteOf(w: uint32, k: nat): uint8
    requires k < 4
  {
    match k
    case 0 => w % 0x100
    case 1 => w / 0x100 % 0x100
    case 2 => w / 0x100 / 0x100 % 0x100
    case 3 => w / 0x100 / 0x100 / 0x100
  }

  /** The word with byte k replaced. */
  function WithByte(w: uint32, k: nat, c: uint8): uint32
    requires k < 4
  {
    Word(if k == 0 then c else ByteOf(w, 0), if k == 1 then c else ByteOf(w, 1),
         if k == 2 then c else ByteOf(w, 2), if k == 3 then c else ByteOf(w, 3))
  }

  lemma LowByte(b: uint8, rest: nat)
    ensures (b + 0x100 * rest) % 0x100 == b && (b + 0x100 * rest) / 0x100 == rest
  {
  }

  lemma WithByteIs(w: uint32, k: nat, c: uint8, j: nat)
    requires k < 4 && j < 4
    ensures ByteOf(WithByte(w, k, c), j) == if j == k then c else ByteOf(w, j)
  {
    var b0, b1 := if k == 0 then c else ByteOf(w, 0), if k == 1 then c else ByteOf(w, 1);
    var b2, b3 := if k == 2 then c else ByteOf(w, 2), if k == 3 then c else ByteOf(w, 3);
    WordBytes(b0, b1, b2, b3);
    hide ByteOf, Word;
  }

  lemma WordBytes(b0: uint8, b1: uint8, b2: uint8, b3: uint8)
    ensures var w := Word(b0, b1, b2, b3);
      ByteOf(w, 0) == b0 && ByteOf(w, 1) == b1 && ByteOf(w, 2) == b2 && ByteOf(w, 3) == b3
  {
    LowByte(b0, b1 + 0x100 * (b2 + 0x100 * b3));
    LowByte(b1, b2 + 0x100 * b3);
    LowByte(b2, b3);
  }

  /** A word is its four bytes. */
  lemma SameBytesSameWord(w: uint32, w': uint32)
    requires forall k :: 0 <= k < 4 ==> ByteOf(w', k) == ByteOf(w, k)
    ensures w' == w
  {
    assert ByteOf(w', 0) == ByteOf(w, 0) && ByteOf(w', 1) == ByteOf(w, 1);
    assert ByteOf(w', 2) == ByteOf(w, 2) && ByteOf(w', 3) == ByteOf(w, 3);
    FromBytes(w);
    FromBytes(w');
  }

  /** The lowest byte comes first. */
  lemma FromBytes(w: uint32)
    ensures w == ByteOf(w, 0) + 0x100 * ByteOf(w, 1) + 0x1_0000 * ByteOf(w, 2) + 0x100_0000 * ByteOf(w, 3)
  {
  }

  // ---------- Bytes of memory ----------

  function ByteAt(m: Words, a: uint32): uint8 {
    ByteOf(m[a / 4], a % 4)
  }

  /** Storing one byte changes that byte alone. */
  lemma ByteStored(m: Words, a: uint32, c: uint8)
    ensures forall b: uint32 :: ByteAt(m[a / 4 := WithByte(m[a / 4], a % 4, c)], b) == if b == a then c else ByteAt(m, b)
  {
    forall b: uint32
      ensures ByteAt(m[a / 4 := WithByte(m[a / 4], a % 4, c)], b) == if b == a then c else ByteAt(m, b)
    {
      WithByteIs(m[a / 4], a % 4, c, b % 4);
      hide WithByte, ByteOf;
      assert a == 4 * (a / 4) + a % 4 && b == 4 * (b / 4) + b % 4;
    }
  }

  /** A word that shares no byte with the n bytes cleared from a on is what it was. */
  lemma ClearedElsewhere(m: Words, m': Words, a: nat, n: nat, i: nat)
    requires forall b: uint32 :: ByteAt(m', b) == if a <= b < a + n then 0 else ByteAt(m, b)
    requires i < WORDS && (4 * i + 3 < a || a + n <= 4 * i)
    ensures m'[i] == m[i]
  {
    forall k | 0 <= k < 4
      ensures ByteOf(m'[i], k) == ByteOf(m[i], k)
    {
      var b: uint32 := 4 * i + k;
      assert b / 4 == i && b % 4 == k;
      assert ByteAt(m', b) == ByteAt(m, b);
    }
    SameBytesSameWord(m[i], m'[i]);
  }

  /** `memset(a, 0, n)`. */
  method Memset0(mem: array<uint32>, a: uint32, n: nat)
    requires mem.Length == WORDS && a + n <= 4 * WORDS
    modifies mem
    ensures forall b: uint32 :: ByteAt(mem[..], b) == if a <= b < a + n then 0 else ByteAt(old(mem[..]), b)
  {
    hide ByteAt;
    for i := 0 to n
      invariant forall b: uint32 :: ByteAt(mem[..], b) == if a <= b < a + i then 0 else ByteAt(old(mem[..]), b)
    {
      ghost var m: Words := mem[..];
      ByteStored(m, a + i, 0);
      mem[(a + i) / 4] := WithByte(mem[(a + i) / 4], (a + i) % 4, 0);
    }
  }

  // ---------- kzalloc ----------

  /** A request the heap answers rightly (see Heap.StartBlockRightExactlyWhen). */
  ghost predicate Serviceable(t: seq<bv8>, size: uint32) {
    var n := BlocksFor(size);
    n > 0 && (FirstFit(t, n, 0) != -1 || |t| == 0 || !IsFree(t[|t| - 1]))
  }

  lemma ServiceableStart(t: seq<bv8>, size: uint32)
    requires Serviceable(t, size)
    ensures BlocksFor(size) > 0
    ensures var first := FirstFit(t, BlocksFor(size), 0);
      StartBlock(t, BlocksFor(size)) == if first == -1 then -ENOMEM else first
  {
  }

  lemma StartIsInTable(t: seq<bv8>, n: nat)
    ensures StartBlock(t, n) < |t| && (StartBlock(t, n) >= 0 || StartBlock(t, n) == -ENOMEM)
  {
    FirstFitIsLowest(t, n, 0);
  }

  lemma TakenInTable(entries: seq<bv8>, base: nat, length: nat, s: nat, n: nat)
    requires s <= length && base + length <= |entries|
    ensures Taken(entries, base + s, n)[base..base + length] == Taken(entries[base..base + length], s, n)
    ensures Taken(entries, base + s, n)[..base] == entries[..base]
  {
  }

  lemma ClearedInTable(entries: seq<bv8>, base: nat, length: nat, s: nat)
    requires base + length <= |entries| && s < length
    ensures entries[base + s := FREE][base..base + length] == entries[base..base + length][s := FREE]
    ensures entries[base + s] == entries[base..base + length][s]
  {
  }

  lemma {:induction false} FreedInTable(entries: seq<bv8>, base: nat, length: nat, s: nat)
    requires base + length <= |entries|
    ensures Freed(entries, base + s, base + length)[base..base + length] == Freed(entries[base..base + length], s, length)
    decreases length - s
  {
    if s < length {
      ClearedInTable(entries, base, length, s);
      if HasNext(entries[base + s]) {
        FreedInTable(entries[base + s := FREE], base, length, s + 1);
      }
    }
  }

  lemma FreedKeepsBefore(entries: seq<bv8>, base: nat, length: nat, s: nat)
    requires base + length <= |entries|
    ensures Freed(entries, base + s, base + length)[..base] == entries[..base]
  {
    if s < length {
      FreedKeepsBelow(entries, base + s, base + length);
      assert entries[..base] == entries[..base + s][..base];
      assert Freed(entries, base + s, base + length)[..base] == Freed(entries, base + s, base + length)[..base + s][..base];
    }
  }

  /** `kfree`. In terms of the table alone for an address in the heap; below the heap, a free that stops before the
      table leaves it alone. */
  method Kfree(heap: Heap, addr: uint32)
    requires heap.Valid() && 0 <= heap.base + heap.AddressToBlock(addr)
    modifies heap.entries
    ensures var b := heap.AddressToBlock(addr);
      && heap.entries[..] == Freed(old(heap.entries[..]), heap.base + b, heap.base + heap.length)
      && (b >= 0 ==> heap.Table() == Freed(old(heap.Table()), b, heap.length) && heap.Before() == old(heap.Before()))
  {
    ghost var entries, b := heap.entries[..], heap.AddressToBlock(addr);
    assert heap.Table() == entries[heap.base..heap.base + heap.length] && heap.Before() == entries[..heap.base];
    heap.FreeAddr(addr);
    if b >= 0 {
      FreedInTable(entries, heap.base, heap.length, b);
      FreedKeepsBefore(entries, heap.base, heap.length, b);
      assert heap.Table() == heap.entries[..][heap.base..heap.base + heap.length];
      assert heap.Before() == heap.entries[..][..heap.base];
    }
  }

  /** Why requests of no bytes, or of more than 0xFFFFF000, are not serviceable: on an empty heap the block they
      are answered with is the next request's answer too. */
  method SameAnswerTwice(heap: Heap, size: uint32) returns (first: uint32, second: uint32)
    requires heap.Valid() && heap.length > 0 && !(0 < size <= 0xFFFF_F000)
    requires forall i :: 0 <= i < heap.length ==> heap.Table()[i] == FREE
    modifies heap.entries
    ensures first == second == heap.startAddr != 0
  {
    hide FirstFit, TrailingFree;
    ghost var t := heap.Table();
    assert FREE & 0x0F == FREE;
    TrailingFreeUnique(t, 0);
    assert BlocksFor(size) == 0 && BlocksFor(1) == 1;
    assert FreeRun(t, 0, 1);
    FirstFitIsLowest(t, 1, 0);
    assert StartBlock(t, 0) == 0 && StartBlock(t, 1) == 0;
    first := heap.Malloc(size);
    assert Taken(old(heap.entries[..]), heap.base, 0) == old(heap.entries[..]);
    assert heap.Table() == t;
    second := heap.Malloc(1);
  }

  /** A serviceable request was answered from table t, leaving t': the first fit, or null when there is none. */
  ghost predicate Answered(t: seq<bv8>, t': seq<bv8>, startAddr: uint32, size: uint32, addr: uint32) {
    var n := BlocksFor(size);
    var s := FirstFit(t, n, 0);
    if s == -1 then addr == 0 && t' == t
    else addr == startAddr + s * BLOCK_SIZE && t' == Taken(t, s, n)
  }

  /** `kmalloc`; for a serviceable request in terms of the table alone. */
  method Kmalloc(heap: Heap, size: uint32) returns (addr: uint32)
    requires heap.Valid() && (Serviceable(heap.Table(), size) || heap.HasRoom(size))
    modifies heap.entries
    ensures var s := StartBlock(old(heap.Table()), BlocksFor(size));
      if s < 0 then addr == 0 && heap.entries[..] == old(heap.entries[..])
      else addr == heap.startAddr + s * BLOCK_SIZE
           && heap.entries[..] == Taken(old(heap.entries[..]), heap.base + s, BlocksFor(size))
    ensures Serviceable(old(heap.Table()), size) ==>
      && Answered(old(heap.Table()), heap.Table(), heap.startAddr, size, addr)
      && (addr != 0 ==> addr + size <= 0x8000_0000)
    ensures addr % BLOCK_SIZE == 0 && heap.Before() == old(heap.Before())
  {
    hide FirstFit, StartBlock, Taken, Serviceable;
    ghost var entries, s := heap.entries[..], StartBlock(heap.Table(), BlocksFor(size));
    assert heap.Table() == entries[heap.base..heap.base + heap.length] && heap.Before() == entries[..heap.base];
    if Serviceable(heap.Table(), size) {
      ServiceableStart(heap.Table(), size);
    }
    StartIsInTable(heap.Table(), BlocksFor(size));
    addr := heap.Malloc(size);
    if s >= 0 {
      TakenInTable(entries, heap.base, heap.length, s, BlocksFor(size));
    }
    assert heap.Table() == heap.entries[..][heap.base..heap.base + heap.length];
    assert heap.Before() == heap.entries[..][..heap.base];
  }

  /** `kzalloc`: allocate, then clear the requested bytes. */
  method Kzalloc(heap: Heap, mem: array<uint32>, size: uint32) returns (addr: uint32)
    requires heap.Valid() && mem.Length == WORDS && heap.entries as object != mem
    requires Serviceable(heap.Table(), size)
          || (heap.HasRoom(size) && heap.startAddr + StartBlock(heap.Table(), BlocksFor(size)) * BLOCK_SIZE + size <= 4 * WORDS)
    modifies heap.entries, mem
    ensures var s := StartBlock(old(heap.Table()), BlocksFor(size));
      if s < 0 then addr == 0 && heap.entries[..] == old(heap.entries[..])
      else addr == heap.startAddr + s * BLOCK_SIZE
           && heap.entries[..] == Taken(old(heap.entries[..]), heap.base + s, BlocksFor(size))
    ensures Serviceable(old(heap.Table()), size) ==>
      && Answered(old(heap.Table()), heap.Table(), heap.startAddr, size, addr)
      && (addr != 0 ==> addr + size <= 0x8000_0000)
    ensures addr == 0 ==> mem[..] == old(mem[..])
    ensures addr != 0 ==> addr + size <= 4 * WORDS && forall b: uint32 ::
              ByteAt(mem[..], b) == if addr <= b < addr + size then 0 else ByteAt(old(mem[..]), b)
    ensures addr % BLOCK_SIZE == 0 && heap.Before() == old(heap.Before())
  {
    hide StartBlock, Taken, Serviceable, Answered, BlocksFor, ByteAt;
    addr := Kmalloc(heap, size);
    if addr == 0 {
      return;
    }
    Memset0(mem, addr, size);
  }
}
