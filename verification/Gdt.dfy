/** Segment descriptors: packing a base, a limit and a type into the eight bytes of section 3.4.5 of the
    Intel 64 and IA-32 Architectures Software Developer's Manual, volume 3A. */
module Gdt {
  const ENTRY_SIZE := 8

  datatype Structured = Structured(base: bv32, limit: bv32, kind: bv8)

  /** `encode_gdt_entry` panics on these limits: too large for two bytes, and not the last byte of a page. */
  predicate Panics(limit: bv32) {
    limit > 65536 && limit & 0xFFF != 0xFFF
  }

  // What the processor reads.

  function JoinBase(b2: bv8, b3: bv8, b4: bv8, b7: bv8): bv32 {
    b2 as bv32 | (b3 as bv32 << 8) | (b4 as bv32 << 16) | (b7 as bv32 << 24)
  }

  function JoinLimit(b0: bv8, b1: bv8, b6: bv8): bv32 {
    b0 as bv32 | (b1 as bv32 << 8) | ((b6 & 0x0F) as bv32 << 16)
  }

  /** The limit counts bytes or pages, according to the granularity flag; it is the last unit included. */
  function Expand(limit: bv32, b6: bv8): bv32 {
    if b6 & 0x80 != 0 then (limit << 12) | 0xFFF else limit
  }

  function Decode(entry: seq<bv8>): Structured
    requires |entry| == ENTRY_SIZE
  {
    Structured(
      JoinBase(entry[2], entry[3], entry[4], entry[7]),
      Expand(JoinLimit(entry[0], entry[1], entry[6]), entry[6]),
      entry[5])
  }

  // What the encoder writes.

  function Byte0(x: bv32): bv8 {
    (x & 0xFF) as bv8
  }

  function Byte1(x: bv32): bv8 {
    ((x >> 8) & 0xFF) as bv8
  }

  function Byte2(x: bv32): bv8 {
    ((x >> 16) & 0xFF) as bv8
  }

  function Byte3(x: bv32): bv8 {
    ((x >> 24) & 0xFF) as bv8
  }

  function Nibble2(x: bv32): bv8 {
    ((x >> 16) & 0x0F) as bv8
  }

  /** The limit as stored: counted in pages when it does not fit otherwise. */
  function Stored(limit: bv32): bv32 {
    if limit > 65536 then limit >> 12 else limit
  }

  function Flags(limit: bv32): bv8 {
    if limit > 65536 then 0xC0 else 0x40
  }

  function High(limit: bv32): bv8 {
    Flags(limit) | Nibble2(Stored(limit))
  }

  /** Where the pieces go. */
  function Layout(limit: bv32, high: bv8, base: bv32, kind: bv8): (entry: seq<bv8>)
    ensures |entry| == ENTRY_SIZE
  {
    [Byte0(limit), Byte1(limit), Byte0(base), Byte1(base), Byte2(base), kind, high, Byte3(base)]
  }

  function Encode(src: Structured): (entry: seq<bv8>)
    ensures |entry| == ENTRY_SIZE
  {
    Layout(Stored(src.limit), High(src.limit), src.base, src.kind)
  }

  lemma BaseJoins(x: bv32)
    ensures JoinBase(Byte0(x), Byte1(x), Byte2(x), Byte3(x)) == x
  {
  }

  lemma NibbleJoins(x: bv32, flags: bv8)
    requires x <= 0xFFFFF && flags & 0x0F == 0
    ensures JoinLimit(Byte0(x), Byte1(x), flags | Nibble2(x)) == x
  {
  }

  lemma LimitJoins(limit: bv32)
    ensures JoinLimit(Byte0(Stored(limit)), Byte1(Stored(limit)), High(limit)) == Stored(limit)
  {
    assert Stored(limit) <= 0xFFFFF;
    assert Flags(limit) & 0x0F == 0;
    NibbleJoins(Stored(limit), Flags(limit));
    hide Byte0, Byte1, Nibble2, Flags, Stored, JoinLimit;
  }

  lemma LimitExpands(limit: bv32)
    ensures Expand(Stored(limit), High(limit)) == limit <==> !Panics(limit)
    ensures High(limit) & 0x70 == 0x40
  {
  }

  /** The processor reads back what was asked for exactly when the encoder accepts it. */
  lemma DecodeUndoesEncodeExactlyWhen(src: Structured)
    ensures Decode(Encode(src)) == src <==> !Panics(src.limit)
  {
    BaseJoins(src.base);
    LimitJoins(src.limit);
    LimitExpands(src.limit);
    hide JoinBase, JoinLimit, Expand, Byte0, Byte1, Byte2, Byte3, Stored, High, Panics;
    var entry := Encode(src);
    assert Decode(entry).limit == Expand(Stored(src.limit), High(src.limit));
  }

  /** Descriptors in the processor's format (Intel SDM volume 3A, section 3.4.5): a flat code segment, one whose fields
      show all their bytes, and a small one far up. */
  lemma EncodeExample()
    ensures Encode(Structured(0, 0xFFFF_FFFF, 0x9A)) == [0xFF, 0xFF, 0x00, 0x00, 0x00, 0x9A, 0xCF, 0x00]
    ensures Encode(Structured(0x1234_5678, 0xABCD_EFFF, 0x92)) == [0xDE, 0xBC, 0x78, 0x56, 0x34, 0x92, 0xCA, 0x12]
    ensures Encode(Structured(0x1234_5678, 0x0ABC, 0x92)) == [0xBC, 0x0A, 0x78, 0x56, 0x34, 0x92, 0x40, 0x12]
  {
  }

  ghost predicate Representable(src: Structured) {
    exists entry: seq<bv8> :: |entry| == ENTRY_SIZE && Decode(entry) == src
  }

  /** The encoder is stricter than the format: it refuses some limits that have a descriptor, the ones which
      the granularity flag would not be needed for. */
  lemma {:induction false} RefusedThoughRepresentable(src: Structured)
    requires Panics(src.limit)
    ensures Representable(src) <==> src.limit <= 0xFFFFF
  {
    if src.limit <= 0xFFFFF {
      var limit, base := src.limit, src.base;
      var high := Nibble2(limit);
      var entry := Layout(limit, high, base, src.kind);
      SmallLimitJoins(limit);
      BaseJoins(base);
      hide JoinBase, JoinLimit, Expand, Byte0, Byte1, Byte2, Byte3;
      assert Decode(entry) == src;
    } else {
      forall entry: seq<bv8> | |entry| == ENTRY_SIZE
        ensures Decode(entry) != src
      {
        LargeLimitsEndPages(entry[0], entry[1], entry[6]);
      }
    }
  }

  lemma SmallLimitJoins(limit: bv32)
    requires limit <= 0xFFFFF
    ensures var high := Nibble2(limit);
      Expand(JoinLimit(Byte0(limit), Byte1(limit), high), high) == limit
  {
  }

  lemma LargeLimitsEndPages(b0: bv8, b1: bv8, b6: bv8)
    ensures var limit := Expand(JoinLimit(b0, b1, b6), b6);
      limit <= 0xFFFFF || limit & 0xFFF == 0xFFF
  {
  }

  /** The entry at position k of the table. */
  function EntryAt(table: seq<bv8>, k: nat): (entry: seq<bv8>)
    requires ENTRY_SIZE * k + ENTRY_SIZE <= |table|
    ensures |entry| == ENTRY_SIZE
  {
    table[ENTRY_SIZE * k..ENTRY_SIZE * k + ENTRY_SIZE]
  }

  /** The limit and the flags that `encode_gdt_entry` works out before it stores them. */
  method StoreLimit(limit: bv32) returns (stored: bv32, high: bv8)
    ensures stored == Stored(limit) && high == High(limit)
  {
    stored, high := limit, 0x40;
    if limit > 65536 {
      stored, high := limit >> 12, 0xC0;
    }
    high := high | Nibble2(stored);
  }

  /** The stores of `encode_gdt_entry`. */
  method PutEntry(table: array<bv8>, offset: nat, limit: bv32, high: bv8, base: bv32, kind: bv8)
    requires offset + ENTRY_SIZE <= table.Length
    modifies table
    ensures table[offset..offset + ENTRY_SIZE] == Layout(limit, high, base, kind)
    ensures forall k :: 0 <= k < table.Length && !(offset <= k < offset + ENTRY_SIZE) ==> table[k] == old(table[k])
  {
    hide Byte0, Byte1, Byte2, Byte3, Layout;
    table[offset] := Byte0(limit);
    table[offset + 1] := Byte1(limit);
    table[offset + 6] := high;
    table[offset + 2] := Byte0(base);
    table[offset + 3] := Byte1(base);
    table[offset + 4] := Byte2(base);
    table[offset + 7] := Byte3(base);
    table[offset + 5] := kind;
    SliceIsLayout(table[offset..offset + ENTRY_SIZE], limit, high, base, kind);
  }

  lemma SliceIsLayout(e: seq<bv8>, limit: bv32, high: bv8, base: bv32, kind: bv8)
    requires |e| == ENTRY_SIZE && e[0] == Byte0(limit) && e[1] == Byte1(limit) && e[2] == Byte0(base)
    requires e[3] == Byte1(base) && e[4] == Byte2(base) && e[5] == kind && e[6] == high && e[7] == Byte3(base)
    ensures e == Layout(limit, high, base, kind)
  {
    hide Byte0, Byte1, Byte2, Byte3;
  }

  /** `encode_gdt_entry`, writing at an offset of the table. A panic stops the kernel before the first write. */
  method EncodeGdtEntry(table: array<bv8>, offset: nat, src: Structured) returns (panicked: bool)
    requires offset + ENTRY_SIZE <= table.Length
    modifies table
    ensures panicked <==> Panics(src.limit)
    ensures panicked ==> table[..] == old(table[..])
    ensures !panicked ==> table[offset..offset + ENTRY_SIZE] == Encode(src)
    ensures forall k :: 0 <= k < table.Length && !(offset <= k < offset + ENTRY_SIZE) ==> table[k] == old(table[k])
  {
    hide Panics, High, Stored, Flags, Layout;
    if Panics(src.limit) {
      return true;
    }
    var limit, high := StoreLimit(src.limit);
    PutEntry(table, offset, limit, high, src.base, src.kind);
    panicked := false;
  }

  /** `gdt_unstructure`: unless some limit makes it panic, every entry reads back as asked for, and the table
      beyond them is left alone. */
  method GdtUnstructure(table: array<bv8>, entries: seq<Structured>) returns (panicked: bool)
    requires ENTRY_SIZE * |entries| <= table.Length
    modifies table
    ensures panicked <==> exists k :: 0 <= k < |entries| && Panics(entries[k].limit)
    ensures !panicked ==> forall k :: 0 <= k < |entries| ==> Decode(EntryAt(table[..], k)) == entries[k]
    ensures table[ENTRY_SIZE * |entries|..] == old(table[ENTRY_SIZE * |entries|..])
  {
    var i := 0;
    while i < |entries|
      invariant 0 <= i <= |entries|
      invariant forall k :: 0 <= k < i ==> !Panics(entries[k].limit)
      invariant forall k :: 0 <= k < i ==> EntryAt(table[..], k) == Encode(entries[k])
      invariant table[ENTRY_SIZE * |entries|..] == old(table[ENTRY_SIZE * |entries|..])
    {
      ghost var before := table[..];
      panicked := EncodeGdtEntry(table, ENTRY_SIZE * i, entries[i]);
      if panicked {
        return;
      }
      forall k | 0 <= k < i
        ensures EntryAt(table[..], k) == EntryAt(before, k)
      {
        assert ENTRY_SIZE * k + ENTRY_SIZE <= ENTRY_SIZE * i;
      }
      i := i + 1;
    }
    panicked := false;
    forall k | 0 <= k < |entries|
      ensures Decode(EntryAt(table[..], k)) == entries[k]
    {
      DecodeUndoesEncodeExactlyWhen(entries[k]);
    }
  }
}
