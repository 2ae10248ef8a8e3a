/** The kernel heap: a first-fit allocator of 4 KiB blocks whose only metadata is one byte per block. */
module Heap {
  import opened Machine

  const BLOCK_SIZE := 4096

  const FREE: bv8 := 0x00
  const TAKEN: bv8 := 0x01
  const HAS_NEXT: bv8 := 0x80
  const IS_FIRST: bv8 := 0x40

  predicate IsFree(e: bv8) {
    e & 0x0F == FREE
  }

  predicate IsFirst(e: bv8) {
    e & IS_FIRST != 0
  }

  predicate HasNext(e: bv8) {
    e & HAS_NEXT != 0
  }

  /** Which bits of an entry say so: a block is free when the low four are clear; bit 6 marks the first of an
      allocation, and bit 7 that another follows. */
  lemma EntryBits(e: bv8)
    ensures IsFree(e) <==> e % 16 == 0
    ensures IsFirst(e) <==> (e >> 6) % 2 == 1
    ensures HasNext(e) <==> e >= 128
  {
  }

  // ---------- Specification functions on the table ----------

  /** Blocks [s, s + n) all lie in the table and are free. */
  ghost predicate FreeRun(t: seq<bv8>, s: int, n: nat) {
    0 <= s <= s + n <= |t| && forall k :: s <= k < s + n ==> IsFree(t[k])
  }

  /** The lowest s >= from that starts a free run of n blocks, or -1. */
  ghost function FirstFit(t: seq<bv8>, n: nat, from: nat): (r: int)
    ensures r == -1 || from <= r <= r + n <= |t|
    decreases |t| - from
  {
    if from + n > |t| then -1
    else if FreeRun(t, from, n) then from
    else if from == |t| then -1
    else FirstFit(t, n, from + 1)
  }

  lemma {:induction false} FirstFitIsLowest(t: seq<bv8>, n: nat, from: nat)
    ensures FirstFit(t, n, from) != -1 ==> FreeRun(t, FirstFit(t, n, from), n)
    ensures forall s :: from <= s && (FirstFit(t, n, from) == -1 || s < FirstFit(t, n, from)) ==> !FreeRun(t, s, n)
    decreases |t| - from
  {
    if from + n <= |t| && !FreeRun(t, from, n) && from < |t| {
      FirstFitIsLowest(t, n, from + 1);
    }
  }

  /** Where the free blocks at the very end of the table start; |t| when the last block is taken. */
  ghost function TrailingFree(t: seq<bv8>): (r: nat)
    ensures r <= |t| && FreeRun(t, r, |t| - r)
    ensures r > 0 ==> !IsFree(t[r - 1])
  {
    if |t| > 0 && IsFree(t[|t| - 1]) then TrailingFree(t[..|t| - 1]) else |t|
  }

  /** What the search loop answers: the first fit when there is one; otherwise the start of whatever is
      free at the end of the table, however short; otherwise -ENOMEM. */
  ghost function StartBlock(t: seq<bv8>, n: nat): int {
    if n > 0 && FirstFit(t, n, 0) != -1 then FirstFit(t, n, 0)
    else if TrailingFree(t) < |t| then TrailingFree(t)
    else -ENOMEM
  }

  /** The answer the allocator is meant to give. */
  ghost predicate RightAnswer(t: seq<bv8>, n: nat, r: int) {
    if exists s :: FreeRun(t, s, n)
    then FreeRun(t, r, n) && forall s :: 0 <= s < r ==> !FreeRun(t, s, n)
    else r == -ENOMEM
  }

  /** The metadata of the k-th block of an n-block allocation. */
  function Tag(k: nat, n: nat): bv8
    requires k < n
  {
    TAKEN | (if k == 0 then IS_FIRST else 0) | (if k < n - 1 then HAS_NEXT else 0)
  }

  /** The blocks from s on tagged as an n-block allocation, as far as they lie in the table. */
  ghost function Taken(t: seq<bv8>, s: nat, n: nat): (r: seq<bv8>)
    ensures |r| == |t|
  {
    seq(|t|, i requires 0 <= i < |t| => if s <= i < s + n then Tag(i - s, n) else t[i])
  }

  /** Clears the blocks from s on, up to and including the first one without HAS_NEXT. */
  ghost function Freed(t: seq<bv8>, s: nat, length: nat): (r: seq<bv8>)
    requires length <= |t|
    ensures |r| == |t|
    decreases length - s
  {
    if s >= length then t
    else if HasNext(t[s]) then Freed(t[s := FREE], s + 1, length)
    else t[s := FREE]
  }

  /** The search is right exactly when there is a long enough run, or nothing is free at the end. */
  lemma StartBlockRightExactlyWhen(t: seq<bv8>, n: nat)
    requires n > 0
    ensures RightAnswer(t, n, StartBlock(t, n)) <==>
            (exists s :: FreeRun(t, s, n)) || |t| == 0 || !IsFree(t[|t| - 1])
  {
    FirstFitIsLowest(t, n, 0);
    var f := FirstFit(t, n, 0);
    assert f != -1 ==> FreeRun(t, f, n);
    assert (exists s :: FreeRun(t, s, n)) ==> f != -1;
  }

  /** Three blocks, only the last one free, two requested: the search answers 2 instead of -ENOMEM. */
  lemma StartBlockWrongExample()
    ensures StartBlock([0x41, 0x41, 0x00], 2) == 2
    ensures !RightAnswer([0x41, 0x41, 0x00], 2, 2)
  {
    var t: seq<bv8> := [0x41, 0x41, 0x00];
    assert IsFree(t[2]) && !IsFree(t[1]) && !IsFree(t[0]);
    assert forall s :: !FreeRun(t, s, 2);
    FirstFitIsLowest(t, 2, 0);
    TrailingFreeUnique(t, 2);
  }

  /** `heap_align_val`: up to a whole number of blocks, in 32-bit arithmetic. */
  function AlignVal(val: uint32): (r: uint32)
    ensures r % BLOCK_SIZE == 0
    ensures val <= 0xFFFF_F000 ==> val <= r < val + BLOCK_SIZE
    ensures val > 0xFFFF_F000 ==> r == 0
  {
    if val % BLOCK_SIZE == 0 then val else Wrap(val - val % BLOCK_SIZE + BLOCK_SIZE)
  }

  /** The number of blocks a request of `size` bytes takes. */
  function BlocksFor(size: uint32): nat {
    AlignVal(size) / BLOCK_SIZE
  }

  // ---------- The allocator ----------

  /** The table occupies `length` bytes of `entries` from `base` on; the other bytes are whatever else lies in memory
      before and behind the table. */
  class Heap {
    const entries: array<bv8>
    const base: nat
    const length: nat
    const startAddr: uint32

    ghost predicate Valid() {
      && base + length <= entries.Length
      && startAddr % BLOCK_SIZE == 0
      && 0 < startAddr
      && startAddr + length * BLOCK_SIZE <= 0x8000_0000
    }

    ghost function Table(): seq<bv8>
      requires base + length <= entries.Length
      reads entries
    {
      entries[base..base + length]
    }

    /** The memory before the table. */
    ghost function Before(): seq<bv8>
      requires base <= entries.Length
      reads entries
    {
      entries[..base]
    }

    constructor (entries: array<bv8>, base: nat, length: nat, startAddr: uint32)
      ensures this.entries == entries && this.base == base && this.length == length && this.startAddr == startAddr
    {
      this.entries := entries;
      this.base := base;
      this.length := length;
      this.startAddr := startAddr;
    }

    /** `heap_create`: rejects bad bounds, otherwise clears the whole table. The difference of the bounds is unsigned, so a
        heap that ends below its start is accepted too, if its table is as long as that; one from a non-null start to an
        end within 2 GiB is valid. */
    static method Create(startAddr: uint32, endAddr: uint32, entries: array<bv8>, base: nat, length: nat)
      returns (status: int, heap: Heap?)
      requires base + length <= entries.Length
      modifies entries
      ensures status == if startAddr % BLOCK_SIZE != 0 || endAddr % BLOCK_SIZE != 0
                           || length != Wrap(endAddr - startAddr) / BLOCK_SIZE then -EINVARG else 0
      ensures status != 0 ==> heap == null && entries[..] == old(entries[..])
      ensures status == 0 ==> heap != null && heap.entries == entries && heap.base == base
                              && heap.length == length && heap.startAddr == startAddr
      ensures status == 0 ==> (heap.Valid() <==> 0 < startAddr && startAddr + length * BLOCK_SIZE <= 0x8000_0000)
      ensures status == 0 && 0 < startAddr <= endAddr <= 0x8000_0000 ==> heap.Valid()
      ensures status == 0 ==> heap.Table() == seq(length, _ => FREE) && heap.Before() == old(entries[..base])
                              && entries[base + length..] == old(entries[base + length..])
    {
      if startAddr % BLOCK_SIZE != 0 || endAddr % BLOCK_SIZE != 0 {
        return -EINVARG, null;
      }
      if length != Wrap(endAddr - startAddr) / BLOCK_SIZE {
        return -EINVARG, null;
      }
      for i := 0 to length
        invariant forall k :: base <= k < base + i ==> entries[k] == FREE
        invariant entries[..base] == old(entries[..base])
        invariant entries[base + length..] == old(entries[base + length..])
      {
        entries[base + i] := FREE;
      }
      heap := new Heap(entries, base, length, startAddr);
      status := 0;
    }

    /** `heap_get_start_block`. */
    method GetStartBlock(totalBlocks: nat) returns (r: int)
      requires Valid()
      ensures r == StartBlock(Table(), totalBlocks)
    {
      var current, start := 0, -1;
      ghost var t := Table();
      var i := 0;
      while i < length
        invariant 0 <= i <= length
        invariant start == -1 ==> current == 0 && (i == 0 || !IsFree(t[i - 1]))
        invariant start != -1 ==> 0 <= start && start + current == i && current > 0 && FreeRun(t, start, current)
        invariant start > 0 ==> !IsFree(t[start - 1])
        invariant start < -1 ==> false
        invariant totalBlocks > 0 ==> current < totalBlocks
        invariant totalBlocks > 0 ==> forall s :: 0 <= s && s + totalBlocks <= i ==> !FreeRun(t, s, totalBlocks)
      {
        assert entries[base + i] == t[i];
        if !IsFree(entries[base + i]) {
          current, start := 0, -1;
          i := i + 1;
          continue;
        }
        if start == -1 {
          start := i;
        }
        current := current + 1;
        if current == totalBlocks {
          assert FreeRun(t, start, totalBlocks);
          assert FirstFit(t, totalBlocks, 0) == start by {
            assert forall s :: 0 <= s < start ==> !FreeRun(t, s, totalBlocks);
            FirstFitIsLowest(t, totalBlocks, 0);
          }
          return start;
        }
        i := i + 1;
      }
      FirstFitIsLowest(t, totalBlocks, 0);
      assert totalBlocks > 0 ==> FirstFit(t, totalBlocks, 0) == -1;
      TrailingFreeUnique(t, if start == -1 then length else start);
      return if start == -1 then -ENOMEM else start;
    }

    function BlockToAddress(block: int): uint32 {
      Wrap(startAddr + block * BLOCK_SIZE)
    }

    function AddressToBlock(addr: uint32): int {
      TruncDiv(ToSigned(Wrap(addr - startAddr)), BLOCK_SIZE)
    }

    /** The address of a block, and the block of every address inside it. */
    lemma BlockOfByte(block: nat, k: nat)
      requires Valid() && block < length && k < BLOCK_SIZE
      ensures BlockToAddress(block) == startAddr + block * BLOCK_SIZE
      ensures AddressToBlock(startAddr + block * BLOCK_SIZE + k) == block
    {
    }

    /** `heap_mark_blocks_taken`. */
    method MarkBlocksTaken(startBlock: nat, totalBlocks: nat)
      requires base + startBlock + totalBlocks <= entries.Length
      modifies entries
      ensures entries[..] == Taken(old(entries[..]), base + startBlock, totalBlocks)
    {
      var endBlock := startBlock + totalBlocks - 1;
      var entry := TAKEN | IS_FIRST;
      if totalBlocks > 1 {
        entry := entry | HAS_NEXT;
      }
      var i := startBlock;
      while i <= endBlock
        invariant startBlock <= i <= endBlock + 1
        invariant i <= endBlock ==> entry == Tag(i - startBlock, totalBlocks)
        invariant forall k :: 0 <= k < entries.Length ==>
          entries[k] == if base + startBlock <= k < base + i then Tag(k - base - startBlock, totalBlocks) else old(entries[k])
      {
        entries[base + i] := entry;
        entry := TAKEN;
        if i != endBlock - 1 {
          entry := entry | HAS_NEXT;
        }
        i := i + 1;
      }
    }

    /** `heap_mark_blocks_free`. A negative block is a byte before the table. */
    method MarkBlocksFree(startBlock: int)
      requires Valid() && 0 <= base + startBlock
      modifies entries
      ensures entries[..] == Freed(old(entries[..]), base + startBlock, base + length)
    {
      var i := startBlock;
      while i < length
        invariant startBlock <= i
        invariant Freed(entries[..], base + i, base + length) == Freed(old(entries[..]), base + startBlock, base + length)
      {
        var entry := entries[base + i];
        ghost var before := entries[..];
        entries[base + i] := FREE;
        assert entries[..] == before[base + i := FREE];
        if !HasNext(entry) {
          break;
        }
        i := i + 1;
      }
    }

    /** The memory that the answer to a request reaches into exists. */
    ghost predicate HasRoom(size: uint32)
      requires Valid()
      reads entries
    {
      var s := StartBlock(Table(), BlocksFor(size));
      s >= 0 ==> base + s + BlocksFor(size) <= entries.Length
    }

    /** `heap_malloc`. */
    method Malloc(size: uint32) returns (addr: uint32)
      requires Valid() && HasRoom(size)
      modifies entries
      ensures var s := StartBlock(old(Table()), BlocksFor(size));
              if s < 0 then addr == 0 && entries[..] == old(entries[..])
              else addr == BlockToAddress(s) && entries[..] == Taken(old(entries[..]), base + s, BlocksFor(size))
    {
      var aligned := AlignVal(size);
      var totalBlocks := aligned / BLOCK_SIZE;
      addr := 0;
      var startBlock := GetStartBlock(totalBlocks);
      if startBlock < 0 {
        return;
      }
      addr := BlockToAddress(startBlock);
      MarkBlocksTaken(startBlock, totalBlocks);
    }

    /** `heap_free`, for any address. The only demand is that the memory it reaches into exists. */
    method FreeAddr(addr: uint32)
      requires Valid() && 0 <= base + AddressToBlock(addr)
      modifies entries
      ensures entries[..] == Freed(old(entries[..]), base + AddressToBlock(addr), base + length)
    {
      MarkBlocksFree(AddressToBlock(addr));
    }
  }

  // ---------- Freeing an address below the heap ----------

  /** A free that starts at byte `from` ends before the table does. */
  ghost predicate StopsBefore(e: seq<bv8>, from: nat, base: nat) {
    exists i :: from <= i < base <= |e| && !HasNext(e[i])
  }

  lemma {:induction false} FreedStops(e: seq<bv8>, from: nat, base: nat, end: nat)
    requires from <= base <= end <= |e|
    ensures StopsBefore(e, from, base) ==> Freed(e, from, end)[base..] == e[base..]
    ensures !StopsBefore(e, from, base) ==> Freed(e, from, end)[base..] == Freed(e, base, end)[base..]
    ensures Freed(e, from, end)[..from] == e[..from]
    decreases base - from
  {
    FreedKeepsBelow(e, from, end);
    if from < base && HasNext(e[from]) {
      var e' := e[from := FREE];
      assert forall i :: from < i < base ==> e'[i] == e[i];
      assert StopsBefore(e, from, base) ==> StopsBefore(e', from + 1, base);
      assert StopsBefore(e', from + 1, base) ==> StopsBefore(e, from, base);
      FreedStops(e', from + 1, base, end);
      assert e'[base..] == e[base..];
      FreedBehind(e, e', base, base, end);
    }
  }

  lemma {:induction false} FreedKeepsBelow(e: seq<bv8>, from: nat, end: nat)
    requires end <= |e| && from <= |e|
    ensures Freed(e, from, end)[..from] == e[..from]
    decreases end - from
  {
    if from < end && HasNext(e[from]) {
      FreedKeepsBelow(e[from := FREE], from + 1, end);
      assert Freed(e, from, end)[..from] == Freed(e, from, end)[..from + 1][..from];
    }
  }

  /** What a free does from a byte on depends on the bytes from there on. */
  lemma {:induction false} FreedBehind(e: seq<bv8>, e': seq<bv8>, base: nat, from: nat, end: nat)
    requires base <= from && base <= end <= |e| == |e'| && e[base..] == e'[base..]
    ensures Freed(e, from, end)[base..] == Freed(e', from, end)[base..]
    decreases end - from
  {
    if from < end {
      assert e[from] == e[base..][from - base] && e'[from] == e'[base..][from - base];
      assert e[from := FREE][base..] == e[base..][from - base := FREE];
      assert e'[from := FREE][base..] == e'[base..][from - base := FREE];
      if HasNext(e[from]) {
        FreedBehind(e[from := FREE], e'[from := FREE], base, from + 1, end);
      }
    }
  }

  /** A free of an address below the heap leaves the table as it is exactly when some byte on the way to the table lacks
      HAS_NEXT, or there is no table to reach, or its first block is cleared already. */
  lemma StrayFreeKeepsTableExactlyWhen(e: seq<bv8>, from: nat, base: nat, length: nat)
    requires from <= base && base + length <= |e|
    ensures Freed(e, from, base + length)[base..base + length] == e[base..base + length]
       <==> StopsBefore(e, from, base) || length == 0 || e[base] == FREE
  {
    var end, after := base + length, Freed(e, from, base + length);
    FreedStops(e, from, base, end);
    hide StopsBefore;
    assert after[base..end] == after[base..][..length] && e[base..end] == e[base..][..length];
    if length > 0 {
      FreedClearsFirst(e, base, end);
      assert e[base] == e[base..end][0];
      if !StopsBefore(e, from, base) {
        assert after[base..end][0] == Freed(e, base, end)[base..][0];
        if e[base] == FREE {
          assert !HasNext(FREE) && e[base := FREE] == e;
        }
      }
    }
  }

  lemma FreedClearsFirst(e: seq<bv8>, from: nat, end: nat)
    requires from < end <= |e|
    ensures Freed(e, from, end)[from] == FREE
  {
    if HasNext(e[from]) {
      FreedKeepsBelow(e[from := FREE], from + 1, end);
      assert Freed(e, from, end)[from] == Freed(e, from, end)[..from + 1][from];
      assert e[from := FREE][..from + 1][from] == FREE;
    }
  }

  /** Freeing the same address again changes nothing, wherever it is. So only the first free of an address below the heap
      can reach the table. */
  lemma SecondFreeDoesNothing(e: seq<bv8>, from: nat, end: nat)
    requires end <= |e|
    ensures Freed(Freed(e, from, end), from, end) == Freed(e, from, end)
  {
    if from < end {
      var e' := Freed(e, from, end);
      FreedClearsFirst(e, from, end);
      assert e'[from := FREE] == e' && !HasNext(FREE);
    }
  }

  lemma TrailingFreeUnique(t: seq<bv8>, r: nat)
    requires r <= |t| && FreeRun(t, r, |t| - r)
    requires r > 0 ==> !IsFree(t[r - 1])
    ensures TrailingFree(t) == r
  {
    if |t| > 0 && IsFree(t[|t| - 1]) {
      assert r < |t|;
      TrailingFreeUnique(t[..|t| - 1], r);
    }
  }
}
