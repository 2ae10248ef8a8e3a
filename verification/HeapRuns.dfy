/** What the heap's byte table means: a set of disjoint allocations, and the allocator working on that set. */
module HeapRuns {
  import opened Machine
  import opened Heap

  /** Free blocks are zero, taken ones carry the TAKEN type; HAS_NEXT and continuation blocks chain up. */
  ghost predicate WellFormed(t: seq<bv8>) {
    forall i :: 0 <= i < |t| ==> BlockOk(t, i)
  }

  ghost predicate BlockOk(t: seq<bv8>, i: nat)
    requires i < |t|
  {
    && t[i] in {0x00, 0x01, 0x41, 0x81, 0xC1}
    && (HasNext(t[i]) ==> i + 1 < |t| && !IsFree(t[i + 1]) && !IsFirst(t[i + 1]))
    && (!IsFree(t[i]) && !IsFirst(t[i]) ==> i > 0 && HasNext(t[i - 1]))
  }

  function RunLength(t: seq<bv8>, s: nat): (n: nat)
    requires s < |t|
    ensures 1 <= n && s + n <= |t|
    decreases |t| - s
  {
    if HasNext(t[s]) && s + 1 < |t| then 1 + RunLength(t, s + 1) else 1
  }

  lemma TagBits(k: nat, n: nat)
    requires k < n
    ensures Tag(k, n) in {0x01, 0x41, 0x81, 0xC1} && !IsFree(Tag(k, n))
    ensures (IsFirst(Tag(k, n)) <==> k == 0) && (HasNext(Tag(k, n)) <==> k < n - 1)
  {
  }

  /** The allocations the table encodes, from first block to length. */
  ghost function Runs(t: seq<bv8>): map<nat, nat> {
    map s: nat | s < |t| && IsFirst(t[s]) :: RunLength(t, s)
  }

  /** Block i belongs to the allocation starting at s. */
  ghost predicate InRun(live: map<nat, nat>, s: nat, i: int) {
    s in live && s <= i < s + live[s]
  }

  ghost predicate Covered(live: map<nat, nat>, i: int) {
    exists s: nat :: InRun(live, s, i)
  }

  // ---------- The table splits uniquely into runs ----------

  lemma {:induction false} RunLengthOfSuffix(t: seq<bv8>, t': seq<bv8>, s: nat)
    requires s < |t| == |t'| && t[s..] == t'[s..]
    ensures RunLength(t, s) == RunLength(t', s)
    decreases |t| - s
  {
    assert t[s] == t[s..][0] && t'[s] == t'[s..][0];
    if HasNext(t[s]) && s + 1 < |t| {
      assert t[s + 1..] == t[s..][1..] && t'[s + 1..] == t'[s..][1..];
      RunLengthOfSuffix(t, t', s + 1);
    }
  }

  /** Inside a run every block but the last has HAS_NEXT, and only the first can have IS_FIRST. */
  lemma {:induction false} RunShape(t: seq<bv8>, s: nat, k: nat)
    requires WellFormed(t) && s < |t| && !IsFree(t[s]) && k < RunLength(t, s)
    ensures !IsFree(t[s + k])
    ensures HasNext(t[s + k]) <==> k < RunLength(t, s) - 1
    ensures k > 0 ==> !IsFirst(t[s + k])
    decreases k
  {
    assert BlockOk(t, s);
    if k > 0 {
      assert BlockOk(t, s + 1);
      RunShape(t, s + 1, k - 1);
    }
  }

  /** The block where the allocation holding block i starts. */
  ghost function RunStart(t: seq<bv8>, i: nat): (s: nat)
    requires WellFormed(t) && i < |t| && !IsFree(t[i])
    ensures InRun(Runs(t), s, i)
    decreases i
  {
    assert BlockOk(t, i);
    if IsFirst(t[i]) then i
    else
      assert BlockOk(t, i - 1);
      var s := RunStart(t, i - 1);
      FirstIsTaken(t, s);
      RunShape(t, s, i - 1 - s);
      s
  }

  lemma FirstIsTaken(t: seq<bv8>, s: nat)
    requires WellFormed(t) && s < |t| && IsFirst(t[s])
    ensures !IsFree(t[s])
  {
    assert BlockOk(t, s);
  }

  lemma RunsAreTaken(t: seq<bv8>, s: nat, i: nat)
    requires WellFormed(t) && InRun(Runs(t), s, i)
    ensures i < |t| && !IsFree(t[i]) && (IsFirst(t[i]) <==> i == s)
  {
    FirstIsTaken(t, s);
    RunShape(t, s, i - s);
  }

  /** Every taken block lies in exactly one run, and no free block lies in any. */
  lemma RunsPartitionTakenBlocks(t: seq<bv8>, i: nat)
    requires WellFormed(t) && i < |t|
    ensures !IsFree(t[i]) <==> Covered(Runs(t), i)
    ensures forall s: nat, s': nat :: InRun(Runs(t), s, i) && InRun(Runs(t), s', i) ==> s == s'
  {
    if !IsFree(t[i]) {
      var s := RunStart(t, i);
      assert InRun(Runs(t), s, i);
    }
    forall s: nat | InRun(Runs(t), s, i) ensures !IsFree(t[i]) {
      RunsAreTaken(t, s, i);
    }
    forall s: nat, s': nat | InRun(Runs(t), s, i) && InRun(Runs(t), s', i) && s <= s'
      ensures s == s'
    {
      RunsAreTaken(t, s, s');
    }
  }

  /** The table holds nothing beyond its runs: two well-formed tables with the same runs are equal. */
  lemma RunsDetermineTable(t: seq<bv8>, t': seq<bv8>)
    requires WellFormed(t) && WellFormed(t') && |t| == |t'| && Runs(t) == Runs(t')
    ensures t == t'
  {
    forall i | 0 <= i < |t| ensures t[i] == t'[i] {
      RunsPartitionTakenBlocks(t, i);
      RunsPartitionTakenBlocks(t', i);
      assert BlockOk(t, i) && BlockOk(t', i);
      if !IsFree(t[i]) {
        var s := RunStart(t, i);
        RunsAreTaken(t, s, i); RunsAreTaken(t', s, i);
        FirstIsTaken(t, s); FirstIsTaken(t', s);
        RunShape(t, s, i - s); RunShape(t', s, i - s);
      }
    }
  }

  // ---------- Malloc adds one run, free removes one ----------

  lemma TakenRunLength(t: seq<bv8>, s: nat, n: nat, k: nat)
    requires s + n <= |t| && k < n
    ensures RunLength(Taken(t, s, n), s + k) == n - k
    decreases n - k
  {
    var t' := Taken(t, s, n);
    assert t'[s + k] == Tag(k, n);
    if k < n - 1 {
      TakenRunLength(t, s, n, k + 1);
    }
  }

  /** Outside a freshly taken run no run reaches into it, so run lengths are unchanged. */
  lemma {:induction false} TakenKeepsOtherRuns(t: seq<bv8>, s: nat, n: nat, i: nat)
    requires WellFormed(t) && FreeRun(t, s, n) && i < |t| && !IsFree(t[i])
    ensures !(s <= i < s + n) && RunLength(Taken(t, s, n), i) == RunLength(t, i)
    decreases |t| - i
  {
    assert BlockOk(t, i);
    if HasNext(t[i]) {
      TakenKeepsOtherRuns(t, s, n, i + 1);
    }
  }

  lemma TakenBlockOk(t: seq<bv8>, s: nat, n: nat, i: nat)
    requires WellFormed(t) && FreeRun(t, s, n) && i < |t|
    ensures BlockOk(Taken(t, s, n), i)
  {
    assert BlockOk(t, i);
    if i > 0 { assert BlockOk(t, i - 1); }
    if s <= i < s + n { TagBits(i - s, n); }
    if s <= i + 1 < s + n { TagBits(i + 1 - s, n); }
    if s <= i - 1 < s + n { TagBits(i - 1 - s, n); }
  }

  lemma TakenAddsRun(t: seq<bv8>, s: nat, n: nat)
    requires WellFormed(t) && n > 0 && FreeRun(t, s, n)
    ensures WellFormed(Taken(t, s, n))
    ensures Runs(Taken(t, s, n)) == Runs(t)[s := n]
  {
    var t' := Taken(t, s, n);
    forall i | 0 <= i < |t| ensures BlockOk(t', i) {
      TakenBlockOk(t, s, n, i);
    }
    TakenRunLength(t, s, n, 0);
    TagBits(0, n);
    forall i: nat | i < |t|
      ensures IsFirst(t'[i]) <==> i == s || IsFirst(t[i])
      ensures IsFirst(t[i]) ==> i != s && RunLength(t', i) == RunLength(t, i)
    {
      assert BlockOk(t, i);
      if s <= i < s + n { TagBits(i - s, n); }
      if IsFirst(t[i]) { TakenKeepsOtherRuns(t, s, n, i); }
    }
  }

  lemma {:induction false} FreedClearsRun(t: seq<bv8>, s: nat, i: nat)
    requires s < |t| && i < |t|
    ensures Freed(t, s, |t|)[i] == if s <= i < s + RunLength(t, s) then FREE else t[i]
    decreases |t| - s
  {
    if HasNext(t[s]) && s + 1 < |t| {
      var u := t[s := FREE];
      assert u[s + 1..] == t[s + 1..];
      RunLengthOfSuffix(u, t, s + 1);
      FreedClearsRun(u, s + 1, i);
    }
  }

  lemma {:induction false} FreedKeepsOtherRuns(t: seq<bv8>, s: nat, i: nat)
    requires WellFormed(t) && s in Runs(t) && i < |t| && !IsFree(t[i]) && !InRun(Runs(t), s, i)
    ensures RunLength(Freed(t, s, |t|), i) == RunLength(t, i)
    decreases |t| - i
  {
    FreedClearsRun(t, s, i);
    assert BlockOk(t, i);
    if HasNext(t[i]) {
      if InRun(Runs(t), s, i + 1) { RunsAreTaken(t, s, i + 1); }
      FreedKeepsOtherRuns(t, s, i + 1);
    }
  }

  lemma {:induction false} FreedRemovesRun(t: seq<bv8>, s: nat)
    requires WellFormed(t) && s in Runs(t)
    ensures WellFormed(Freed(t, s, |t|))
    ensures Runs(Freed(t, s, |t|)) == Runs(t) - {s}
  {
    var t' := Freed(t, s, |t|);
    forall i | 0 <= i < |t|
      ensures t'[i] == if InRun(Runs(t), s, i) then FREE else t[i]
    {
      FreedClearsRun(t, s, i);
    }
    forall i | 0 <= i < |t| ensures BlockOk(t', i) {
      FreedKeepsBlockOk(t, s, i);
    }
    forall i: nat | i < |t|
      ensures IsFirst(t'[i]) <==> i != s && IsFirst(t[i])
      ensures i != s && IsFirst(t[i]) ==> RunLength(t', i) == RunLength(t, i)
    {
      if InRun(Runs(t), s, i) {
        RunsAreTaken(t, s, i);
      } else if IsFirst(t[i]) {
        FirstIsTaken(t, i);
        FreedKeepsOtherRuns(t, s, i);
      }
    }
  }

  lemma FreedKeepsBlockOk(t: seq<bv8>, s: nat, i: nat)
    requires WellFormed(t) && s in Runs(t) && i < |t|
    ensures BlockOk(Freed(t, s, |t|), i)
  {
    FreedClearsRun(t, s, i);
    assert BlockOk(t, i);
    if i + 1 < |t| { FreedClearsRun(t, s, i + 1); }
    if i > 0 { FreedClearsRun(t, s, i - 1); }
    FirstIsTaken(t, s);
    if !InRun(Runs(t), s, i) {
      if InRun(Runs(t), s, i + 1) { RunsAreTaken(t, s, i + 1); }
      if i > 0 && InRun(Runs(t), s, i - 1) { RunShape(t, s, i - 1 - s); }
    }
  }

  /** Freeing what was just allocated restores the table, byte for byte. */
  lemma MallocThenFreeRestores(t: seq<bv8>, s: nat, n: nat)
    requires WellFormed(t) && n > 0 && FreeRun(t, s, n)
    ensures Freed(Taken(t, s, n), s, |t|) == t
  {
    TakenRunLength(t, s, n, 0);
    forall i | 0 <= i < |t| ensures Freed(Taken(t, s, n), s, |t|)[i] == t[i] {
      FreedClearsRun(Taken(t, s, n), s, i);
      assert BlockOk(t, i);
    }
  }

  /** An answer inside the table is really taken exactly for sizes from 1 to 0xFFFFF000: no bytes, and sizes
      that wrap to none when rounded up, take no block at all. */
  lemma AnswerIsTakenExactlyWhen(t: seq<bv8>, size: uint32)
    requires var s := StartBlock(t, BlocksFor(size)); s >= 0 && s + BlocksFor(size) <= |t|
    ensures var s, n := StartBlock(t, BlocksFor(size)), BlocksFor(size);
      && s < |t| && IsFree(t[s])
      && (!IsFree(Taken(t, s, n)[s]) <==> 0 < size <= 0xFFFF_F000)
      && (!(0 < size <= 0xFFFF_F000) ==> n == 0 && Taken(t, s, n) == t)
  {
    var s, n := StartBlock(t, BlocksFor(size)), BlocksFor(size);
    FirstFitIsLowest(t, n, 0);
    if n > 0 {
      TagBits(0, n);
      assert FirstFit(t, n, 0) == -1 ==> FreeRun(t, s, n);
      assert FreeRun(t, s, n);
    } else {
      assert FreeRun(t, s, |t| - s);
    }
  }

  lemma {:induction false} ShortRunLength(t: seq<bv8>, s: nat, n: nat, k: nat)
    requires s + n > |t| && s + k < |t|
    ensures RunLength(Taken(t, s, n), s + k) == |t| - s - k
    decreases |t| - s - k
  {
    var t' := Taken(t, s, n);
    assert t'[s + k] == Tag(k, n);
    TagBits(k, n);
    if s + k + 1 < |t| {
      ShortRunLength(t, s, n, k + 1);
    }
  }

  /** An answer that is too short runs off the end of the table: the last block says another one follows. */
  lemma ShortRunIsIllFormed(t: seq<bv8>, s: nat, n: nat)
    requires s < |t| < s + n
    ensures !WellFormed(Taken(t, s, n))
  {
    var i := |t| - 1;
    TagBits(i - s, n);
    assert Taken(t, s, n)[i] == Tag(i - s, n);
    assert !BlockOk(Taken(t, s, n), i);
  }

  /** Freeing it restores the table. */
  lemma ShortRunFreeRestores(t: seq<bv8>, s: nat, n: nat)
    requires WellFormed(t) && s < |t| < s + n && FreeRun(t, s, |t| - s)
    ensures Freed(Taken(t, s, n), s, |t|) == t
  {
    ShortRunLength(t, s, n, 0);
    forall i | 0 <= i < |t|
      ensures Freed(Taken(t, s, n), s, |t|)[i] == t[i]
    {
      FreedClearsRun(Taken(t, s, n), s, i);
      assert BlockOk(t, i);
    }
  }

  // ---------- The byte table refines an allocator on sets of runs ----------

  datatype Op = MallocBlocks(n: nat) | FreeBlocks(s: nat)

  ghost predicate Clear(live: map<nat, nat>, length: nat, s: int, n: nat) {
    0 <= s <= s + n <= length && forall i :: s <= i < s + n ==> !Covered(live, i)
  }

  /** The lowest clear stretch, or -1. */
  ghost function LowestClear(live: map<nat, nat>, length: nat, n: nat, from: nat): int
    decreases length - from
  {
    if from + n > length then -1
    else if Clear(live, length, from, n) then from
    else if from == length then -1
    else LowestClear(live, length, n, from + 1)
  }

  /** One operation on the live allocations alone. */
  ghost function StepLive(live: map<nat, nat>, length: nat, op: Op): map<nat, nat> {
    match op
    case MallocBlocks(n) =>
      var s := LowestClear(live, length, n, 0);
      if s < 0 then live else live[s as nat := n]
    case FreeBlocks(s) => live - {s}
  }

  /** A request the allocator answers rightly; a free of something live. */
  ghost predicate Legal(live: map<nat, nat>, length: nat, op: Op) {
    match op
    case MallocBlocks(n) =>
      && n > 0
      && (LowestClear(live, length, n, 0) != -1 || length == 0 || Covered(live, length - 1))
    case FreeBlocks(s) => s in live
  }

  /** The same operation on the byte table. */
  ghost function StepTable(t: seq<bv8>, op: Op): seq<bv8>
    requires op.MallocBlocks? ==> StartBlock(t, op.n) + op.n <= |t| || StartBlock(t, op.n) < 0
  {
    match op
    case MallocBlocks(n) => if StartBlock(t, n) < 0 then t else Taken(t, StartBlock(t, n), n)
    case FreeBlocks(s) => Freed(t, s, |t|)
  }

  lemma {:induction false} LowestClearIsFirstFit(t: seq<bv8>, n: nat, from: nat)
    requires WellFormed(t) && n > 0
    ensures LowestClear(Runs(t), |t|, n, from) == FirstFit(t, n, from)
    decreases |t| - from
  {
    forall i: nat | i < |t| ensures IsFree(t[i]) <==> !Covered(Runs(t), i) {
      RunsPartitionTakenBlocks(t, i);
    }
    if from + n <= |t| {
      assert FreeRun(t, from, n) <==> Clear(Runs(t), |t|, from, n);
      if !FreeRun(t, from, n) {
        LowestClearIsFirstFit(t, n, from + 1);
      }
    }
  }

  lemma StepRefines(t: seq<bv8>, op: Op)
    requires WellFormed(t) && Legal(Runs(t), |t|, op)
    ensures op.MallocBlocks? ==> StartBlock(t, op.n) + op.n <= |t| || StartBlock(t, op.n) < 0
    ensures var t' := StepTable(t, op);
            |t'| == |t| && WellFormed(t') && Runs(t') == StepLive(Runs(t), |t|, op)
  {
    match op
    case MallocBlocks(n) =>
      LowestClearIsFirstFit(t, n, 0);
      FirstFitIsLowest(t, n, 0);
      if FirstFit(t, n, 0) != -1 {
        TakenAddsRun(t, FirstFit(t, n, 0), n);
      } else if |t| > 0 {
        RunsPartitionTakenBlocks(t, |t| - 1);
      }
    case FreeBlocks(s) =>
      FreedRemovesRun(t, s);
  }

  ghost predicate LegalRun(live: map<nat, nat>, length: nat, ops: seq<Op>)
    decreases |ops|
  {
    ops == [] || (Legal(live, length, ops[0]) && LegalRun(StepLive(live, length, ops[0]), length, ops[1..]))
  }

  ghost function ExecLive(live: map<nat, nat>, length: nat, ops: seq<Op>): map<nat, nat>
    decreases |ops|
  {
    if ops == [] then live else ExecLive(StepLive(live, length, ops[0]), length, ops[1..])
  }

  ghost function ExecTable(t: seq<bv8>, ops: seq<Op>): seq<bv8>
    requires WellFormed(t) && LegalRun(Runs(t), |t|, ops)
    decreases |ops|
  {
    if ops == [] then t
    else
      StepRefines(t, ops[0]);
      ExecTable(StepTable(t, ops[0]), ops[1..])
  }

  /** Over any run of allocations and frees of live results the table stays well formed and decodes to
      exactly the allocations that the set-of-runs allocator has live. */
  lemma {:induction false} EveryRunRefines(t: seq<bv8>, ops: seq<Op>)
    requires WellFormed(t) && LegalRun(Runs(t), |t|, ops)
    ensures var t' := ExecTable(t, ops);
            |t'| == |t| && WellFormed(t') && Runs(t') == ExecLive(Runs(t), |t|, ops)
    decreases |ops|
  {
    if ops != [] {
      StepRefines(t, ops[0]);
      EveryRunRefines(StepTable(t, ops[0]), ops[1..]);
    }
  }

  /** A new table is well formed and empty, so every legal run may start from it. */
  lemma {:induction false} FreshTableIsEmpty(length: nat)
    ensures WellFormed(seq(length, _ => FREE)) && Runs(seq(length, _ => FREE)) == map[]
  {
    var t := seq(length, _ => FREE);
    forall i: nat | i < |t| ensures BlockOk(t, i) && !IsFirst(t[i]) {
    }
  }
}
