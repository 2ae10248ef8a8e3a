/** The keyboard ring of a process. Both counters are free-running 32-bit words; only their remainder modulo
    the buffer size is used as an index. */
module Keyboard {
  import opened Machine

  const BUFFER_SIZE := 1024

  /** The buffer position of the key k places after counter value `head`. */
  function SlotOf(head: uint32, k: nat): (slot: nat)
    ensures slot < BUFFER_SIZE
  {
    (head + k) % BUFFER_SIZE
  }

  lemma SlotsAreDistinct(head: uint32, j: nat, k: nat)
    requires j < BUFFER_SIZE && k < BUFFER_SIZE && j != k
    ensures SlotOf(head, j) != SlotOf(head, k)
  {
  }

  /** The counters may wrap, because the buffer size divides 2^32. */
  lemma {:induction false} SlotSurvivesWrap(head: uint32, d: int, k: nat)
    requires k + d >= 0
    ensures SlotOf(Wrap(head + d), k) == SlotOf(head, k + d)
  {
    var q := (head + d) / 0x1_0000_0000;
    assert Wrap(head + d) == head + d - BUFFER_SIZE * (q * 0x40_0000);
    assert head + d + k == Wrap(head + d) + k + BUFFER_SIZE * (q * 0x40_0000);
    ModOfSum(Wrap(head + d) + k, q * 0x40_0000);
  }

  lemma ModOfSum(x: int, m: int)
    ensures (x + BUFFER_SIZE * m) % BUFFER_SIZE == x % BUFFER_SIZE
  {
  }

  /** What the ring is for. */
  datatype Op = Push(c: uint8) | Pop | Backspace

  /** The outstanding keys after an operation. */
  function Step(queue: seq<uint8>, op: Op): seq<uint8> {
    match op
    case Push(c) => if c == 0 then queue else queue + [c]
    case Pop => if queue == [] then [] else queue[1..]
    case Backspace => if queue == [] then [] else queue[..|queue| - 1]
  }

  /** The ring has room for the key pushed, or a key to take back. */
  predicate Fits(queue: seq<uint8>, op: Op) {
    match op
    case Push(c) => c == 0 || |queue| < BUFFER_SIZE
    case Pop => true
    case Backspace => queue != []
  }

  predicate AllFit(queue: seq<uint8>, ops: seq<Op>)
    decreases |ops|
  {
    ops == [] || (Fits(queue, ops[0]) && AllFit(Step(queue, ops[0]), ops[1..]))
  }

  function Queue(queue: seq<uint8>, ops: seq<Op>): seq<uint8>
    decreases |ops|
  {
    if ops == [] then queue else Queue(Step(queue, ops[0]), ops[1..])
  }

  /** The keys delivered; a pop that finds nothing delivers none. */
  function Delivered(queue: seq<uint8>, ops: seq<Op>): seq<uint8>
    decreases |ops|
  {
    if ops == [] then []
    else
      (if ops[0].Pop? && queue != [] then [queue[0]] else [])
      + Delivered(Step(queue, ops[0]), ops[1..])
  }

  /** What was typed: pushes and backspaces applied to a line, as if nobody ever read from it. */
  function Typed(line: seq<uint8>, ops: seq<Op>): seq<uint8>
    decreases |ops|
  {
    if ops == [] then line else Typed(if ops[0].Pop? then line else Step(line, ops[0]), ops[1..])
  }

  /** An edit that fits touches only what is still outstanding. */
  lemma EditsAreLocal(read: seq<uint8>, queue: seq<uint8>, op: Op)
    requires Fits(queue, op) && !op.Pop?
    ensures Step(read + queue, op) == read + Step(queue, op)
  {
    assert op.Push? && op.c != 0 ==> read + queue + [op.c] == read + (queue + [op.c]);
    assert op.Backspace? ==> (read + queue)[..|read + queue| - 1] == read + queue[..|queue| - 1];
  }

  lemma PopDelivers(read: seq<uint8>, queue: seq<uint8>, ops: seq<Op>)
    requires ops != [] && ops[0].Pop? && queue != []
    ensures read + [queue[0]] + queue[1..] == read + queue
    ensures read + Delivered(queue, ops) == read + [queue[0]] + Delivered(queue[1..], ops[1..])
  {
  }

  /** First in, first out over every run that fits: the keys delivered, then those outstanding, are what was
      typed. In particular, reading never changes what is typed later. */
  lemma {:induction false} KeysArriveInOrder(read: seq<uint8>, queue: seq<uint8>, ops: seq<Op>)
    requires AllFit(queue, ops)
    ensures read + Delivered(queue, ops) + Queue(queue, ops) == Typed(read + queue, ops)
    decreases |ops|
  {
    if ops != [] {
      var op, queue', rest := ops[0], Step(queue, ops[0]), ops[1..];
      if op.Pop? && queue != [] {
        PopDelivers(read, queue, ops);
        KeysArriveInOrder(read + [queue[0]], queue', rest);
      } else {
        assert Delivered(queue, ops) == Delivered(queue', rest);
        KeysArriveInOrder(read, queue', rest);
        if op.Pop? {
          assert queue' == queue;
        } else {
          EditsAreLocal(read, queue, op);
        }
      }
    }
  }

  // ---------- What typing means, without the queue ----------

  /** The keys pushed, in order; key 0 is none. */
  function Pushed(ops: seq<Op>): seq<uint8>
    decreases |ops|
  {
    if ops == [] then []
    else (if ops[0].Push? && ops[0].c != 0 then [ops[0].c] else []) + Pushed(ops[1..])
  }

  /** Without backspaces, what is typed is the line and the keys pushed behind it, each as it was pushed. */
  lemma {:induction false} TypedIsPushed(line: seq<uint8>, ops: seq<Op>)
    requires forall i :: 0 <= i < |ops| ==> !ops[i].Backspace?
    ensures Typed(line, ops) == line + Pushed(ops)
    decreases |ops|
  {
    assert line + [] == line;
    if ops != [] {
      var key := if ops[0].Push? && ops[0].c != 0 then [ops[0].c] else [];
      TypedIsPushed(line + key, ops[1..]);
      assert line + key + Pushed(ops[1..]) == line + (key + Pushed(ops[1..]));
    }
  }

  /** A backspace takes back exactly the key pushed before it: what was typed is as if neither had been. */
  lemma {:induction false} BackspaceCancels(line: seq<uint8>, before: seq<Op>, c: uint8, after: seq<Op>)
    requires c != 0
    ensures Typed(line, before + [Push(c), Backspace] + after) == Typed(line, before + after)
    decreases |before|
  {
    var all := before + [Push(c), Backspace] + after;
    if before == [] {
      assert all[0] == Push(c) && all[1..] == [Backspace] + after && all[1..][1..] == after;
      assert before + after == after && (line + [c])[..|line|] == line;
    } else {
      var line' := if before[0].Pop? then line else Step(line, before[0]);
      assert all[0] == before[0] && all[1..] == before[1..] + [Push(c), Backspace] + after;
      assert (before + after)[0] == before[0] && (before + after)[1..] == before[1..] + after;
      BackspaceCancels(line', before[1..], c, after);
    }
  }

  /** So over any run without backspaces that fits, starting with nothing typed, the keys delivered and then those
      outstanding are the keys pushed. */
  lemma DeliveredIsPushed(ops: seq<Op>)
    requires AllFit([], ops) && forall i :: 0 <= i < |ops| ==> !ops[i].Backspace?
    ensures Delivered([], ops) + Queue([], ops) == Pushed(ops)
  {
    KeysArriveInOrder([], [], ops);
    TypedIsPushed([], ops);
    assert [] + Delivered([], ops) == Delivered([], ops) && [] + Pushed(ops) == Pushed(ops);
  }

  /** The ring holds these outstanding keys, oldest first, and zeroes everywhere else. */
  ghost predicate RingHolds(slots: seq<uint8>, head: uint32, tail: uint32, queue: seq<uint8>) {
    && |slots| == BUFFER_SIZE
    && |queue| <= BUFFER_SIZE
    && tail == Wrap(head + |queue|)
    && (forall k :: 0 <= k < |queue| ==> queue[k] != 0)
    && forall k :: 0 <= k < BUFFER_SIZE ==> slots[SlotOf(head, k)] == if k < |queue| then queue[k] else 0
  }

  /** The counters give the number of keys away, so they show when a ring holds no queue at all. */
  lemma GapIsLength(slots: seq<uint8>, head: uint32, tail: uint32, queue: seq<uint8>)
    requires RingHolds(slots, head, tail, queue)
    ensures |queue| == Wrap(tail - head)
  {
  }

  lemma HoldsNoQueue(slots: seq<uint8>, head: uint32, tail: uint32)
    requires Wrap(tail - head) > BUFFER_SIZE
    ensures forall queue :: !RingHolds(slots, head, tail, queue)
  {
    forall queue: seq<uint8> | RingHolds(slots, head, tail, queue)
      ensures false
    {
      GapIsLength(slots, head, tail, queue);
    }
  }

  lemma OverfullHoldsNoQueue(slots: seq<uint8>, head: uint32, tail: uint32)
    requires tail == Wrap(head + BUFFER_SIZE + 1)
    ensures forall queue :: !RingHolds(slots, head, tail, queue)
  {
    WrapOfWrap(head + BUFFER_SIZE + 1, -(head as int));
    HoldsNoQueue(slots, head, tail);
  }

  lemma WrapOfWrap(x: int, d: int)
    ensures Wrap(Wrap(x) + d) == Wrap(x + d)
  {
    assert x + d == Wrap(x) + d + 0x1_0000_0000 * (x / 0x1_0000_0000);
  }

  /** Two queues held by the same ring are the same. */
  lemma {:induction false} HoldsOneQueue(slots: seq<uint8>, head: uint32, tail: uint32, queue: seq<uint8>,
                                         other: seq<uint8>)
    requires RingHolds(slots, head, tail, queue) && RingHolds(slots, head, tail, other)
    ensures queue == other
  {
    GapIsLength(slots, head, tail, queue);
    GapIsLength(slots, head, tail, other);
    forall k | 0 <= k < |queue|
      ensures queue[k] == other[k]
    {
      assert slots[SlotOf(head, k)] == queue[k];
    }
  }

  lemma PushHolds(slots: seq<uint8>, head: uint32, tail: uint32, queue: seq<uint8>, c: uint8)
    requires RingHolds(slots, head, tail, queue) && c != 0 && |queue| < BUFFER_SIZE
    ensures RingHolds(slots[tail % BUFFER_SIZE := c], head, Wrap(tail + 1), queue + [c])
  {
    var n := |queue|;
    SlotSurvivesWrap(head, n, 0);
    WrapOfWrap(head + n, 1);
    assert tail % BUFFER_SIZE == SlotOf(head, n);
    SlotsApart(head, n);
    hide SlotOf, Wrap;
    assert Wrap(tail + 1) == Wrap(head + |queue + [c]|);
  }

  lemma BackspaceHolds(slots: seq<uint8>, head: uint32, tail: uint32, queue: seq<uint8>)
    requires RingHolds(slots, head, tail, queue) && queue != []
    ensures RingHolds(slots[Wrap(tail - 1) % BUFFER_SIZE := 0], head, Wrap(tail - 1), queue[..|queue| - 1])
  {
    var n := |queue| - 1;
    WrapOfWrap(head + n + 1, -1);
    SlotSurvivesWrap(head, n, 0);
    assert Wrap(tail - 1) % BUFFER_SIZE == SlotOf(head, n);
    SlotsApart(head, n);
    hide SlotOf, Wrap;
    assert Wrap(tail - 1) == Wrap(head + |queue[..n]|);
  }

  lemma SlotsShift(head: uint32, next: uint32)
    requires next == Wrap(head + 1)
    ensures forall k :: 0 <= k < BUFFER_SIZE ==>
        SlotOf(next, k) == SlotOf(head, if k == BUFFER_SIZE - 1 then 0 else k + 1)
  {
    forall k | 0 <= k < BUFFER_SIZE
      ensures SlotOf(next, k) == SlotOf(head, if k == BUFFER_SIZE - 1 then 0 else k + 1)
    {
      SlotShifts(head, next, k);
    }
  }

  lemma SlotShifts(head: uint32, next: uint32, k: nat)
    requires next == Wrap(head + 1) && k < BUFFER_SIZE
    ensures SlotOf(next, k) == SlotOf(head, if k == BUFFER_SIZE - 1 then 0 else k + 1)
  {
    SlotSurvivesWrap(head, 1, k);
    assert k == BUFFER_SIZE - 1 ==> head + 1 + k == head + BUFFER_SIZE;
  }

  lemma PopHolds(slots: seq<uint8>, head: uint32, tail: uint32, queue: seq<uint8>)
    requires RingHolds(slots, head, tail, queue) && queue != []
    ensures slots[head % BUFFER_SIZE] == queue[0]
    ensures RingHolds(slots[head % BUFFER_SIZE := 0], Wrap(head + 1), tail, queue[1..])
  {
    assert head % BUFFER_SIZE == SlotOf(head, 0);
    WrapOfWrap(head + 1, |queue| - 1);
    SlotsApart(head, 0);
    assert slots[SlotOf(head, 0)] == queue[0];
    var next := Wrap(head + 1);
    SlotsShift(head, next);
    hide SlotOf, Wrap;
    var left, rest := slots[head % BUFFER_SIZE := 0], queue[1..];
    assert tail == Wrap(next + |rest|);
    forall k | 0 <= k < BUFFER_SIZE
      ensures left[SlotOf(next, k)] == if k < |rest| then rest[k] else 0
    {
      if k < BUFFER_SIZE - 1 {
        assert slots[SlotOf(head, k + 1)] == if k + 1 < |queue| then queue[k + 1] else 0;
      }
    }
  }

  lemma EmptyRing(slots: seq<uint8>, head: uint32, tail: uint32, queue: seq<uint8>)
    requires RingHolds(slots, head, tail, queue)
    ensures slots[head % BUFFER_SIZE] == 0 <==> queue == []
  {
    assert head % BUFFER_SIZE == SlotOf(head, 0);
  }

  lemma SlotsApart(head: uint32, k: nat)
    requires k < BUFFER_SIZE
    ensures forall j :: 0 <= j < BUFFER_SIZE && j != k ==> SlotOf(head, j) != SlotOf(head, k)
  {
    forall j | 0 <= j < BUFFER_SIZE && j != k
      ensures SlotOf(head, j) != SlotOf(head, k)
    {
      SlotsAreDistinct(head, j, k);
    }
  }

  class KeyboardBuffer {
    const buffer: array<uint8>
    var tail: uint32
    var head: uint32

    ghost predicate Holds(queue: seq<uint8>)
      reads this, buffer
    {
      RingHolds(buffer[..], head, tail, queue)
    }

    /** Some queue describes the ring. */
    ghost predicate IsQueue()
      reads this, buffer
    {
      exists queue :: Holds(queue)
    }

    constructor ()
      ensures Holds([]) && fresh(buffer)
    {
      buffer := new uint8[BUFFER_SIZE](_ => 0);
      tail, head := 0, 0;
    }

    /** `keyboard_get_tail_idx`. */
    function TailIndex(): nat
      reads this
    {
      tail % BUFFER_SIZE
    }

    /** `keyboard_backspace`: takes back the newest key. Taking a key back from an empty ring puts the tail
        behind the head, and no queue describes the ring any more. */
    static method Backspace(proc: KeyboardBuffer, ghost queue: seq<uint8>)
      requires proc.Holds(queue)
      modifies proc, proc.buffer
      ensures Fits(queue, Op.Backspace) ==> proc.Holds(Step(queue, Op.Backspace))
      ensures proc.IsQueue() <==> Fits(queue, Op.Backspace)
    {
      ghost var before, head, tail := proc.buffer[..], proc.head, proc.tail;
      proc.tail := Wrap(proc.tail - 1);
      var idx := proc.TailIndex();
      proc.buffer[idx] := 0;
      assert proc.buffer[..] == before[idx := 0];
      if queue == [] {
        assert tail == head;
        HoldsNoQueue(proc.buffer[..], head, proc.tail);
      } else {
        BackspaceHolds(before, head, tail, queue);
        assert proc.Holds(Step(queue, Op.Backspace));
      }
    }

    /** `keyboard_push`, given the current process. The 1025th outstanding key overwrites the oldest one and
        leaves a ring no queue describes. */
    static method Push(proc: KeyboardBuffer?, c: uint8, ghost queue: seq<uint8>)
      requires proc != null ==> proc.Holds(queue)
      modifies proc, if proc == null then {} else {proc.buffer}
      ensures proc != null && Fits(queue, Op.Push(c)) ==> proc.Holds(Step(queue, Op.Push(c)))
      ensures proc != null ==> (proc.IsQueue() <==> Fits(queue, Op.Push(c)))
    {
      if proc == null || c == 0 {
        assert proc != null ==> proc.Holds(queue);
        return;
      }
      ghost var before, head, tail := proc.buffer[..], proc.head, proc.tail;
      assert proc.buffer.Length == BUFFER_SIZE && |queue| <= BUFFER_SIZE && tail == Wrap(head + |queue|);
      hide RingHolds, Wrap;
      var idx := proc.TailIndex();
      proc.buffer[idx] := c;
      proc.tail := Wrap(proc.tail + 1);
      assert proc.buffer[..] == before[idx := c];
      if |queue| == BUFFER_SIZE {
        WrapOfWrap(head + BUFFER_SIZE, 1);
        OverfullHoldsNoQueue(proc.buffer[..], head, proc.tail);
      } else {
        PushHolds(before, head, tail, queue, c);
        assert proc.Holds(Step(queue, Op.Push(c)));
      }
    }

    /** `keyboard_pop`, given the process of the current task: the oldest key, or 0 exactly when none is
        outstanding. */
    static method Pop(proc: KeyboardBuffer?, ghost queue: seq<uint8>) returns (c: uint8)
      requires proc != null ==> proc.Holds(queue)
      modifies proc, if proc == null then {} else {proc.buffer}
      ensures c == if proc == null || queue == [] then 0 else queue[0]
      ensures proc != null ==> proc.Holds(Step(queue, Op.Pop)) && (c == 0 <==> queue == [])
    {
      if proc == null {
        return 0;
      }
      ghost var before, head, tail := proc.buffer[..], proc.head, proc.tail;
      EmptyRing(before, head, tail, queue);
      var idx := proc.head % BUFFER_SIZE;
      c := proc.buffer[idx];
      if c == 0 {
        return 0;
      }
      PopHolds(before, head, tail, queue);
      proc.buffer[idx] := 0;
      proc.head := Wrap(proc.head + 1);
      assert proc.buffer[..] == before[idx := 0];
    }

    /** A run of the three operations on the ring of one process. */
    static method Run(proc: KeyboardBuffer, ops: seq<Op>, ghost queue: seq<uint8>) returns (read: seq<uint8>)
      requires proc.Holds(queue) && AllFit(queue, ops)
      modifies proc, proc.buffer
      ensures proc.Holds(Queue(queue, ops))
      ensures read == Delivered(queue, ops)
      decreases |ops|
    {
      hide RingHolds;
      if ops == [] {
        return [];
      }
      var c: uint8 := 0;
      match ops[0] {
        case Push(key) => Push(proc, key, queue);
        case Pop => c := Pop(proc, queue);
        case Backspace => Backspace(proc, queue);
      }
      read := Run(proc, ops[1..], Step(queue, ops[0]));
      if c != 0 {
        read := [c] + read;
      }
    }
  }
}
