/** Taking turns in a circle that may grow. */
module RoundRobin {

  /** The position after i in a list of n, going back to the start at the end. */
  function NextIndex(n: nat, i: nat): (j: nat)
    requires i < n
    ensures j < n
  {
    if i + 1 == n then 0 else i + 1
  }

  /** How many steps it takes to get from i to j, at least one. */
  function Distance(n: nat, i: nat, j: nat): (d: nat)
    requires i < n && j < n
    ensures 1 <= d <= n
  {
    if i < j then j - i else j + n - i
  }

  function Advance(n: nat, i: nat, k: nat): (j: nat)
    requires i < n
    ensures j < n
    decreases k
  {
    if k == 0 then i else Advance(n, NextIndex(n, i), k - 1)
  }

  /** Tasks take their turns in the order of the list: k steps from i on, it is the turn of the task k places behind,
      counted round. */
  lemma {:induction false} TurnsAreInOrder(n: nat, i: nat, k: nat)
    requires i < n && k <= n
    ensures Advance(n, i, k) == if i + k < n then i + k else i + k - n
    decreases k
  {
    if k > 0 {
      TurnsAreInOrder(n, NextIndex(n, i), k - 1);
    }
  }

  lemma {:induction false} AdvanceReaches(n: nat, i: nat, j: nat, k: nat)
    requires i < n && j < n && 1 <= k <= n
    ensures Advance(n, i, k) == j <==> k == Distance(n, i, j)
    decreases k
  {
    var next := NextIndex(n, i);
    if k > 1 {
      AdvanceReaches(n, next, j, k - 1);
    } else {
      assert Advance(n, next, 0) == next;
    }
  }

  predicate RunsWithinRound(n: nat, i: nat, j: nat)
    requires i < n
  {
    exists k :: 1 <= k <= n && Advance(n, i, k) == j
  }

  /** In n steps every one of the n tasks runs exactly once, and the last to run is the one that started. */
  lemma RoundRunsEveryTaskOnce(n: nat, i: nat)
    requires i < n
    ensures forall j :: 0 <= j < n ==> RunsWithinRound(n, i, j)
    ensures forall k, l {:trigger Advance(n, i, k), Advance(n, i, l)} :: 1 <= k < l <= n ==> Advance(n, i, k) != Advance(n, i, l)
    ensures Advance(n, i, n) == i
  {
    forall j | 0 <= j < n
      ensures RunsWithinRound(n, i, j)
    {
      AdvanceReaches(n, i, j, Distance(n, i, j));
    }
    forall k, l {:trigger Advance(n, i, k), Advance(n, i, l)} | 1 <= k < l <= n
      ensures Advance(n, i, k) != Advance(n, i, l)
    {
      AdvanceReaches(n, i, Advance(n, i, k), k);
      AdvanceReaches(n, i, Advance(n, i, k), l);
    }
    AdvanceReaches(n, i, i, n);
  }

  /** What happens to the list while the system runs: tasks are created, and timer ticks pass the processor on. */
  datatype Event = Create | Tick

  /** The positions given the processor, from position i of a list of n. */
  function Trace(n: nat, i: nat, events: seq<Event>): (trace: seq<nat>)
    requires i < n
    decreases |events|
  {
    if events == [] then []
    else if events[0].Create? then Trace(n + 1, i, events[1..])
    else [NextIndex(n, i)] + Trace(n, NextIndex(n, i), events[1..])
  }

  function Count(events: seq<Event>, e: Event): nat {
    if events == [] then 0 else (if events[0] == e then 1 else 0) + Count(events[1..], e)
  }

  /** No task starves: each creation puts off the turn of a task by at most one tick. */
  lemma {:induction false} EveryTaskGetsItsTurn(n: nat, i: nat, j: nat, events: seq<Event>)
    requires i < n && j < n
    requires Count(events, Tick) >= Distance(n, i, j) + Count(events, Create)
    ensures j in Trace(n, i, events)
    decreases |events|
  {
    var rest := events[1..];
    if events[0].Create? {
      assert Distance(n + 1, i, j) <= Distance(n, i, j) + 1;
      EveryTaskGetsItsTurn(n + 1, i, j, rest);
    } else {
      var next := NextIndex(n, i);
      if next == j {
        assert [next][0] == j;
      } else {
        assert Distance(n, next, j) == Distance(n, i, j) - 1;
        EveryTaskGetsItsTurn(n, next, j, rest);
      }
    }
  }
}
