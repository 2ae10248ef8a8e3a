/** Round-robin scheduling over a doubly linked list of tasks. */
module Scheduler {
  import opened RoundRobin

  class Task {
    var next: Task?
    var prev: Task?

    constructor ()
      ensures next == null && prev == null
    {
      next, prev := null, null;
    }
  }

  /** The neighbours of position i. */
  ghost function After(ts: seq<Task>, i: nat): Task?
    requires i < |ts|
  {
    if i + 1 < |ts| then ts[i + 1] else null
  }

  ghost function Before(ts: seq<Task>, i: nat): Task?
    requires i < |ts|
  {
    if i > 0 then ts[i - 1] else null
  }

  ghost function Without(ts: seq<Task>, k: nat): seq<Task>
    requires k < |ts|
  {
    ts[..k] + ts[k + 1..]
  }

  lemma InWithout(ts: seq<Task>, k: nat, x: Task)
    requires k < |ts| && forall i, j :: 0 <= i < j < |ts| ==> ts[i] != ts[j]
    ensures x in Without(ts, k) <==> x in ts && x != ts[k]
  {
    var r := Without(ts, k);
    if x in ts && x != ts[k] {
      var i :| 0 <= i < |ts| && ts[i] == x;
      assert r[if i < k then i else i - 1] == x;
    }
    if x in r {
      var i :| 0 <= i < |r| && r[i] == x;
      assert x == ts[if i < k then i else i + 1];
    }
  }

  /** These tasks ran: the ones at the given positions of the list. */
  ghost predicate RanAt(ts: seq<Task>, ran: seq<Task>, trace: seq<nat>) {
    && |ran| == |trace|
    && forall i :: 0 <= i < |ran| ==> trace[i] < |ts| && ran[i] == ts[trace[i]]
  }

  class Scheduler {
    var current: Task?
    var head: Task?
    var tail: Task?
    ghost var tasks: seq<Task>

    /** Following next from head gives these tasks. */
    ghost predicate Forward(ts: seq<Task>)
      reads `head, ts`next
    {
      && head == (if ts == [] then null else ts[0])
      && forall i {:trigger After(ts, i)} :: 0 <= i < |ts| ==> ts[i].next == After(ts, i)
    }

    /** prev undoes next. */
    static ghost predicate Backward(ts: seq<Task>)
      reads ts`prev
    {
      forall i {:trigger Before(ts, i)} :: 0 <= i < |ts| ==> ts[i].prev == Before(ts, i)
    }

    ghost predicate TailIs(ts: seq<Task>)
      reads `tail
    {
      tail == if ts == [] then null else ts[|ts| - 1]
    }

    ghost predicate CurrentIsIn(ts: seq<Task>)
      reads `current
    {
      if ts == [] then current == null else current != null && current in ts
    }

    ghost predicate Linked(ts: seq<Task>)
      reads this, ts
    {
      Forward(ts) && Backward(ts) && TailIs(ts) && CurrentIsIn(ts)
    }

    ghost predicate Valid()
      reads this, tasks
    {
      Linked(tasks) && forall i, j :: 0 <= i < j < |tasks| ==> tasks[i] != tasks[j]
    }

    constructor ()
      ensures Valid() && tasks == []
    {
      current, head, tail := null, null, null;
      tasks := [];
    }

    /** `task_new`, as far as the list goes, given whether the task could be allocated and initialised. */
    method TaskNew(hasMemory: bool, initialised: bool) returns (task: Task?)
      requires Valid()
      modifies this, tasks
      ensures Valid()
      ensures task == null <==> !(hasMemory && initialised)
      ensures task == null ==> tasks == old(tasks) && current == old(current)
      ensures task != null ==> fresh(task) && tasks == old(tasks) + [task]
      ensures task != null ==> current == if old(tasks) == [] then task else old(current)
    {
      if !hasMemory {
        return null;
      }
      var t := new Task();
      if !initialised {
        assert t.prev == null && t != head && t != tail && t != current;  // so task_free changes no list
        return null;
      }
      LinkTail(t);
      task := t;
    }

    /** The end of `task_new`: the task becomes the last of the list. */
    method LinkTail(task: Task)
      requires Valid() && task !in tasks && task.next == null && task.prev == null
      modifies this, tasks, task
      ensures Valid() && tasks == old(tasks) + [task]
      ensures current == if old(tasks) == [] then task else old(current)
    {
      ghost var before := tasks;
      assert Forward(before) && Backward(before);
      if head == null {
        head := task;
        current := task;
      } else {
        tail.next := task;
        task.prev := tail;
      }
      tail := task;
      assert Backward(before);
      tasks := before + [task];
      forall i | 0 <= i < |tasks|
        ensures tasks[i].prev == Before(tasks, i)
        ensures tasks[i].next == After(tasks, i)
      {
        if i < |before| {
          assert before[i].prev == Before(before, i);
          assert old(before[i].next) == After(before, i);
        }
      }
    }

    /** `task_get_next`. */
    method GetNext(ghost k: nat) returns (task: Task)
      requires Valid() && k < |tasks| && current == tasks[k]
      ensures task == tasks[NextIndex(|tasks|, k)]
    {
      assert current.next == After(tasks, k);
      if current.next == null {
        return head;
      }
      task := current.next;
    }

    /** `task_switch`, leaving out the page directory. */
    method TaskSwitch(task: Task)
      requires Valid() && task in tasks
      modifies this`current
      ensures Valid() && current == task
    {
      current := task;
    }

    /** `task_switch_next`. */
    method SwitchNext(ghost k: nat)
      requires Valid() && k < |tasks| && current == tasks[k]
      modifies this`current
      ensures Valid() && current == tasks[NextIndex(|tasks|, k)]
    {
      var next := GetNext(k);
      assert next in tasks;
      TaskSwitch(next);
    }

    /** Each remaining task points to the next remaining one. */
    static ghost predicate Skips(ts: seq<Task>, k: nat)
      requires k < |ts|
      reads ts`next
    {
      var rest := Without(ts, k);
      forall i {:trigger After(rest, i)} :: 0 <= i < |rest| ==> rest[i] in ts && rest[i].next == After(rest, i)
    }

    /** The first step of `task_list_remove`. */
    method Unlink(task: Task, ghost k: nat)
      requires Valid() && k < |tasks| && task == tasks[k]
      modifies tasks
      ensures Skips(tasks, k) && Backward(tasks)
      ensures task.next == old(task.next) && task.prev == old(task.prev)
    {
      ghost var all, ts := tasks, Without(tasks, k);
      assert Backward(all) && Forward(all);
      assert task.prev == Before(all, k);
      assert task.next == After(all, k);
      if task.prev != null {
        task.prev.next := task.next;
      }
      assert Backward(all);
      forall i | 0 <= i < |ts|
        ensures ts[i] in all && ts[i].next == After(ts, i)
      {
        var j := if i < k then i else i + 1;
        assert ts[i] == all[j];
        assert j + 1 == k || all[j].next == After(all, j);
      }
    }

    /** `task_list_remove`. Following next afterwards always gives the remaining tasks. But the back links are
        right only if the tail was removed, the tail pointer only if other tasks remain, and the current task
        only if it was another one or a removed one in the middle. */
    method ListRemove(task: Task, ghost k: nat)
      requires Valid() && k < |tasks| && task == tasks[k]
      modifies this, tasks
      ensures tasks == Without(old(tasks), k)
      ensures Forward(tasks)
      ensures Backward(tasks) <==> k == |tasks|
      ensures TailIs(tasks) <==> |tasks| > 0
      ensures CurrentIsIn(tasks) <==> task != old(current) || 0 < k < |tasks|
      ensures Valid() <==> 0 < k == |tasks| && task != old(current)
    {
      ghost var all, ts, n := tasks, Without(tasks, k), |tasks|;
      assert |ts| == n - 1;
      assert task.prev == Before(all, k);
      assert task.next == After(all, k);
      assert (task == head <==> k == 0) && (task == tail <==> k == n - 1);
      Unlink(task, k);
      if task == head {
        head := task.next;
      } else if task == tail {
        tail := task.prev;
      } else if task == current {
        current := if current.next == null then head else current.next;
      }
      assert Skips(all, k) && Backward(all);
      assert CurrentIsIn(ts) <==> task != old(current) || 0 < k < n - 1 by {
        InWithout(all, k, current);
        InWithout(all, k, task);
        if k + 1 < n {
          InWithout(all, k, all[k + 1]);
        }
      }
      assert TailIs(ts) <==> n > 1 by {
        assert tail == if k == n - 1 && n > 1 then all[n - 2] else all[n - 1];
        assert n > 1 ==> ts[n - 2] == all[if k == n - 1 then n - 2 else n - 1];
      }
      assert Backward(ts) <==> k == n - 1 by {
        if k + 1 < n {
          assert ts[k].prev == Before(all, k + 1) && ts[k].prev != Before(ts, k);
        } else {
          assert forall i :: 0 <= i < k ==> Before(ts, i) == Before(all, i);
        }
      }
      tasks := ts;
    }

    /** Any run of creations and ticks gives the processor to the tasks the trace says. */
    method Run(events: seq<Event>, ghost k: nat) returns (ran: seq<Task>)
      requires Valid() && k < |tasks| && current == tasks[k]
      modifies this, tasks
      ensures Valid() && old(tasks) <= tasks && |tasks| == |old(tasks)| + Count(events, Create)
      ensures forall i :: |old(tasks)| <= i < |tasks| ==> fresh(tasks[i])
      ensures RanAt(tasks, ran, Trace(|old(tasks)|, k, events))
      decreases |events|
    {
      hide Valid, Linked, Forward, Backward, TailIs, CurrentIsIn, RanAt;
      ghost var n := |tasks|;
      RanNothing(tasks);
      if events == [] {
        return [];
      }
      if events[0].Create? {
        var task := TaskNew(true, true);
        ran := Run(events[1..], k);
      } else {
        SwitchNext(k);
        var task := current;
        ghost var next := NextIndex(n, k);
        ran := Run(events[1..], next);
        RanOneMore(tasks, ran, Trace(n, next, events[1..]), task, next);
        ran := [task] + ran;
      }
    }
  }

  lemma RanNothing(ts: seq<Task>)
    ensures RanAt(ts, [], [])
  {
  }

  lemma RanOneMore(ts: seq<Task>, ran: seq<Task>, trace: seq<nat>, task: Task, i: nat)
    requires RanAt(ts, ran, trace) && i < |ts| && task == ts[i]
    ensures RanAt(ts, [task] + ran, [i] + trace)
  {
  }
}
