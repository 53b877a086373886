/** The run queue as the kernel keeps it: a list linked through the task table, with a head,
    a tail and a running task.  Pointers to tasks are indexes of the table, -1 is null. */
module RunQueue {
  import opened TaskStates
  import opened Scheduling

  /** `q` is the list that starts at `head`, ends at `tail` and is linked by `next`. */
  ghost predicate Linked(q: seq<nat>, next: seq<int>, head: int, tail: int) {
    && Distinct(q)
    && (forall i :: 0 <= i < |q| ==> q[i] < |next|)
    && (q == [] ==> head == -1)
    && (q != [] ==> head == q[0] && tail == q[|q| - 1] && next[tail] == -1)
    && (forall i :: 0 <= i < |q| - 1 ==> next[q[i]] == q[i + 1])
  }

  class Scheduler {
    const next: array<int>
    const state: array<TaskState>
    var head: int
    var tail: int
    var current: int
    ghost var queue: seq<nat>

    constructor (tasks: nat)
      ensures Valid() && queue == [] && current == -1 && next.Length == tasks && fresh(next) && fresh(state)
    {
      next := new int[tasks](_ => -1);
      state := new TaskState[tasks](_ => Ready);
      head, tail, current, queue := -1, -1, -1, [];
    }

    ghost predicate Valid()
      reads this, next, state
    {
      next.Length == state.Length && Linked(queue, next[..], head, tail) && Inv(View())
    }

    ghost function View(): Sched
      reads this, state
    {
      Sched(queue, state[..], current)
    }

    /** Appends a task that is not queued. */
    method AddTask(t: nat)
      requires Valid() && t < next.Length && t !in queue
      modifies this, next
      ensures Valid() && View() == old(View()).(queue := old(queue) + [t])
    {
      next[t] := -1;
      if head == -1 {
        head := t;
        tail := t;
      } else {
        next[tail] := t;
        tail := t;
      }
      queue := queue + [t];
    }

    /** Unlinks `t` from wherever it is and links it in again at the end. */
    method MoveToTail(t: nat)
      requires Valid() && t < next.Length
      modifies this, next
      ensures Valid() && View() == old(View()).(queue := ToTail(old(queue), t))
    {
      hide IndexOf;
      if head == -1 || head == tail || t == tail {
        Trivial(queue, t);
        return;
      }
      if head == t {
        head := next[t];
      } else {
        var prev, found := Predecessor(t);
        if !found {
          return;
        }
        next[prev] := next[t];
      }
      assert IndexOf(queue, t) < |queue| - 1;
      Append(t, old(next[..]), old(head));
    }

    /** Links the task just unlinked in again at the end. */
    method Append(t: nat, ghost next0: seq<int>, ghost head0: int)
      requires next.Length == state.Length && Inv(View()) && t < next.Length && t in queue
      requires Linked(queue, next0, head0, tail) && |next0| == next.Length
      requires IndexOf(queue, t) < |queue| - 1 && tail == queue[|queue| - 1] < next.Length
      requires var i := IndexOf(queue, t);
               && head == (if i == 0 then queue[1] else head0)
               && next[..] == if i == 0 then next0 else next0[queue[i - 1] := next0[t]]
      modifies this`tail, this`queue, next
      ensures Valid() && View() == old(View()).(queue := ToTail(old(queue), t))
    {
      hide IndexOf;
      hide Moved;
      hide Linked;
      hide Distinct;
      hide Inv;
      ghost var q, i := queue, IndexOf(queue, t);
      Relinked(q, i, next0, head0, tail);
      TailInv(View(), t);
      next[t] := -1;
      next[tail] := t;
      tail := t;
      queue := ToTail(queue, t);
    }

    /** The task linked just before `t`, looked for from the head. */
    method Predecessor(t: nat) returns (prev: int, found: bool)
      requires Valid() && head != -1 && t != head
      ensures found <==> t in queue
      ensures found ==> IndexOf(queue, t) > 0 && prev == queue[IndexOf(queue, t) - 1]
    {
      hide IndexOf;
      prev := head;
      ghost var k := 0;
      while prev != -1 && next[prev] != t
        invariant 0 <= k <= |queue| && t !in queue[..k]
        invariant if k < |queue| then prev == queue[k] && queue[k] != t else prev == -1
        decreases |queue| - k
      {
        prev := next[prev];
        k := k + 1;
      }
      found := prev != -1;
      if found {
        assert k + 1 < |queue| && queue[k + 1] == t;
        IndexIs(queue, k + 1, t);
      }
    }

    /** The first ready task from the head on, or -1. */
    method FindReady() returns (n: int)
      requires Valid()
      ensures n == if FirstReady(queue, state[..]) == |queue| then -1 else queue[FirstReady(queue, state[..])]
    {
      hide FirstReady;
      n := head;
      ghost var k := 0;
      while n != -1
        invariant 0 <= k <= |queue| && n == (if k < |queue| then queue[k] else -1)
        invariant forall i :: 0 <= i < k ==> state[queue[i]] != Ready
        decreases |queue| - k
      {
        if state[n] == Ready {
          return;
        }
        n := next[n];
        k := k + 1;
      }
    }

    /** The running task gives up the processor. */
    method Yield()
      requires Valid()
      modifies this, next, state
      ensures Valid() && View() == Yielded(old(View())) && current == old(current)
      ensures forall t :: 0 <= t < state.Length ==>
                state[t] == if t == current && old(state[t]) == Running then Ready else old(state[t])
    {
      hide IndexOf, FirstReady, ToTail;
      ghost var s := View();
      if current != -1 {
        if state[current] == Running {
          state[current] := Ready;
        }
        if state[current] != Exited {
          MoveToTail(current);
        }
      }
      YieldInv(s);
    }

    /** One call to the scheduler. */
    method DoSchedule()
      requires Valid()
      modifies this, next, state
      ensures Valid() && View() == Schedule(old(View()))
      ensures forall t :: 0 <= t < state.Length ==>
                state[t] == if t == old(current) && old(state[t]) == Running then Ready
                            else if t == current != old(current) then Running else old(state[t])
      ensures current != old(current) <==> exists i :: 0 <= i < |old(queue)| && old(queue)[i] != old(current)
                                                       && old(queue)[i] < state.Length
                                                       && old(state[..])[old(queue)[i]] == Ready
      ensures current != old(current) ==>
                exists i :: 0 <= i < |old(queue)| && old(queue)[i] == current && old(queue)[i] < state.Length
                  && old(state[..])[old(queue)[i]] == Ready
                  && forall k :: 0 <= k < i && old(queue)[k] != old(current) && old(queue)[k] < state.Length ==>
                       old(state[..])[old(queue)[k]] != Ready
      ensures old(current < 0 || state[current] == Exited) ==> queue == old(queue)
      ensures !old(current < 0 || state[current] == Exited) ==>
                exists i :: 0 <= i < |old(queue)| && old(queue)[i] == old(current)
                            && queue == old(queue)[..i] + old(queue)[i + 1..] + [old(queue)[i]]
    {
      hide IndexOf, FirstReady, ToTail, Linked, Yielded, Schedule;
      ghost var s := View();
      StatesAfter(s);
      NextAfter(s);
      QueueAfter(s);
      Dispatch(s);
    }

    /** Yields and dispatches the first ready task. */
    method Dispatch(ghost s: Sched)
      requires Valid() && s == View()
      modifies this, next, state
      ensures Valid() && View() == Schedule(s)
    {
      hide IndexOf, FirstReady, ToTail, Linked, Yielded;
      var prev := current;
      Yield();
      var n := FindReady();
      if n == -1 || n == prev {
        return;
      }
      current := n;
      state[n] := Running;
    }
  }

  lemma Trivial(q: seq<nat>, t: nat)
    requires Distinct(q) && (|q| <= 1 || q[|q| - 1] == t)
    ensures ToTail(q, t) == q
  {
    if t in q {
      IndexIs(q, |q| - 1, t);
    }
  }

  /** Taking out the element at `i` and linking it after the last one. */
  lemma Relinked(q: seq<nat>, i: nat, next: seq<int>, head: int, tail: int)
    requires Linked(q, next, head, tail) && i < |q| - 1
    ensures var last := q[|q| - 1];
            var unlinked := if i == 0 then next else next[q[i - 1] := next[q[i]]];
            Linked(Moved(q, i), unlinked[q[i] := -1][last := q[i]], if i == 0 then q[1] else head, q[i])
  {
    var r := Moved(q, i);
    MovedKeeps(q, i);
    var unlinked := if i == 0 then next else next[q[i - 1] := next[q[i]]];
    var after := unlinked[q[i] := -1][q[|q| - 1] := q[i]];
    assert after[q[i]] == -1;
    assert r[0] == (if i == 0 then q[1] else q[0]) && r[|r| - 1] == q[i];
    forall k | 0 <= k < |r| ensures r[k] < |after| {
      assert r[k] in q;
    }
    forall k | 0 <= k < |r| - 1 ensures after[r[k]] == r[k + 1] {
      MovedNext(q, i, next, head, tail, k);
    }
    hide Moved, Distinct;
  }

  lemma MovedNext(q: seq<nat>, i: nat, next: seq<int>, head: int, tail: int, k: nat)
    requires Linked(q, next, head, tail) && i < |q| - 1 && k < |q| - 1
    ensures var unlinked := if i == 0 then next else next[q[i - 1] := next[q[i]]];
            unlinked[q[i] := -1][q[|q| - 1] := q[i]][Moved(q, i)[k]] == Moved(q, i)[k + 1]
  {
    var r := Moved(q, i);
    if k + 1 < i {
      assert r[k] == q[k] && r[k + 1] == q[k + 1];
    } else if k + 1 == i {
      assert r[k] == q[i - 1] && r[k + 1] == q[i + 1];
    } else if k < |q| - 2 {
      assert r[k] == q[k + 1] && r[k + 1] == q[k + 2];
    } else {
      assert r[k] == q[|q| - 1] && r[k + 1] == q[i];
    }
  }
}
