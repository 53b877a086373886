/** The scheduler as a queue: what one call does, and how long a ready task can wait. */
module Scheduling {

  import opened TaskStates

  /** The run queue, the state of every task, and the running task (-1 before the first). */
  datatype Sched = Sched(queue: seq<nat>, state: seq<TaskState>, current: int)

  predicate Distinct(q: seq<nat>) {
    forall i, j :: 0 <= i < j < |q| ==> q[i] != q[j]
  }

  /** No task is queued twice, and the running task is queued. */
  predicate Inv(s: Sched) {
    && Distinct(s.queue)
    && (forall i :: 0 <= i < |s.queue| ==> s.queue[i] < |s.state|)
    && -1 <= s.current && (s.current >= 0 ==> s.current in s.queue)
  }

  function IndexOf(q: seq<nat>, t: nat): (i: nat)
    ensures i <= |q| && (t in q <==> i < |q|) && (i < |q| ==> q[i] == t) && forall k :: 0 <= k < i ==> q[k] != t
  {
    if q == [] then 0 else if q[0] == t then 0 else 1 + IndexOf(q[1..], t)
  }

  /** The queue with `t` moved to its end. */
  function ToTail(q: seq<nat>, t: nat): (r: seq<nat>)
    ensures |r| == |q|
  {
    var i := IndexOf(q, t);
    if i == |q| then q else Moved(q, i)
  }

  function Moved(q: seq<nat>, i: nat): (r: seq<nat>)
    requires i < |q|
    ensures |r| == |q|
  {
    q[..i] + q[i + 1..] + [q[i]]
  }

  /** Position of the first ready task, or the length of the queue. */
  function FirstReady(q: seq<nat>, state: seq<TaskState>): (i: nat)
    requires forall k :: 0 <= k < |q| ==> q[k] < |state|
    ensures i <= |q| && (i < |q| ==> state[q[i]] == Ready) && forall k :: 0 <= k < i ==> state[q[k]] != Ready
  {
    if q == [] then 0 else if state[q[0]] == Ready then 0 else 1 + FirstReady(q[1..], state)
  }

  /** The running task gives up the processor: back to ready, and to the end of the queue unless it has exited. */
  function Yielded(s: Sched): Sched
    requires Inv(s)
  {
    if s.current < 0 then s
    else
      var c := s.current;
      var st := if s.state[c] == Running then s.state[c := Ready] else s.state;
      Sched(if st[c] != Exited then ToTail(s.queue, c) else s.queue, st, s.current)
  }

  /** One call to the scheduler: the first ready task after the yield runs next; with none, or
      if that is the same task, nothing is switched. */
  function Schedule(s: Sched): Sched
    requires Inv(s)
  {
    var y := Yielded(s);
    ToTailKeeps(s.queue, if s.current < 0 then 0 else s.current);
    var i := FirstReady(y.queue, y.state);
    if i == |y.queue| || y.queue[i] == s.current then y
    else Sched(y.queue, y.state[y.queue[i] := Running], y.queue[i])
  }

  lemma MovedKeeps(q: seq<nat>, i: nat)
    requires i < |q|
    ensures forall k :: 0 <= k < |q| ==> Moved(q, i)[k] in q
    ensures forall k :: 0 <= k < |q| ==> q[k] in Moved(q, i)
    ensures Distinct(q) ==> Distinct(Moved(q, i))
  {
    var r := Moved(q, i);
    forall k | 0 <= k < |q| ensures q[k] in r {
      assert q[k] == r[if k < i then k else if k == i then |q| - 1 else k - 1];
    }
  }

  /** Moving a task to the end loses nobody and repeats nobody. */
  lemma ToTailKeeps(q: seq<nat>, t: nat)
    ensures forall k :: 0 <= k < |q| ==> ToTail(q, t)[k] in q
    ensures forall k :: 0 <= k < |q| ==> q[k] in ToTail(q, t)
    ensures Distinct(q) ==> Distinct(ToTail(q, t))
  {
    hide IndexOf;
    hide Moved;
    hide Distinct;
    if IndexOf(q, t) < |q| {
      MovedKeeps(q, IndexOf(q, t));
    }
  }

  lemma TailInv(s: Sched, t: nat)
    requires Inv(s)
    ensures Inv(s.(queue := ToTail(s.queue, t)))
  {
    hide IndexOf, Moved, Distinct;
    ToTailKeeps(s.queue, t);
  }

  // ------------------------------------------------------------------ steps

  datatype Op = DoSchedule | Block | Exit | Resume | Wake(t: nat) | Add(t: nat)

  /** Tasks are added once; only the running task blocks, exits or resumes, and after its exit it
      does none of these. */
  predicate Legal(s: Sched, op: Op)
    requires Inv(s)
  {
    match op
    case DoSchedule => true
    case Block => s.current >= 0 && s.state[s.current] != Exited
    case Exit => s.current >= 0 && s.state[s.current] != Exited
    case Resume => s.current >= 0 && s.state[s.current] != Exited
    case Wake(t) => t < |s.state|
    case Add(t) => t < |s.state| && t !in s.queue
  }

  function Step(s: Sched, op: Op): Sched
    requires Inv(s) && Legal(s, op)
  {
    match op
    case DoSchedule => Schedule(s)
    case Block => s.(state := s.state[s.current := Blocked])
    case Exit => s.(state := s.state[s.current := Exited])
    case Resume => s.(state := s.state[s.current := Running])
    case Wake(t) => if s.state[t] == Blocked then s.(state := s.state[t := Ready]) else s
    case Add(t) => s.(queue := s.queue + [t], state := s.state[t := Ready])
  }

  lemma StepInv(s: Sched, op: Op)
    requires Inv(s) && Legal(s, op)
    ensures Inv(Step(s, op)) && |Step(s, op).state| == |s.state|
  {
    hide IndexOf;
    hide ToTail;
    hide FirstReady;
    if op.DoSchedule? && s.current >= 0 {
      ToTailKeeps(s.queue, s.current);
    }
  }

  ghost predicate LegalRun(s: Sched, ops: seq<Op>)
    requires Inv(s)
    decreases |ops|
  {
    ops != [] ==> Legal(s, ops[0]) && (StepInv(s, ops[0]); LegalRun(Step(s, ops[0]), ops[1..]))
  }

  ghost function Run(s: Sched, ops: seq<Op>): (r: Sched)
    requires Inv(s) && LegalRun(s, ops)
    ensures Inv(r)
    decreases |ops|
  {
    if ops == [] then s else (StepInv(s, ops[0]); Run(Step(s, ops[0]), ops[1..]))
  }

  function Schedules(ops: seq<Op>): (n: nat)
    ensures n <= |ops| && ((forall k :: 0 <= k < |ops| ==> ops[k].DoSchedule?) ==> n == |ops|)
  {
    if ops == [] then 0 else (if ops[0].DoSchedule? then 1 else 0) + Schedules(ops[1..])
  }

  // ------------------------------------------------------------------ what one call changes

  /** The running task, unless it has exited, goes behind all others, who keep their order. */
  lemma QueueAfter(s: Sched)
    requires Inv(s)
    ensures s.current < 0 || s.state[s.current] == Exited ==> Schedule(s).queue == s.queue
    ensures s.current >= 0 && s.state[s.current] != Exited ==>
              exists i :: 0 <= i < |s.queue| && s.queue[i] == s.current
                          && Schedule(s).queue == s.queue[..i] + s.queue[i + 1..] + [s.current]
  {
    hide FirstReady;
    if s.current >= 0 {
      var i := IndexOf(s.queue, s.current);
      assert s.queue[i] == s.current;
    }
  }

  /** One call makes the running task ready and the task it dispatches running, and touches no other state. */
  lemma StatesAfter(s: Sched)
    requires Inv(s)
    ensures |Schedule(s).state| == |s.state|
    ensures forall t :: 0 <= t < |s.state| ==>
              Schedule(s).state[t] == if t == s.current && s.state[t] == Running then Ready
                                      else if t == Schedule(s).current != s.current then Running
                                      else s.state[t]
  {
    hide IndexOf, FirstReady, ToTail;
    YieldInv(s);
  }

  lemma YieldedIs(s: Sched)
    requires Inv(s)
    ensures |Yielded(s).queue| == |s.queue| && |Yielded(s).state| == |s.state|
    ensures s.current < 0 || s.state[s.current] == Exited ==> Yielded(s) == s
    ensures s.current >= 0 && s.state[s.current] != Exited ==> Yielded(s).queue == ToTail(s.queue, s.current)
    ensures forall k :: 0 <= k < |s.queue| ==> Yielded(s).queue[k] < |s.state|
    ensures var y := Yielded(s);
            var f := FirstReady(y.queue, y.state);
            Schedule(s).current == if f == |y.queue| || y.queue[f] == s.current then s.current else y.queue[f]
  {
    hide IndexOf, FirstReady, ToTail;
    YieldInv(s);
  }

  lemma MovedTail(q: seq<nat>, c: nat)
    requires Distinct(q) && c in q
    ensures var j := IndexOf(q, c);
            && j < |q| && q[j] == c && ToTail(q, c)[|q| - 1] == c
            && forall k :: 0 <= k < |q| - 1 ==> ToTail(q, c)[k] == q[Skip(j, k)] != c
  {
    hide IndexOf;
    var j := IndexOf(q, c);
    assert q[j] == c;
    forall k | 0 <= k < |q| - 1 ensures ToTail(q, c)[k] == q[Skip(j, k)] != c {
      assert Skip(j, k) != j;
    }
  }

  /** Where the element at `k` was before the one at `j` was taken out. */
  function Skip(j: nat, k: nat): nat { if k < j then k else k + 1 }

  /** In the queue `r`, which is `q` with its task `c` at the end, the first ready task is the first ready one of `q`
      other than `c`, at `i`. */
  lemma FirstOther(q: seq<nat>, state: seq<TaskState>, r: seq<nat>, state': seq<TaskState>, c: nat, j: nat, f: nat)
    returns (i: int)
    requires |r| == |q| && j < |q| && q[j] == c && r[|q| - 1] == c && |state'| == |state|
    requires forall k :: 0 <= k < |q| ==> q[k] < |state| && r[k] < |state|
    requires forall k :: 0 <= k < |q| - 1 ==> r[k] == q[Skip(j, k)] != c
    requires forall t :: 0 <= t < |state| && t != c ==> state'[t] == state[t]
    requires f <= |r| && (f < |r| ==> state'[r[f]] == Ready) && forall k :: 0 <= k < f ==> state'[r[k]] != Ready
    ensures -1 <= i < |q| && (i >= 0 <==> f < |q| - 1)
    ensures i >= 0 ==> q[i] == r[f] != c && state[q[i]] == Ready
    ensures forall k :: 0 <= k < (if i < 0 then |q| else i) && q[k] != c ==> state[q[k]] != Ready
  {
    i := if f >= |q| - 1 then -1 else Skip(j, f);
    forall k | 0 <= k < (if i < 0 then |q| else i) && q[k] != c ensures state[q[k]] != Ready {
      var l := Unskip(j, k, f, |q|);
      hide Skip;
      assert r[l] == q[k];
    }
  }

  lemma Unskip(j: nat, k: nat, f: nat, n: nat) returns (l: nat)
    requires j != k && j < n && k < if f >= n - 1 then n else Skip(j, f)
    ensures Skip(j, l) == k && l < n - 1 && l < f
  {
    l := if k < j then k else k - 1;
  }

  /** The place in the queue of the task that is dispatched. */
  lemma NextAt(s: Sched) returns (i: int)
    requires Inv(s)
    ensures -1 <= i < |s.queue| && (i >= 0 <==> Schedule(s).current != s.current)
    ensures i >= 0 ==> s.queue[i] == Schedule(s).current && s.state[s.queue[i]] == Ready
    ensures forall k :: 0 <= k < (if i < 0 then |s.queue| else i) && s.queue[k] != s.current ==>
              s.state[s.queue[k]] != Ready
  {
    hide IndexOf, FirstReady, ToTail, Moved, Schedule, Yielded, Distinct;
    YieldInv(s);
    YieldedIs(s);
    var y := Yielded(s);
    var f := FirstReady(y.queue, y.state);
    if s.current >= 0 && s.state[s.current] != Exited {
      i := NextOther(s, f);
    } else {
      i := if f == |s.queue| then -1 else f;
    }
  }

  /** The first ready task after a yield, as a place in the queue before it. */
  lemma NextOther(s: Sched, f: nat) returns (i: int)
    requires Inv(s) && s.current >= 0 && s.state[s.current] != Exited
    requires f == FirstReady(Yielded(s).queue, Yielded(s).state)
    ensures -1 <= i < |s.queue| && (i >= 0 <==> f < |s.queue| && Yielded(s).queue[f] != s.current)
    ensures i >= 0 ==> s.queue[i] == Yielded(s).queue[f] && s.state[s.queue[i]] == Ready
    ensures forall k :: 0 <= k < (if i < 0 then |s.queue| else i) && s.queue[k] != s.current ==>
              s.state[s.queue[k]] != Ready
  {
    hide IndexOf, FirstReady, ToTail, Moved, Schedule, Distinct;
    YieldInv(s);
    var y := Yielded(s);
    MovedTail(s.queue, s.current);
    i := FirstOther(s.queue, s.state, y.queue, y.state, s.current, IndexOf(s.queue, s.current), f);
  }

  /** Another task is dispatched exactly if one is ready, and it is the first such in the queue. */
  lemma NextAfter(s: Sched)
    requires Inv(s)
    ensures Schedule(s).current != s.current <==> exists i :: 0 <= i < |s.queue| && s.queue[i] != s.current
                                                              && s.state[s.queue[i]] == Ready
    ensures Schedule(s).current != s.current ==>
              exists i :: 0 <= i < |s.queue| && s.queue[i] == Schedule(s).current && s.state[s.queue[i]] == Ready
                && forall k :: 0 <= k < i && s.queue[k] != s.current ==> s.state[s.queue[k]] != Ready
  {
    hide Schedule, Distinct;
    var i := NextAt(s);
  }

  // ------------------------------------------------------------------ sleeping

  /** A call leaves a task that is blocked or has exited in its state, and does not dispatch it. */
  lemma ScheduleLeaves(s: Sched, t: nat)
    requires Inv(s) && t in s.queue && (s.state[t] == Blocked || s.state[t] == Exited)
    ensures var s' := Schedule(s);
            && t in s'.queue && |s'.state| == |s.state| && s'.state[t] == s.state[t]
            && (s.current != t ==> s'.current != t)
  {
    hide Schedule, Distinct;
    StatesAfter(s);
    QueueAfter(s);
    var i := NextAt(s);
  }

  /** Task `t` sleeps through a step that is not its wake, and that it does not make itself. */
  lemma SleepsOn(s: Sched, op: Op, t: nat)
    requires Inv(s) && Legal(s, op) && t in s.queue && s.state[t] == Blocked && op != Wake(t)
    requires op.Resume? || op.Exit? ==> s.current != t
    ensures t in Step(s, op).queue && t < |Step(s, op).state| && Step(s, op).state[t] == Blocked
    ensures s.current != t ==> Step(s, op).current != t
  {
    hide Schedule, Distinct;
    if op.DoSchedule? {
      ScheduleLeaves(s, t);
    }
  }

  /** A blocked task that is not running stays blocked and is not dispatched as long as nobody wakes it. */
  lemma {:induction false} BlockedSleeps(s: Sched, ops: seq<Op>, t: nat)
    requires Inv(s) && LegalRun(s, ops) && t in s.queue && s.state[t] == Blocked && s.current != t
    requires forall k :: 0 <= k < |ops| ==> ops[k] != Wake(t)
    ensures t in Run(s, ops).queue && Run(s, ops).state[t] == Blocked && Run(s, ops).current != t
    decreases |ops|
  {
    hide Inv, Legal, Step;
    QueuedTask(s, t);
    if ops != [] {
      SleepsOn(s, ops[0], t);
      StepInv(s, ops[0]);
      BlockedSleeps(Step(s, ops[0]), ops[1..], t);
    }
  }

  /** One that still runs stays blocked until it resumes or exits, is woken, or another is dispatched. */
  lemma {:induction false} BlockedRunning(s: Sched, ops: seq<Op>, t: nat)
    requires Inv(s) && LegalRun(s, ops) && t in s.queue && s.state[t] == Blocked
    requires forall k :: 0 <= k < |ops| ==> ops[k] != Wake(t) && !ops[k].Resume? && !ops[k].Exit?
    ensures t in Run(s, ops).queue && Run(s, ops).state[t] == Blocked
    decreases |ops|
  {
    hide Inv, Legal, Step;
    QueuedTask(s, t);
    if ops != [] {
      SleepsOn(s, ops[0], t);
      StepInv(s, ops[0]);
      BlockedRunning(Step(s, ops[0]), ops[1..], t);
    }
  }

  lemma QueuedTask(s: Sched, t: nat)
    requires Inv(s) && t in s.queue
    ensures t < |s.state|
  {}

  /** An exited task that is queued stays exited, and is never dispatched again once another runs. */
  lemma {:induction false} ExitedStays(s: Sched, ops: seq<Op>, t: nat)
    requires Inv(s) && LegalRun(s, ops) && t in s.queue && s.state[t] == Exited
    ensures t in Run(s, ops).queue && Run(s, ops).state[t] == Exited
    ensures s.current != t ==> Run(s, ops).current != t
    decreases |ops|
  {
    if ops != [] {
      ExitedStep(s, ops[0], t);
      hide Inv, Legal, Step;
      StepInv(s, ops[0]);
      QueuedTask(Step(s, ops[0]), t);
      ExitedStays(Step(s, ops[0]), ops[1..], t);
    }
  }

  lemma ExitedStep(s: Sched, op: Op, t: nat)
    requires Inv(s) && Legal(s, op) && t in s.queue && s.state[t] == Exited
    ensures t in Step(s, op).queue && t < |Step(s, op).state| && Step(s, op).state[t] == Exited
    ensures s.current != t ==> Step(s, op).current != t
  {
    hide Schedule, Distinct;
    if op.DoSchedule? {
      ScheduleLeaves(s, t);
    }
  }

  // ------------------------------------------------------------------ bounded waiting

  /** Tasks in `q` that have not exited. */
  function Alive(q: seq<nat>, state: seq<TaskState>): nat
    requires forall k :: 0 <= k < |q| ==> q[k] < |state|
  {
    if q == [] then 0 else (if state[q[0]] == Exited then 0 else 1) + Alive(q[1..], state)
  }

  /** The tasks queued before `x`. */
  function Ahead(s: Sched, x: nat): seq<nat> {
    s.queue[..IndexOf(s.queue, x)]
  }

  ghost predicate Waiting(s: Sched, x: nat) {
    Inv(s) && x in s.queue && s.state[x] == Ready && s.current != x
  }

  /** Schedule calls that `x` may still have to wait for. */
  function Bound(s: Sched, x: nat): nat
    requires Inv(s)
  {
    Alive(Ahead(s, x), s.state)
      + if s.current >= 0 && IndexOf(s.queue, s.current) < IndexOf(s.queue, x) && s.state[s.current] != Exited then 0
        else 1
  }

  lemma {:induction false} AliveConcat(a: seq<nat>, b: seq<nat>, state: seq<TaskState>)
    requires forall k :: 0 <= k < |a + b| ==> (a + b)[k] < |state|
    ensures forall k :: 0 <= k < |a| ==> a[k] < |state|
    ensures forall k :: 0 <= k < |b| ==> b[k] < |state|
    ensures Alive(a + b, state) == Alive(a, state) + Alive(b, state)
  {
    assert forall k :: 0 <= k < |a| ==> (a + b)[k] == a[k];
    assert forall k :: 0 <= k < |b| ==> (a + b)[|a| + k] == b[k];
    if a == [] {
      assert a + b == b;
    } else {
      assert (a + b)[1..] == a[1..] + b;
      AliveConcat(a[1..], b, state);
    }
  }

  lemma LiveLast(q: seq<nat>, state: seq<TaskState>, n: nat)
    requires |q| == n + 1 && forall k :: 0 <= k < |q| ==> q[k] < |state|
    ensures |set k | 0 <= k < |q| && state[q[k]] != Exited| ==
            |set k | 0 <= k < |q[..n]| && state[q[..n][k]] != Exited| + if state[q[n]] != Exited then 1 else 0
  {
    var init := set k | 0 <= k < |q[..n]| && state[q[..n][k]] != Exited;
    assert (set k | 0 <= k < |q| && state[q[k]] != Exited) == init + if state[q[n]] != Exited then {n} else {};
  }

  /** The count is the number of places in `q` that hold a task which has not exited. */
  lemma {:induction false} AliveCount(q: seq<nat>, state: seq<TaskState>)
    requires forall k :: 0 <= k < |q| ==> q[k] < |state|
    ensures Alive(q, state) == |set k | 0 <= k < |q| && state[q[k]] != Exited|
    decreases |q|
  {
    var live := set k | 0 <= k < |q| && state[q[k]] != Exited;
    if q == [] {
      assert live == {};
    } else {
      var n := |q| - 1;
      AliveCount(q[..n], state);
      AliveConcat(q[..n], [q[n]], state);
      assert q[..n] + [q[n]] == q;
      LiveLast(q, state, n);
    }
  }

  /** Only exits matter to the count. */
  lemma {:induction false} AliveSame(q: seq<nat>, a: seq<TaskState>, b: seq<TaskState>)
    requires |a| == |b| && forall k :: 0 <= k < |q| ==> q[k] < |a|
    requires forall t :: 0 <= t < |a| ==> (a[t] == Exited <==> b[t] == Exited)
    ensures Alive(q, a) == Alive(q, b)
  {
    if q != [] {
      AliveSame(q[1..], a, b);
    }
  }

  lemma IndexIs(q: seq<nat>, i: nat, x: nat)
    requires Distinct(q) && i < |q| && q[i] == x
    ensures IndexOf(q, x) == i
  {
    hide IndexOf;
    var j := IndexOf(q, x);
    assert q[j] == x;
  }

  /** Taking out the task at `j` shifts the ones after it forward and leaves the ones before it. */
  lemma MovedBefore(q: seq<nat>, j: nat, p: nat)
    requires j < p < |q|
    ensures var r := Moved(q, j);
            r[p - 1] == q[p] && r[|q| - 1] == q[j] && r[..p - 1] == q[..j] + q[j + 1..p]
              && q[..p] == q[..j] + ([q[j]] + q[j + 1..p])
  {}

  lemma MovedAfter(q: seq<nat>, j: nat, p: nat)
    requires p < j < |q|
    ensures var r := Moved(q, j); r[p] == q[p] && r[|q| - 1] == q[j] && r[..p] == q[..p]
  {}

  lemma YieldInv(s: Sched)
    requires Inv(s)
    ensures Inv(Yielded(s)) && |Yielded(s).state| == |s.state| && Yielded(s).current == s.current
    ensures forall t :: 0 <= t < |s.state| ==> (Yielded(s).state[t] == Exited <==> s.state[t] == Exited)
    ensures forall t :: 0 <= t < |s.state| && t != s.current ==> Yielded(s).state[t] == s.state[t]
    ensures forall t: nat :: t in s.queue ==> t in Yielded(s).queue
  {
    hide IndexOf;
    hide ToTail;
    if s.current >= 0 {
      ToTailKeeps(s.queue, s.current);
    }
  }

  /** After the running task has yielded, one schedule call less stands between `x` and the processor. */
  lemma YieldAhead(s: Sched, x: nat)
    requires Waiting(s, x) && Inv(Yielded(s)) && x in Yielded(s).queue && |Yielded(s).state| == |s.state|
    requires forall t :: 0 <= t < |s.state| ==> (Yielded(s).state[t] == Exited <==> s.state[t] == Exited)
    ensures Alive(Ahead(Yielded(s), x), Yielded(s).state) + 1 == Bound(s, x)
    ensures s.current >= 0 && s.state[s.current] != Exited ==>
              IndexOf(Yielded(s).queue, x) < |Yielded(s).queue| - 1
                && Yielded(s).queue[|Yielded(s).queue| - 1] == s.current
  {
    hide IndexOf;
    hide Moved;
    hide Alive;
    hide Distinct;
    var y := Yielded(s);
    AliveSame(Ahead(y, x), y.state, s.state);
    if s.current >= 0 && s.state[s.current] != Exited {
      var q, c := s.queue, s.current;
      var j, p := IndexOf(q, c), IndexOf(q, x);
      if j < p {
        MovedBefore(q, j, p);
        IndexIs(y.queue, p - 1, x);
        CountMoved(q[..j], c, q[j + 1..p], s.state);
      } else {
        MovedAfter(q, j, p);
        IndexIs(y.queue, p, x);
      }
    }
  }

  lemma CountMoved(a: seq<nat>, c: nat, b: seq<nat>, state: seq<TaskState>)
    requires forall k :: 0 <= k < |a| ==> a[k] < |state|
    requires forall k :: 0 <= k < |b| ==> b[k] < |state|
    requires c < |state| && state[c] != Exited
    ensures forall k :: 0 <= k < |a + b| ==> (a + b)[k] < |state|
    ensures forall k :: 0 <= k < |a + ([c] + b)| ==> (a + ([c] + b))[k] < |state|
    ensures Alive(a + ([c] + b), state) == Alive(a + b, state) + 1
  {
    AliveConcat(a, b, state);
    AliveConcat(a, [c] + b, state);
    assert ([c] + b)[1..] == b;
  }

  /** Dispatching a task queued before `x`. */
  lemma DispatchBound(y: Sched, x: nat, i: nat)
    requires Inv(y) && x in y.queue && y.state[x] == Ready && i < IndexOf(y.queue, x) && y.state[y.queue[i]] == Ready
    ensures var r := Sched(y.queue, y.state[y.queue[i] := Running], y.queue[i]);
            Waiting(r, x) && Bound(r, x) == Alive(Ahead(y, x), y.state)
  {
    hide IndexOf;
    hide Alive;
    var n := y.queue[i];
    IndexIs(y.queue, i, n);
    AliveSame(Ahead(y, x), y.state, y.state[n := Running]);
  }

  /** A schedule call runs `x` or brings it one call closer. */
  lemma ScheduleProgress(s: Sched, x: nat)
    requires Waiting(s, x)
    ensures Inv(Schedule(s)) && (Schedule(s).current == x
                                 || (Waiting(Schedule(s), x) && Bound(Schedule(s), x) < Bound(s, x)))
  {
    hide IndexOf;
    hide Yielded;
    hide FirstReady;
    hide Bound;
    hide Alive;
    var y := Yielded(s);
    StepInv(s, DoSchedule);
    YieldInv(s);
    YieldAhead(s, x);
    var p := IndexOf(y.queue, x);
    var i := FirstReady(y.queue, y.state);
    assert y.queue[p] == x;
    assert i <= p;
    if i < p {
      DispatchBound(y, x, i);
    }
  }

  /** An exit takes one task out of the count, if it was in it. */
  lemma {:induction false} AliveExit(q: seq<nat>, state: seq<TaskState>, c: nat)
    requires Distinct(q) && (forall k :: 0 <= k < |q| ==> q[k] < |state|) && c < |state| && state[c] != Exited
    ensures Alive(q, state) == Alive(q, state[c := Exited]) + if c in q then 1 else 0
  {
    if q != [] {
      AliveExit(q[1..], state, c);
      assert q == [q[0]] + q[1..];
      if q[0] == c {
        assert c !in q[1..];
      }
    }
  }

  /** The other steps never make `x` wait longer. */
  lemma StepProgress(s: Sched, x: nat, op: Op)
    requires Waiting(s, x) && Legal(s, op) && !op.DoSchedule?
    ensures Waiting(Step(s, op), x) && Bound(Step(s, op), x) <= Bound(s, x)
  {
    hide IndexOf;
    hide Alive;
    StepInv(s, op);
    var r := Step(s, op);
    if op.Add? {
      assert r.queue[IndexOf(s.queue, x)] == x;
      IndexIs(r.queue, IndexOf(s.queue, x), x);
      assert Ahead(r, x) == Ahead(s, x);
      AliveLocal(Ahead(s, x), s.state, op.t, Ready);
    } else if op.Exit? {
      AliveExit(Ahead(s, x), s.state, s.current);
      var j := IndexOf(s.queue, s.current);
      assert j < IndexOf(s.queue, x) ==> Ahead(s, x)[j] == s.current;
    } else {
      AliveSame(Ahead(s, x), s.state, r.state);
    }
  }

  lemma {:induction false} AliveLocal(q: seq<nat>, state: seq<TaskState>, t: nat, v: TaskState)
    requires (forall k :: 0 <= k < |q| ==> q[k] < |state|) && t < |state| && t !in q
    ensures Alive(q, state[t := v]) == Alive(q, state)
  {
    if q != [] {
      assert q[0] != t;
      AliveLocal(q[1..], state, t, v);
    }
  }

  lemma BoundPositive(s: Sched, x: nat)
    requires Inv(s)
    ensures Bound(s, x) > 0
  {
    hide IndexOf;
    if s.current >= 0 && IndexOf(s.queue, s.current) < IndexOf(s.queue, x) && s.state[s.current] != Exited {
      assert Ahead(s, x)[IndexOf(s.queue, s.current)] == s.current;
      AliveExit(Ahead(s, x), s.state, s.current);
    }
  }

  lemma IsSchedule(s: Sched)
    requires Inv(s)
    ensures Legal(s, DoSchedule) && Step(s, DoSchedule) == Schedule(s)
  {}

  /** After any run with `Bound` schedule calls in it, `x` has been dispatched at some point. */
  lemma {:induction false} Dispatched(s: Sched, x: nat, ops: seq<Op>) returns (j: nat)
    requires Waiting(s, x) && LegalRun(s, ops) && Schedules(ops) >= Bound(s, x)
    ensures j <= |ops| && LegalRun(s, ops[..j]) && Run(s, ops[..j]).current == x
    decreases |ops|
  {
    hide Bound;
    hide Step;
    hide Legal;
    hide Inv;
    BoundPositive(s, x);
    StepInv(s, ops[0]);
    var r := Step(s, ops[0]);
    IsSchedule(s);
    if ops[0].DoSchedule? {
      ScheduleProgress(s, x);
    } else {
      StepProgress(s, x, ops[0]);
    }
    if r.current == x {
      j := 1;
      assert ops[..1][1..] == [];
    } else {
      var i := Dispatched(r, x, ops[1..]);
      j := i + 1;
      assert ops[..j][1..] == ops[1..][..i];
    }
  }

  /** Bounded waiting: a ready task other than the running one is dispatched within k + 1
      schedule calls, where k tasks that have not exited are queued before it, whatever blocks,
      exits, wakes and additions happen in between. */
  lemma BoundedWaiting(s: Sched, x: nat, ops: seq<Op>) returns (j: nat)
    requires Waiting(s, x) && LegalRun(s, ops) && Schedules(ops) >= Alive(Ahead(s, x), s.state) + 1
    ensures j <= |ops| && LegalRun(s, ops[..j]) && Run(s, ops[..j]).current == x
  {
    j := Dispatched(s, x, ops);
  }

  /** A wake-up leads to a dispatch: the woken task is dispatched within k + 1 schedule calls, where k tasks that have
      not exited are queued before it. */
  lemma WokenRuns(s: Sched, x: nat, ops: seq<Op>) returns (j: nat)
    requires Inv(s) && x in s.queue && s.state[x] == Blocked && s.current != x
    requires LegalRun(s, [Wake(x)] + ops) && Schedules(ops) >= Alive(Ahead(s, x), s.state) + 1
    ensures j <= |ops| && LegalRun(s, [Wake(x)] + ops[..j]) && Run(s, [Wake(x)] + ops[..j]).current == x
  {
    var r := Step(s, Wake(x));
    StepInv(s, Wake(x));
    assert ([Wake(x)] + ops)[1..] == ops;
    AliveSame(Ahead(s, x), s.state, r.state);
    hide Step, Inv, Legal, Ahead, IndexOf, Alive;
    j := BoundedWaiting(r, x, ops);
    assert ([Wake(x)] + ops[..j])[1..] == ops[..j];
  }
}
