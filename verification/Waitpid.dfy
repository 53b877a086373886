/** Exits, wake-ups and waitpid over the task table.  A step is the stretch of kernel code
    between two switches. */
module Waitpid {
  import opened TaskStates

  /** What a blocked task is waiting for. */
  datatype Wait = NotWaiting | ForChild(target: int)

  /** A task; `origin` is the parent it was made by, `parent` becomes -1 when it is reaped. */
  datatype Task = Task(parent: int, state: TaskState, status: int, origin: int, wait: Wait)

  /** A status handed to a waitpid call. */
  datatype Delivery = Delivery(to: nat, child: nat, status: int)

  datatype Table = Table(tasks: seq<Task>, log: seq<Delivery>)

  /** Task `c` is an exited child of `p` that a wait for `target` may collect. */
  predicate Collectable(t: Task, c: nat, p: int, target: int) {
    t.parent == p && t.state == Exited && (target <= 0 || c == target)
  }

  /** The first collectable child, or the number of tasks. */
  function FirstExited(ts: seq<Task>, p: int, target: int, from: nat): (c: nat)
    requires from <= |ts|
    ensures from <= c <= |ts| && (c < |ts| ==> Collectable(ts[c], c, p, target))
    ensures forall k :: from <= k < c ==> !Collectable(ts[k], k, p, target)
    decreases |ts| - from
  {
    if from == |ts| || Collectable(ts[from], from, p, target) then from else FirstExited(ts, p, target, from + 1)
  }

  function Woken(ts: seq<Task>, p: int): (r: seq<Task>)
    ensures |r| == |ts|
    ensures forall i :: 0 <= i < |ts| && !(i == p && ts[i].state == Blocked) ==> r[i] == ts[i]
    ensures 0 <= p < |ts| && ts[p].state == Blocked ==> r[p].state == Ready && r[p] == ts[p].(state := Ready)
  {
    if 0 <= p < |ts| && ts[p].state == Blocked then ts[p := ts[p].(state := Ready)] else ts
  }

  // ------------------------------------------------------------------ steps

  datatype Event =
    | Create
    | Fork(p: nat)
    | Exit(p: nat, status: int)
    | TryWait(p: nat, target: int, nohang: bool)
    | Wake(p: nat)
    | BlockElsewhere(p: nat)
    | Dispatch(p: nat)

  /** The kernel may create a task without a parent at any time.  A task that has exited does nothing more; a
      task inside waitpid only tries again. */
  predicate Legal(s: Table, e: Event) {
    e.Create? || Able(s, e)
  }

  predicate Able(s: Table, e: Event)
    requires !e.Create?
  {
    && e.p < |s.tasks|
    && (e.Fork? || e.Exit? || e.BlockElsewhere? ==> s.tasks[e.p].state != Exited && s.tasks[e.p].wait.NotWaiting?)
    && (e.TryWait? ==> s.tasks[e.p].state != Exited
                       && (s.tasks[e.p].wait.NotWaiting? || s.tasks[e.p].wait == ForChild(e.target)))
    && (e.Dispatch? ==> s.tasks[e.p].state == Ready)
  }

  function Step(s: Table, e: Event): Table
    requires Legal(s, e)
  {
    var ts := s.tasks;
    match e
    case Create => s.(tasks := ts + [Task(-1, Ready, 0, -1, NotWaiting)])
    case Fork(p) => s.(tasks := ts + [Task(p, Ready, 0, p, NotWaiting)])
    case Exit(p, status) =>
      s.(tasks := Woken(ts[p := ts[p].(state := Exited, status := status)], ts[p].parent))
    case TryWait(p, target, nohang) =>
      var c := FirstExited(ts, p, target, 0);
      if c < |ts| then
        Table(ts[c := ts[c].(parent := -1)][p := ts[p].(wait := NotWaiting)], s.log + [Delivery(p, c, ts[c].status)])
      else if nohang then s.(tasks := ts[p := ts[p].(wait := NotWaiting)])
      else s.(tasks := ts[p := ts[p].(state := Blocked, wait := ForChild(target))])
    case Wake(p) => s.(tasks := Woken(ts, p))
    case BlockElsewhere(p) => s.(tasks := ts[p := ts[p].(state := Blocked)])
    case Dispatch(p) => s.(tasks := ts[p := ts[p].(state := Running)])
  }

  // ------------------------------------------------------------------ invariants

  /** A task blocked in waitpid has no child it could collect. */
  ghost predicate NoLostWakeup(ts: seq<Task>) {
    forall p, c :: 0 <= p < |ts| && 0 <= c < |ts| && ts[p].state == Blocked && ts[p].wait.ForChild? ==>
      !Collectable(ts[c], c, p, ts[p].wait.target)
  }

  /** Every delivered status is that of an exited child that nobody can collect any more, went
      to the task that made the child, and went there once. */
  ghost predicate ReapedOnce(s: Table) {
    && (forall i :: 0 <= i < |s.log| ==> s.log[i].child < |s.tasks|)
    && (forall i :: 0 <= i < |s.log| ==>
          var t := s.tasks[s.log[i].child];
          t.state == Exited && t.parent == -1 && t.origin == s.log[i].to && t.status == s.log[i].status)
    && (forall i, j :: 0 <= i < j < |s.log| ==> s.log[i].child != s.log[j].child)
  }

  /** A parent field is the origin until the child is reaped, and tasks inside waitpid have not exited. */
  ghost predicate Parents(ts: seq<Task>) {
    && (forall c :: 0 <= c < |ts| ==> ts[c].parent == -1 || ts[c].parent == ts[c].origin)
    && (forall c :: 0 <= c < |ts| && ts[c].state == Exited ==> ts[c].wait.NotWaiting?)
  }

  ghost predicate Inv(s: Table) {
    NoLostWakeup(s.tasks) && ReapedOnce(s) && Parents(s.tasks)
  }

  /** Collecting a child: it was the caller's own, it had not been collected before, and now nobody can. */
  lemma ReapInv(s: Table, p: nat, c: nat, target: int)
    requires Inv(s) && p < |s.tasks| && c < |s.tasks| && s.tasks[p].state != Exited
               && Collectable(s.tasks[c], c, p, target)
    ensures var ts := s.tasks;
            Inv(Table(ts[c := ts[c].(parent := -1)][p := ts[p].(wait := NotWaiting)],
                      s.log + [Delivery(p, c, ts[c].status)]))
  {
    var ts := s.tasks;
    var log := s.log + [Delivery(p, c, ts[c].status)];
    forall i | 0 <= i < |s.log| ensures s.log[i].child != c {
      assert ts[s.log[i].child].parent == -1;
    }
  }

  /** An exit wakes the parent, so a parent left blocked in waitpid still has nothing to collect. */
  lemma ExitInv(s: Table, p: nat, status: int)
    requires Inv(s) && p < |s.tasks| && s.tasks[p].state != Exited && s.tasks[p].wait.NotWaiting?
    ensures var ts := s.tasks;
            Inv(s.(tasks := Woken(ts[p := ts[p].(state := Exited, status := status)], ts[p].parent)))
  {
    var ts := s.tasks;
    var now := Woken(ts[p := ts[p].(state := Exited, status := status)], ts[p].parent);
    forall i | 0 <= i < |s.log| ensures s.log[i].child != p {
      assert ts[s.log[i].child].state == Exited;
    }
    forall q, c | 0 <= q < |ts| && 0 <= c < |ts| && now[q].state == Blocked && now[q].wait.ForChild?
      ensures !Collectable(now[c], c, q, now[q].wait.target)
    {
      if c != p {
        assert !Collectable(ts[c], c, q, ts[q].wait.target);
      }
    }
  }

  /** A new task has nothing to wait for and nothing to be collected for. */
  lemma AppendInv(s: Table, t: Task)
    requires Inv(s) && t.state == Ready && t.wait.NotWaiting? && t.parent == t.origin
    ensures Inv(s.(tasks := s.tasks + [t]))
  {}

  /** A task that has not exited may change its state and what it waits for, but may block only with nothing to
      collect. */
  lemma ChangeInv(s: Table, p: nat, t: Task)
    requires Inv(s) && p < |s.tasks| && s.tasks[p].state != Exited && t.state != Exited
    requires t.parent == s.tasks[p].parent && t.origin == s.tasks[p].origin
    requires t.state == Blocked && t.wait.ForChild? ==> forall c :: 0 <= c < |s.tasks| ==>
               !Collectable(s.tasks[c], c, p, t.wait.target)
    ensures Inv(s.(tasks := s.tasks[p := t]))
  {
    var ts, now := s.tasks, s.tasks[p := t];
    forall i | 0 <= i < |s.log| ensures s.log[i].child != p {
      assert ts[s.log[i].child].state == Exited;
    }
    forall q, c | 0 <= q < |ts| && 0 <= c < |ts| && now[q].state == Blocked && now[q].wait.ForChild?
      ensures !Collectable(now[c], c, q, now[q].wait.target)
    {
      if q != p {
        assert !Collectable(ts[c], c, q, ts[q].wait.target);
      } else {
        assert !Collectable(ts[c], c, p, t.wait.target);
      }
    }
  }

  lemma TryInv(s: Table, p: nat, target: int, nohang: bool)
    requires Inv(s) && Legal(s, TryWait(p, target, nohang))
    ensures Inv(Step(s, TryWait(p, target, nohang)))
  {
    var c := FirstExited(s.tasks, p, target, 0);
    hide FirstExited, Inv;
    var t := s.tasks[p];
    if c < |s.tasks| {
      ReapInv(s, p, c, target);
    } else if nohang {
      ChangeInv(s, p, t.(wait := NotWaiting));
    } else {
      ChangeInv(s, p, t.(state := Blocked, wait := ForChild(target)));
    }
  }

  lemma StepInv(s: Table, e: Event)
    requires Inv(s) && Legal(s, e)
    ensures Inv(Step(s, e)) && s.log <= Step(s, e).log
  {
    hide Inv, FirstExited;
    match e
    case Create => AppendInv(s, Task(-1, Ready, 0, -1, NotWaiting));
    case Fork(p) => AppendInv(s, Task(p, Ready, 0, p, NotWaiting));
    case Exit(p, status) => ExitInv(s, p, status);
    case TryWait(p, target, nohang) => TryInv(s, p, target, nohang);
    case Wake(p) =>
      if s.tasks[p].state == Blocked {
        ChangeInv(s, p, s.tasks[p].(state := Ready));
      }
    case BlockElsewhere(p) => ChangeInv(s, p, s.tasks[p].(state := Blocked));
    case Dispatch(p) => ChangeInv(s, p, s.tasks[p].(state := Running));
  }

  // ------------------------------------------------------------------ runs

  ghost predicate LegalRun(s: Table, es: seq<Event>)
    decreases |es|
  {
    es != [] ==> Legal(s, es[0]) && LegalRun(Step(s, es[0]), es[1..])
  }

  ghost function Run(s: Table, es: seq<Event>): Table
    requires LegalRun(s, es)
    decreases |es|
  {
    if es == [] then s else Run(Step(s, es[0]), es[1..])
  }

  /** In every reachable state no task blocked in waitpid has a child to collect, and every exit
      status has been delivered at most once, to the parent. */
  lemma {:induction false} RunInv(s: Table, es: seq<Event>)
    requires Inv(s) && LegalRun(s, es)
    ensures Inv(Run(s, es)) && s.log <= Run(s, es).log
    decreases |es|
  {
    if es != [] {
      StepInv(s, es[0]);
      RunInv(Step(s, es[0]), es[1..]);
    }
  }

  /** From the empty table the kernel boots with: a task blocked in waitpid has no exited child that it waits for and
      has not collected, and no child is delivered twice. */
  lemma BootInv(es: seq<Event>)
    requires LegalRun(Table([], []), es)
    ensures Inv(Run(Table([], []), es))
    ensures var ts := Run(Table([], []), es).tasks;
            forall p, c :: 0 <= p < |ts| && 0 <= c < |ts| && ts[p].state == Blocked && ts[p].wait.ForChild?
                           && ts[c].parent == p && ts[c].state == Exited ==>
              0 < ts[p].wait.target != c
    ensures var log := Run(Table([], []), es).log;
            forall i, j :: 0 <= i < j < |log| ==> log[i].child != log[j].child
  {
    RunInv(Table([], []), es);
    var ts := Run(Table([], []), es).tasks;
    forall p, c | 0 <= p < |ts| && 0 <= c < |ts| && ts[p].state == Blocked && ts[p].wait.ForChild?
                  && ts[c].parent == p && ts[c].state == Exited
      ensures 0 < ts[p].wait.target != c
    {
      assert !Collectable(ts[c], c, p, ts[p].wait.target);
    }
  }

  // ------------------------------------------------------------------ what is delivered, in terms of the events

  /** Tasks made by the events. */
  function Made(es: seq<Event>): nat {
    if es == [] then 0 else Made(es[..|es| - 1]) + if es[|es| - 1].Create? || es[|es| - 1].Fork? then 1 else 0
  }

  /** Some event is the exit of `c` with this status. */
  ghost predicate Exits(es: seq<Event>, c: nat, status: int) {
    exists k :: 0 <= k < |es| && es[k] == Exit(c, status)
  }

  /** Task number `c` was made by a fork of `p`. */
  ghost predicate Forks(es: seq<Event>, c: nat, p: int) {
    exists k :: 0 <= k < |es| && es[k].Fork? && es[k].p == p && Made(es[..k]) == c
  }

  /** Some event is a wait by `p` that may collect `c`. */
  ghost predicate Waits(es: seq<Event>, p: nat, c: nat) {
    exists k :: 0 <= k < |es| && es[k].TryWait? && es[k].p == p && (es[k].target <= 0 || es[k].target == c)
  }

  /** The table agrees with the events that led to it. */
  ghost predicate Told(s: Table, es: seq<Event>) {
    && |s.tasks| == Made(es)
    && (forall c :: 0 <= c < |s.tasks| && s.tasks[c].state == Exited ==> Exits(es, c, s.tasks[c].status))
    && (forall c :: 0 <= c < |s.tasks| && s.tasks[c].origin >= 0 ==> Forks(es, c, s.tasks[c].origin))
    && (forall c :: 0 <= c < |s.tasks| ==> s.tasks[c].parent == -1 || s.tasks[c].parent == s.tasks[c].origin)
    && (forall i :: 0 <= i < |s.log| ==>
          && Exits(es, s.log[i].child, s.log[i].status) && Forks(es, s.log[i].child, s.log[i].to)
          && Waits(es, s.log[i].to, s.log[i].child))
  }

  /** What the events say stays said when one more happens. */
  lemma Longer(es: seq<Event>, e: Event)
    ensures Made(es + [e]) == Made(es) + if e.Create? || e.Fork? then 1 else 0
    ensures forall c: nat, status :: Exits(es, c, status) ==> Exits(es + [e], c, status)
    ensures forall c: nat, p :: Forks(es, c, p) ==> Forks(es + [e], c, p)
    ensures forall p: nat, c: nat :: Waits(es, p, c) ==> Waits(es + [e], p, c)
    ensures e.Exit? ==> Exits(es + [e], e.p, e.status)
    ensures e.Fork? ==> Forks(es + [e], Made(es), e.p)
    ensures e.TryWait? ==> forall c: nat :: e.target <= 0 || e.target == c ==> Waits(es + [e], e.p, c)
  {
    var fs := es + [e];
    assert fs[..|es|] == es && fs[|es|] == e;
    assert forall k :: 0 <= k < |es| ==> fs[k] == es[k] && fs[..k] == es[..k];
  }

  lemma BootTold()
    ensures Told(Table([], []), [])
  {}

  lemma StepTold(s: Table, es: seq<Event>, e: Event)
    requires Told(s, es) && Legal(s, e)
    ensures Told(Step(s, e), es + [e])
  {
    Longer(es, e);
    hide Made, Exits, Forks, Waits;
  }

  lemma {:induction false} RunTold(s: Table, before: seq<Event>, es: seq<Event>)
    requires Told(s, before) && LegalRun(s, es)
    ensures Told(Run(s, es), before + es)
    decreases |es|
  {
    hide Told, Step, Legal;
    if es == [] {
      assert before + es == before;
    } else {
      StepTold(s, before, es[0]);
      assert before + [es[0]] + es[1..] == before + es;
      RunTold(Step(s, es[0]), before + [es[0]], es[1..]);
    }
  }

  /** Every status delivered is one that the child exited with, and it went to the task that forked the child, in a
      wait for that child or for any. */
  lemma DeliveredIsExit(es: seq<Event>, i: nat)
    requires LegalRun(Table([], []), es) && i < |Run(Table([], []), es).log|
    ensures var d := Run(Table([], []), es).log[i];
            && (exists k :: 0 <= k < |es| && es[k] == Exit(d.child, d.status))
            && (exists k :: 0 <= k < |es| && es[k].Fork? && es[k].p == d.to && Made(es[..k]) == d.child)
            && (exists k :: 0 <= k < |es| && es[k].TryWait? && es[k].p == d.to
                            && (es[k].target <= 0 || es[k].target == d.child))
  {
    hide Run, LegalRun, Made;
    BootTold();
    RunTold(Table([], []), [], es);
    assert [] + es == es;
    var d := Run(Table([], []), es).log[i];
    assert Exits(es, d.child, d.status) && Forks(es, d.child, d.to) && Waits(es, d.to, d.child);
  }

  lemma ThreeSteps(s: Table, a: Event, b: Event, c: Event)
    requires Legal(s, a) && Legal(Step(s, a), b) && Legal(Step(Step(s, a), b), c)
    ensures LegalRun(s, [a, b, c]) && Run(s, [a, b, c]) == Step(Step(Step(s, a), b), c)
  {
    hide Legal, Step;
    assert [a, b, c][1..] == [b, c] && [b, c][1..] == [c] && [c][1..] == [];
    assert LegalRun(Step(Step(s, a), b), [c]);
    assert LegalRun(Step(s, a), [b, c]);
    assert Run(Step(Step(s, a), b), [c]) == Step(Step(Step(s, a), b), c);
  }

  /** The exit of a child that its parent sleeps for makes the parent ready to run, and the child the one to collect. */
  lemma ExitWakes(s: Table, p: nat, status: int, q: nat, target: int)
    requires Inv(s) && Legal(s, Exit(p, status)) && s.tasks[p].parent == q < |s.tasks|
    requires s.tasks[q].state == Blocked && s.tasks[q].wait == ForChild(target) && (target <= 0 || target == p)
    ensures var s1 := Step(s, Exit(p, status));
            && Legal(s1, Dispatch(q)) && s1.log == s.log && |s1.tasks| == |s.tasks|
            && s1.tasks[q].wait == ForChild(target) && s1.tasks[p].status == status
            && Collectable(s1.tasks[p], p, q, target)
            && forall c :: 0 <= c < |s.tasks| && c != p ==> !Collectable(s1.tasks[c], c, q, target)
  {
    var ts, now := s.tasks, Step(s, Exit(p, status)).tasks;
    forall c | 0 <= c < |ts| && c != p ensures !Collectable(now[c], c, q, target) {
      assert !Collectable(ts[c], c, q, target);
    }
  }

  lemma OnlyOne(ts: seq<Task>, q: int, target: int, p: nat)
    requires p < |ts| && forall c :: 0 <= c < |ts| ==> (Collectable(ts[c], c, q, target) <==> c == p)
    ensures FirstExited(ts, q, target, 0) == p
  {
    hide FirstExited, Collectable;
    assert Collectable(ts[p], p, q, target);
  }

  /** So its next try delivers the status of that exit. */
  lemma ExitCollected(s: Table, p: nat, status: int, q: nat, target: int, nohang: bool)
    requires Inv(s) && Legal(s, Exit(p, status)) && s.tasks[p].parent == q < |s.tasks|
    requires s.tasks[q].state == Blocked && s.tasks[q].wait == ForChild(target) && (target <= 0 || target == p)
    ensures var es := [Exit(p, status), Dispatch(q), TryWait(q, target, nohang)];
            LegalRun(s, es) && Run(s, es).log == s.log + [Delivery(q, p, status)]
  {
    hide Inv, Run, LegalRun;
    ExitWakes(s, p, status, q, target);
    var s1 := Step(s, Exit(p, status));
    var s2 := Step(s1, Dispatch(q));
    forall c | 0 <= c < |s2.tasks| ensures Collectable(s2.tasks[c], c, q, target) <==> c == p {
      assert c != p ==> !Collectable(s1.tasks[c], c, q, target);
    }
    OnlyOne(s2.tasks, q, target, p);
    ThreeSteps(s, Exit(p, status), Dispatch(q), TryWait(q, target, nohang));
  }

  // ------------------------------------------------------------------ the task table

  class TaskTable {
    const tasks: array<Task>
    var nextPid: nat
    ghost var log: seq<Delivery>

    constructor (maxTasks: nat)
      ensures Valid() && View() == Table([], []) && fresh(tasks) && tasks.Length == maxTasks
    {
      tasks := new Task[maxTasks](_ => Task(-1, Ready, 0, -1, NotWaiting));
      nextPid, log := 0, [];
    }

    ghost predicate Valid()
      reads this, tasks
    {
      nextPid <= tasks.Length
    }

    ghost function View(): Table
      requires Valid()
      reads this, tasks
    {
      Table(tasks[..nextPid], log)
    }

    /** A new task at the end of the table, or -1 exactly when the table is full; `parent` is -1 or a task that may
        fork. */
    method NewTask(parent: int) returns (pid: int)
      requires Valid() && (parent == -1 || (parent >= 0 && Legal(View(), Fork(parent))))
      modifies this`nextPid, tasks
      ensures Valid() && (pid == -1 <==> old(nextPid) == tasks.Length)
      ensures pid == -1 ==> View() == old(View())
      ensures pid != -1 ==> pid == old(nextPid)
      ensures pid != -1 ==> View() == Step(old(View()), if parent == -1 then Create else Fork(parent))
      ensures pid != -1 ==> nextPid == pid + 1 && tasks[pid].parent == parent && tasks[pid].state == Ready
      ensures forall i :: 0 <= i < old(nextPid) ==> tasks[i] == old(tasks[i])
    {
      if nextPid >= tasks.Length {
        return -1;
      }
      ghost var ts := tasks[..nextPid];
      pid := nextPid;
      tasks[pid] := Task(parent, Ready, 0, parent, NotWaiting);
      nextPid := nextPid + 1;
      assert tasks[..nextPid] == ts + [tasks[pid]];
    }

    /** Searches the table for an exited child of `p`. */
    method FindExited(p: int, target: int) returns (c: nat)
      requires Valid()
      ensures c == FirstExited(tasks[..nextPid], p, target, 0)
      ensures c <= nextPid
      ensures c < nextPid ==> tasks[c].parent == p && tasks[c].state == Exited && (target <= 0 || c == target)
      ensures forall k :: 0 <= k < c ==>
                !(tasks[k].parent == p && tasks[k].state == Exited && (target <= 0 || k == target))
    {
      ghost var ts := tasks[..nextPid];
      c := 0;
      while c < nextPid
        invariant c <= nextPid && FirstExited(ts, p, target, 0) == FirstExited(ts, p, target, c)
        invariant forall k :: 0 <= k < c ==>
                    !(tasks[k].parent == p && tasks[k].state == Exited && (target <= 0 || k == target))
      {
        if tasks[c].parent == p && tasks[c].state == Exited && (target <= 0 || c == target) {
          return;
        }
        c := c + 1;
      }
    }

    method WakeTask(p: int)
      requires Valid()
      modifies tasks
      ensures Valid() && tasks[..nextPid] == Woken(old(tasks[..nextPid]), p)
      ensures forall i :: 0 <= i < nextPid ==>
                tasks[i] == if i == p && old(tasks[i].state) == Blocked then old(tasks[i]).(state := Ready)
                            else old(tasks[i])
    {
      var i := 0;
      while i < nextPid
        invariant 0 <= i <= nextPid && tasks[..] == old(tasks[..])
                    && (0 <= p < nextPid ==> i <= p || tasks[p].state != Blocked)
      {
        if i == p && tasks[i].state == Blocked {
          tasks[i] := tasks[i].(state := Ready);
          return;
        }
        i := i + 1;
      }
    }

    /** The stretch of task_exit up to the switch; `p` is the running task. */
    method ExitTask(p: nat, status: int)
      requires Valid() && Legal(View(), Exit(p, status))
      modifies tasks
      ensures Valid() && View() == Step(old(View()), Exit(p, status))
      ensures tasks[p] == old(tasks[p]).(state := Exited, status := status)
      ensures forall i :: 0 <= i < nextPid && i != p ==>
                tasks[i] == if i == old(tasks[p].parent) && old(tasks[i].state) == Blocked
                            then old(tasks[i]).(state := Ready) else old(tasks[i])
    {
      ghost var ts := tasks[..nextPid];
      tasks[p] := tasks[p].(state := Exited, status := status);
      assert tasks[..nextPid] == ts[p := ts[p].(state := Exited, status := status)];
      if tasks[p].parent >= 0 {
        WakeTask(tasks[p].parent);
      }
    }

    /** One turn of the waitpid loop: a child's pid and status, 0 for "nothing yet" under
        WNOHANG, or -1 when the caller is now blocked. */
    method WaitTurn(p: nat, target: int, nohang: bool) returns (r: int, status: int)
      requires Valid() && Legal(View(), TryWait(p, target, nohang))
      modifies tasks, this`log
      ensures Valid() && View() == Step(old(View()), TryWait(p, target, nohang))
      ensures (exists c :: 0 <= c < nextPid && old(tasks[c].parent) == p && old(tasks[c].state) == Exited
                           && (target <= 0 || c == target)) ==>
                && 0 <= r < nextPid && old(tasks[r].parent) == p && old(tasks[r].state) == Exited
                && (target <= 0 || r == target) && status == old(tasks[r].status)
                && (forall c :: 0 <= c < r ==> !(old(tasks[c].parent) == p && old(tasks[c].state) == Exited
                                                 && (target <= 0 || c == target)))
                && log == old(log) + [Delivery(p, r, status)] && tasks[p].state == old(tasks[p].state)
                && forall i :: 0 <= i < nextPid && i != p ==>
                     tasks[i] == if i == r then old(tasks[i]).(parent := -1) else old(tasks[i])
      ensures !(exists c :: 0 <= c < nextPid && old(tasks[c].parent) == p && old(tasks[c].state) == Exited
                            && (target <= 0 || c == target)) ==>
                && status == 0 && r == (if nohang then 0 else -1) && log == old(log)
                && (forall i :: 0 <= i < nextPid && i != p ==> tasks[i] == old(tasks[i]))
                && tasks[p].state == if nohang then old(tasks[p].state) else Blocked
    {
      ghost var ts := tasks[..nextPid];
      var c := FindExited(p, target);
      if c < nextPid {
        status := tasks[c].status;
        tasks[c] := tasks[c].(parent := -1);
        tasks[p] := tasks[p].(wait := NotWaiting);
        log := log + [Delivery(p, c, status)];
        assert tasks[..nextPid] == ts[c := ts[c].(parent := -1)][p := ts[p].(wait := NotWaiting)];
        return c, status;
      }
      if nohang {
        tasks[p] := tasks[p].(wait := NotWaiting);
        assert tasks[..nextPid] == ts[p := ts[p].(wait := NotWaiting)];
        return 0, 0;
      }
      tasks[p] := tasks[p].(state := Blocked, wait := ForChild(target));
      assert tasks[..nextPid] == ts[p := ts[p].(state := Blocked, wait := ForChild(target))];
      return -1, 0;
    }
  }
}
