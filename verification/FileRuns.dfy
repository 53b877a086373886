/** Runs of the descriptor calls.  The reference knows no reference counts: a file is released when no descriptor
    names it, and a pipe is unused when no open file is an end of it. */
module FileRuns {
  import opened Descriptors
  import opened FileTables

  datatype Call =
    | OpenCall(task: nat)
    | CloseCall(task: nat, fd: int)
    | DupCall(task: nat, fd: int)
    | DupFromCall(task: nat, fd: int, arg: nat)
    | Dup2Call(task: nat, fd: int, newfd: int)
    | PipeCall(task: nat)
    | ForkCall(task: nat)
    | ExitCall(task: nat)

  /** What a call returns: a number, with -1 for failure, or the two descriptors of a pipe. */
  datatype Reply = Nobody | One(n: int) | Two(r: int, w: int)

  /** The descriptors of every task, what each open file is, and how many tasks have been started. */
  datatype Snapshot = Snapshot(fds: Tables, kinds: seq<Kind>, tasks: nat)

  predicate Formed(s: Snapshot) {
    && |s.fds| == MAX_TASKS && s.tasks <= MAX_TASKS && |s.kinds| == MAX_OPEN_FILES
    && forall t :: 0 <= t < |s.fds| ==> |s.fds[t]| == MAX_FD
  }

  function KindsOf(files: seq<File>): (kinds: seq<Kind>)
    ensures |kinds| == |files| && forall f :: 0 <= f < |files| ==> kinds[f] == files[f].kind
  {
    seq(|files|, f requires 0 <= f < |files| => files[f].kind)
  }

  ghost function Now(table: FileTable): Snapshot
    reads table
  {
    Snapshot(table.fds, KindsOf(table.files), table.nextPid)
  }

  // ------------------------------------------------------------------ the reference

  predicate Named(fds: Tables, f: int) {
    exists t, k :: 0 <= t < |fds| && 0 <= k < |fds[t]| && fds[t][k] == f
  }

  /** The files that some descriptor still names. */
  function Collect(fds: Tables, kinds: seq<Kind>): (r: seq<Kind>)
    ensures |r| == |kinds| && forall f :: 0 <= f < |kinds| ==> r[f] == if Named(fds, f) then kinds[f] else Free
  {
    seq(|kinds|, f requires 0 <= f < |kinds| => if Named(fds, f) then kinds[f] else Free)
  }

  function FirstEmpty(table: seq<int>, from: nat): (k: int)
    ensures -1 <= k < |table| && (k >= 0 ==> LowestEmpty(table, from, k))
    ensures k < 0 ==> forall l :: from <= l < |table| ==> table[l] != -1
    decreases |table| - from
  {
    if from >= |table| then -1 else if table[from] == -1 then from else FirstEmpty(table, from + 1)
  }

  function FirstFree(kinds: seq<Kind>, from: nat): (f: int)
    ensures -1 <= f < |kinds| && (f >= 0 ==> from <= f && kinds[f] == Free)
    ensures forall g :: from <= g < (if f < 0 then |kinds| else f) ==> kinds[g] != Free
    decreases |kinds| - from
  {
    if from >= |kinds| then -1 else if kinds[from] == Free then from else FirstFree(kinds, from + 1)
  }

  predicate PipeOpen(kinds: seq<Kind>, p: nat) { ReadEnd(p) in kinds || WriteEnd(p) in kinds }

  function FirstUnused(kinds: seq<Kind>, from: nat): (p: int)
    ensures -1 <= p < MAX_PIPES && (p >= 0 ==> from <= p && !PipeOpen(kinds, p))
    ensures forall q: nat :: from <= q < (if p < 0 then MAX_PIPES else p) ==> PipeOpen(kinds, q)
    decreases MAX_PIPES - from
  {
    if from >= MAX_PIPES then -1 else if !PipeOpen(kinds, from) then from else FirstUnused(kinds, from + 1)
  }

  /** With these descriptors, files that nothing names any more are released. */
  function Settle(s: Snapshot, fds: Tables): Snapshot { Snapshot(fds, Collect(fds, s.kinds), s.tasks) }

  /** Descriptor `fd` of `t` is open. */
  predicate Holds(s: Snapshot, t: nat, fd: int)
    requires Formed(s) && t < |s.fds|
  {
    0 <= fd < MAX_FD && s.fds[t][fd] >= 0
  }

  function Opened(s: Snapshot, t: nat): (Snapshot, Reply)
    requires Formed(s) && t < |s.fds|
  {
    var f, k := FirstFree(s.kinds, 0), FirstEmpty(s.fds[t], 0);
    if f < 0 || k < 0 then (s, One(-1))
    else (Snapshot(SetFd(s.fds, t, k, f), s.kinds[f := Plain], s.tasks), One(k))
  }

  /** Descriptor `k` of `t`, if there is one, comes to name the file of `fd` as well. */
  function Copied(s: Snapshot, t: nat, fd: int, k: int): (Snapshot, Reply)
    requires Formed(s) && t < |s.fds|
  {
    if Holds(s, t, fd) && 0 <= k < MAX_FD then (Settle(s, SetFd(s.fds, t, k, s.fds[t][fd])), One(k)) else (s, One(-1))
  }

  function Piped(s: Snapshot, t: nat): (Snapshot, Reply)
    requires Formed(s) && t < |s.fds|
  {
    var p, f, r := FirstUnused(s.kinds, 0), FirstFree(s.kinds, 0), FirstEmpty(s.fds[t], 0);
    if p < 0 || f < 0 || r < 0 then (s, One(-1)) else
    var g, w := FirstFree(s.kinds, f + 1), FirstEmpty(s.fds[t], r + 1);
    if g < 0 || w < 0 then (s, One(-1)) else
    (Snapshot(SetFd(SetFd(s.fds, t, r, f), t, w, g), s.kinds[f := ReadEnd(p)][g := WriteEnd(p)], s.tasks), Two(r, w))
  }

  function Next(s: Snapshot, call: Call): (after: (Snapshot, Reply))
    requires Formed(s)
    ensures Formed(after.0)
  {
    if call.task >= s.tasks then (s, Nobody) else
    match call
    case OpenCall(t) => Opened(s, t)
    case CloseCall(t, fd) => if Holds(s, t, fd) then (Settle(s, SetFd(s.fds, t, fd, -1)), One(0)) else (s, One(-1))
    case DupCall(t, fd) => Copied(s, t, fd, FirstEmpty(s.fds[t], 0))
    case DupFromCall(t, fd, arg) => Copied(s, t, fd, FirstEmpty(s.fds[t], arg))
    case Dup2Call(t, fd, newfd) => Copied(s, t, fd, newfd)
    case PipeCall(t) => Piped(s, t)
    case ForkCall(t) =>
      if s.tasks < MAX_TASKS then (Snapshot(s.fds[s.tasks := s.fds[t]], s.kinds, s.tasks + 1), One(s.tasks))
      else (s, One(-1))
    case ExitCall(t) => (Settle(s, s.fds[t := EmptyTable()]), One(0))
  }

  /** A whole run: the final state and all replies. */
  function Replay(s: Snapshot, calls: seq<Call>): (after: (Snapshot, seq<Reply>))
    requires Formed(s)
    ensures Formed(after.0) && |after.1| == |calls|
  {
    if calls == [] then (s, []) else
    var before := Replay(s, calls[..|calls| - 1]);
    var last := Next(before.0, calls[|calls| - 1]);
    (last.0, before.1 + [last.1])
  }

  // ------------------------------------------------------------------ counts and the reference agree

  /** A file is open exactly if a descriptor names it. */
  lemma OpenIfNamed(files: seq<File>, fds: Tables, pipes: seq<PipeRefs>, f: nat)
    requires Inv(files, fds, pipes) && f < |files|
    ensures files[f].kind != Free <==> Named(fds, f)
  {
    assert FileCounted(files[f], Slots(fds, f));
    if Named(fds, f) {
      var t, k :| 0 <= t < |fds| && 0 <= k < |fds[t]| && fds[t][k] == f;
      assert (t, k) in Slots(fds, f);
    }
    if Slots(fds, f) != {} {
      var slot :| slot in Slots(fds, f);
      assert fds[slot.0][slot.1] == f;
    }
  }

  /** A pipe is in use exactly if an open file is one of its ends. */
  lemma UsedIfOpen(files: seq<File>, fds: Tables, pipes: seq<PipeRefs>, p: nat)
    requires Inv(files, fds, pipes) && p < |pipes|
    ensures pipes[p].used <==> PipeOpen(KindsOf(files), p)
  {
    assert PipeCounted(files, pipes[p], p);
    EndsIn(files, ReadEnd(p));
    EndsIn(files, WriteEnd(p));
  }

  lemma EndsIn(files: seq<File>, kind: Kind)
    ensures |Ends(files, kind)| > 0 <==> kind in KindsOf(files)
  {
    if Ends(files, kind) != {} {
      var f :| f in Ends(files, kind);
      assert KindsOf(files)[f] == kind;
    }
    if kind in KindsOf(files) {
      var f :| 0 <= f < |files| && KindsOf(files)[f] == kind;
      assert f in Ends(files, kind);
    }
  }

  /** If no file gets a new name, and none changes what it is, then exactly the unnamed ones have been released. */
  lemma Settled(files: seq<File>, fds: Tables, pipes: seq<PipeRefs>, files': seq<File>, fds': Tables,
                pipes': seq<PipeRefs>)
    requires Inv(files, fds, pipes) && Inv(files', fds', pipes')
    requires forall f :: 0 <= f < |files| && files[f].kind != Free && files'[f].kind != Free ==>
               files'[f].kind == files[f].kind
    requires forall f :: f >= 0 && Named(fds', f) ==> Named(fds, f)
    ensures KindsOf(files') == Collect(fds', KindsOf(files))
  {
    forall f | 0 <= f < |files| ensures KindsOf(files')[f] == Collect(fds', KindsOf(files))[f] {
      OpenIfNamed(files, fds, pipes, f);
      OpenIfNamed(files', fds', pipes', f);
    }
  }

  /** Overwriting a descriptor names nothing but the file put there. */
  lemma NamedAfter(fds: Tables, t: nat, k: nat, g: int)
    requires t < |fds| && k < |fds[t]|
    ensures forall f :: Named(SetFd(fds, t, k, g), f) && f != g ==> Named(fds, f)
  {
    forall f | Named(SetFd(fds, t, k, g), f) && f != g ensures Named(fds, f) {
      var u, l :| 0 <= u < |fds| && 0 <= l < |SetFd(fds, t, k, g)[u]| && SetFd(fds, t, k, g)[u][l] == f;
      assert fds[u][l] == f;
    }
  }

  // ------------------------------------------------------------------ one call at a time

  lemma NowFormed(table: FileTable)
    requires table.Valid()
    ensures Formed(Now(table)) && Tidy(Now(table))
  {
    forall f | 0 <= f < |table.files| && Named(table.fds, f) ensures table.files[f].kind != Free {
      OpenIfNamed(table.files, table.fds, table.pipes, f);
    }
  }

  /** What a descriptor names is open. */
  ghost predicate Tidy(s: Snapshot) {
    forall f :: 0 <= f < |s.kinds| && Named(s.fds, f) ==> s.kinds[f] != Free
  }

  method DoOpen(table: FileTable, t: nat) returns (reply: Reply)
    requires table.Runs(t) && Formed(Now(table))
    modifies table
    ensures table.Valid() && (Now(table), reply) == Opened(old(Now(table)), t)
  {
    hide Inv, Keeps;
    var fd := table.Open(t);
    reply := One(fd);
    if fd < 0 {
      assert KindsOf(table.files) == KindsOf(old(table.files));
    } else {
      assert KindsOf(table.files) == KindsOf(old(table.files))[table.fds[t][fd] := Plain];
    }
  }

  /** Copying a descriptor that is open gives no file a first name. */
  lemma CopySettles(files: seq<File>, fds: Tables, pipes: seq<PipeRefs>, files': seq<File>, pipes': seq<PipeRefs>,
                    t: nat, k: nat, g: int)
    requires Inv(files, fds, pipes) && t < |fds| && k < MAX_FD && (g == -1 || Named(fds, g))
    requires Inv(files', SetFd(fds, t, k, g), pipes') && Keeps(files, fds, files', SetFd(fds, t, k, g), t)
    ensures KindsOf(files') == Collect(SetFd(fds, t, k, g), KindsOf(files))
  {
    hide Counted, PipesCounted, Named, KindsOf, Collect;
    NamedAfter(fds, t, k, g);
    Settled(files, fds, pipes, files', SetFd(fds, t, k, g), pipes');
  }

  method DoClose(table: FileTable, t: nat, fd: int) returns (reply: Reply)
    requires table.Runs(t) && Formed(Now(table))
    modifies table
    ensures table.Valid() && (Now(table), reply) == Next(old(Now(table)), CloseCall(t, fd))
  {
    hide Inv, Keeps, Collect, Named, KindsOf;
    var ok := table.Close(t, fd);
    reply := One(if ok then 0 else -1);
    if ok {
      CopySettles(old(table.files), old(table.fds), old(table.pipes), table.files, table.pipes, t, fd, -1);
    }
  }

  method DoDup(table: FileTable, t: nat, fd: int) returns (reply: Reply)
    requires table.Runs(t) && Formed(Now(table))
    modifies table
    ensures table.Valid() && (Now(table), reply) == Next(old(Now(table)), DupCall(t, fd))
  {
    hide Inv, Keeps, Collect, KindsOf;
    var k := table.Dup(t, fd);
    reply := One(k);
    if k >= 0 {
      assert Named(old(table.fds), old(table.fds)[t][fd]);
      hide Named;
      CopySettles(old(table.files), old(table.fds), old(table.pipes), table.files, table.pipes, t, k,
                  old(table.fds)[t][fd]);
    }
  }

  method DoDupFrom(table: FileTable, t: nat, fd: int, arg: nat) returns (reply: Reply)
    requires table.Runs(t) && Formed(Now(table))
    modifies table
    ensures table.Valid() && (Now(table), reply) == Next(old(Now(table)), DupFromCall(t, fd, arg))
  {
    hide Inv, Keeps, Collect, KindsOf;
    var k := table.DupFrom(t, fd, arg);
    reply := One(k);
    if k >= 0 {
      assert Named(old(table.fds), old(table.fds)[t][fd]);
      hide Named;
      CopySettles(old(table.files), old(table.fds), old(table.pipes), table.files, table.pipes, t, k,
                  old(table.fds)[t][fd]);
    }
  }

  method DoDup2(table: FileTable, t: nat, fd: int, newfd: int) returns (reply: Reply)
    requires table.Runs(t) && Formed(Now(table))
    modifies table
    ensures table.Valid() && (Now(table), reply) == Next(old(Now(table)), Dup2Call(t, fd, newfd))
  {
    hide Inv, Keeps, Collect, KindsOf;
    var k := table.Dup2(t, fd, newfd);
    reply := One(k);
    if k >= 0 {
      assert Named(old(table.fds), old(table.fds)[t][fd]);
      hide Named;
      CopySettles(old(table.files), old(table.fds), old(table.pipes), table.files, table.pipes, t, k,
                  old(table.fds)[t][fd]);
    }
  }

  lemma LowestPipe(files: seq<File>, fds: Tables, pipes: seq<PipeRefs>)
    requires Inv(files, fds, pipes)
    ensures |pipes| == MAX_PIPES
    ensures var p := FirstUnused(KindsOf(files), 0);
            if p >= 0 then LowestUnused(pipes, p) else forall q :: 0 <= q < MAX_PIPES ==> pipes[q].used
  {
    hide Slots, Counted, PipesCounted, KindsOf;
    forall p: nat | p < |pipes| ensures pipes[p].used <==> PipeOpen(KindsOf(files), p) {
      UsedIfOpen(files, fds, pipes, p);
    }
  }

  lemma FreeIs(files: seq<File>, from: nat, f: nat)
    requires LowestFree(files, from, f)
    ensures FirstFree(KindsOf(files), from) == f
  {}

  lemma EmptyIs(table: seq<int>, from: nat, k: nat)
    requires LowestEmpty(table, from, k)
    ensures FirstEmpty(table, from) == k
  {}

  lemma PipeSucceeds(files: seq<File>, fds: Tables, pipes: seq<PipeRefs>, tasks: nat, t: nat,
                     p: nat, f: nat, g: nat, r: nat, w: nat)
    requires Inv(files, fds, pipes) && t < |fds| && Formed(Snapshot(fds, KindsOf(files), tasks))
    requires LowestUnused(pipes, p) && LowestFree(files, 0, f) && LowestFree(files, f + 1, g)
    requires LowestEmpty(fds[t], 0, r) && LowestEmpty(fds[t], r + 1, w)
    ensures Piped(Snapshot(fds, KindsOf(files), tasks), t) ==
              (Snapshot(SetFd(SetFd(fds, t, r, f), t, w, g),
                        KindsOf(files[f := File(ReadEnd(p), 1)][g := File(WriteEnd(p), 1)]), tasks), Two(r, w))
  {
    hide Inv, KindsOf, FirstEmpty, FirstFree, FirstUnused;
    LowestPipe(files, fds, pipes);
    FreeIs(files, 0, f);
    FreeIs(files, f + 1, g);
    EmptyIs(fds[t], 0, r);
    EmptyIs(fds[t], r + 1, w);
    assert FirstUnused(KindsOf(files), 0) == p;
    assert KindsOf(files[f := File(ReadEnd(p), 1)][g := File(WriteEnd(p), 1)]) ==
           KindsOf(files)[f := ReadEnd(p)][g := WriteEnd(p)];
  }

  lemma PipeFails(files: seq<File>, fds: Tables, pipes: seq<PipeRefs>, tasks: nat, t: nat)
    requires Inv(files, fds, pipes) && t < |fds| && Formed(Snapshot(fds, KindsOf(files), tasks))
    requires !((exists q :: 0 <= q < MAX_PIPES && !pipes[q].used) && TwoFree(files) && TwoEmpty(fds[t]))
    ensures Piped(Snapshot(fds, KindsOf(files), tasks), t) == (Snapshot(fds, KindsOf(files), tasks), One(-1))
  {
    hide Counted, PipesCounted;
    LowestPipe(files, fds, pipes);
  }

  method DoPipe(table: FileTable, t: nat) returns (reply: Reply)
    requires table.Runs(t) && Formed(Now(table))
    modifies table
    ensures table.Valid() && (Now(table), reply) == Piped(old(Now(table)), t)
  {
    hide Inv, Keeps, KindsOf, Piped, TwoFree, TwoEmpty, LowestEmpty, LowestFree, LowestUnused;
    var r, w := table.Pipe(t);
    reply := if w < 0 then One(-1) else Two(r, w);
    ghost var files, fds, pipes := old(table.files), old(table.fds), old(table.pipes);
    if w < 0 {
      PipeFails(files, fds, pipes, table.nextPid, t);
      KindsSame(files, table.files);
    } else {
      var f, g := table.fds[t][r], table.fds[t][w];
      PipeSucceeds(files, fds, pipes, table.nextPid, t, table.files[f].kind.pipe, f, g, r, w);
    }
  }

  lemma KindsSame(files: seq<File>, files': seq<File>)
    requires SameKinds(files, files')
    ensures KindsOf(files') == KindsOf(files)
  {}

  method DoFork(table: FileTable, t: nat) returns (reply: Reply)
    requires table.Runs(t) && Formed(Now(table))
    modifies table
    ensures table.Valid() && (Now(table), reply) == Next(old(Now(table)), ForkCall(t))
  {
    hide Inv;
    var pid := table.Fork(t);
    reply := One(pid);
    assert KindsOf(table.files) == KindsOf(old(table.files));
  }

  method DoExit(table: FileTable, t: nat) returns (reply: Reply)
    requires table.Runs(t) && Formed(Now(table))
    modifies table
    ensures table.Valid() && (Now(table), reply) == Next(old(Now(table)), ExitCall(t))
  {
    hide Inv, Collect, KindsOf;
    table.Exit(t);
    reply := One(0);
    forall f | f >= 0 && Named(table.fds, f) ensures Named(old(table.fds), f) {
      var u, l :| 0 <= u < |table.fds| && 0 <= l < |table.fds[u]| && table.fds[u][l] == f;
      assert old(table.fds)[u][l] == f;
    }
    Settled(old(table.files), old(table.fds), old(table.pipes), table.files, table.fds, table.pipes);
  }

  /** One call by a task that exists; a call by any other has no caller. */
  method Perform(table: FileTable, call: Call) returns (reply: Reply)
    requires table.Valid()
    modifies table
    ensures table.Valid() && Formed(old(Now(table))) && (Now(table), reply) == Next(old(Now(table)), call)
  {
    hide FileTable.Valid, KindsOf, Opened, Copied, Piped, Settle;
    NowFormed(table);
    reply := Nobody;
    if call.task < table.nextPid {
      match call {
        case OpenCall(t) => reply := DoOpen(table, t);
        case CloseCall(t, fd) => reply := DoClose(table, t, fd);
        case DupCall(t, fd) => reply := DoDup(table, t, fd);
        case DupFromCall(t, fd, arg) => reply := DoDupFrom(table, t, fd, arg);
        case Dup2Call(t, fd, newfd) => reply := DoDup2(table, t, fd, newfd);
        case PipeCall(t) => reply := DoPipe(table, t);
        case ForkCall(t) => reply := DoFork(table, t);
        case ExitCall(t) => reply := DoExit(table, t);
      }
    }
  }

  // ------------------------------------------------------------------ runs

  /** A bystander's descriptors still name the files they named. */
  ghost predicate Undisturbed(s: Snapshot, s': Snapshot, t: nat) {
    && |s'.kinds| == |s.kinds| && t < |s.fds| && t < |s'.fds| && s'.fds[t] == s.fds[t]
    && forall k :: 0 <= k < |s.fds[t]| && 0 <= s.fds[t][k] < |s.kinds| ==> s'.kinds[s.fds[t][k]] == s.kinds[s.fds[t][k]]
  }

  lemma Bystander(s: Snapshot, call: Call, t: nat)
    requires Formed(s) && Tidy(s) && t < s.tasks && t != call.task
    ensures Undisturbed(s, Next(s, call).0, t)
  {
    var s' := Next(s, call).0;
    forall k | 0 <= k < |s.fds[t]| && 0 <= s.fds[t][k] < |s.kinds|
      ensures s'.kinds[s.fds[t][k]] == s.kinds[s.fds[t][k]]
    {
      assert Named(s.fds, s.fds[t][k]);
      assert s'.fds[t][k] == s.fds[t][k];
      assert Named(s'.fds, s.fds[t][k]);
    }
  }

  ghost predicate NoCallBy(calls: seq<Call>, t: nat) {
    forall i :: 0 <= i < |calls| ==> calls[i].task != t
  }

  lemma ReplayOne(s: Snapshot, calls: seq<Call>, i: nat)
    requires Formed(s) && i < |calls|
    ensures var before, last := Replay(s, calls[..i]), Next(Replay(s, calls[..i]).0, calls[i]);
            Replay(s, calls[..i + 1]) == (last.0, before.1 + [last.1])
  {
    hide Next;
    assert calls[..i + 1][..i] == calls[..i];
  }

  /** Over every run of calls by all tasks the counts stay exact, the descriptors, the files and all replies are those
      of the reference, and a task that makes no call itself keeps every descriptor naming the file it named. */
  method Run(table: FileTable, calls: seq<Call>) returns (replies: seq<Reply>)
    requires table.Valid()
    modifies table
    ensures table.Valid() && Formed(old(Now(table))) && (Now(table), replies) == Replay(old(Now(table)), calls)
    ensures forall t :: 0 <= t < old(table.nextPid) && NoCallBy(calls, t) ==>
              Undisturbed(old(Now(table)), Now(table), t)
  {
    hide FileTable.Valid, Next, KindsOf, Tidy;
    ghost var start := Now(table);
    NowFormed(table);
    assert calls[..0] == [];
    replies := [];
    for i := 0 to |calls|
      invariant table.Valid() && start.tasks <= table.nextPid && (Now(table), replies) == Replay(start, calls[..i])
      invariant forall t :: 0 <= t < start.tasks && NoCallBy(calls, t) ==> Undisturbed(start, Now(table), t)
    {
      hide Replay;
      NowFormed(table);
      ghost var before := Now(table);
      var reply := Perform(table, calls[i]);
      MoreTasks(before, calls[i]);
      forall t | 0 <= t < start.tasks && NoCallBy(calls, t) ensures Undisturbed(start, Now(table), t) {
        Bystander(before, calls[i], t);
      }
      ReplayOne(start, calls, i);
      replies := replies + [reply];
    }
    assert calls[..|calls|] == calls;
  }

  lemma MoreTasks(s: Snapshot, call: Call)
    requires Formed(s)
    ensures Next(s, call).0.tasks >= s.tasks
  {}
}
