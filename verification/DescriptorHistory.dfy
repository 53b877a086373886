/** What a descriptor refers to after a run, told from the calls and their replies alone: the call that opened it,
    found by following copies back through dup, dup2, fcntl and fork. */
module DescriptorHistory {
  import opened Descriptors
  import opened FileTables
  import opened FileRuns

  /** Which part of an opening call a descriptor stems from. */
  datatype End = Whole | Reading | Writing

  /** Where one call took descriptor `k` of task `t` from. */
  datatype Source = Gone | New(end: End) | Copy(task: nat, fd: int)

  function From(call: Call, reply: Reply, t: nat, k: int): Source {
    match call
    case OpenCall(u) => if u == t && reply == One(k) then New(Whole) else Copy(t, k)
    case CloseCall(u, fd) => if u == t && fd == k && reply == One(0) then Gone else Copy(t, k)
    case DupCall(u, fd) => if u == t && reply == One(k) then Copy(t, fd) else Copy(t, k)
    case DupFromCall(u, fd, _) => if u == t && reply == One(k) then Copy(t, fd) else Copy(t, k)
    case Dup2Call(u, fd, _) => if u == t && reply == One(k) then Copy(t, fd) else Copy(t, k)
    case PipeCall(u) =>
      if u == t && reply.Two? && reply.r == k then New(Reading)
      else if u == t && reply.Two? && reply.w == k then New(Writing)
      else Copy(t, k)
    case ForkCall(u) => if reply == One(t) then Copy(u, k) else Copy(t, k)
    case ExitCall(u) => if u == t && reply == One(0) then Gone else Copy(t, k)
  }

  /** When a call is refused, on the state before it: a descriptor that is not open, or no room for a new one. */
  lemma RefusedIff(s: Snapshot, call: Call)
    requires Formed(s) && call.task < s.tasks
    ensures var fds := s.fds[call.task];
            Next(s, call).1 == One(-1) <==>
            match call
            case OpenCall(_) => Free !in s.kinds || -1 !in fds
            case CloseCall(_, fd) => !(0 <= fd < MAX_FD && fds[fd] >= 0)
            case DupCall(_, fd) => !(0 <= fd < MAX_FD && fds[fd] >= 0) || -1 !in fds
            case DupFromCall(_, fd, arg) =>
              !(0 <= fd < MAX_FD && fds[fd] >= 0) || forall l :: arg <= l < MAX_FD ==> fds[l] != -1
            case Dup2Call(_, fd, newfd) => !(0 <= fd < MAX_FD && fds[fd] >= 0) || !(0 <= newfd < MAX_FD)
            case PipeCall(_) =>
              || (forall p :: 0 <= p < MAX_PIPES ==> ReadEnd(p) in s.kinds || WriteEnd(p) in s.kinds)
              || (forall f, g :: 0 <= f < g < MAX_OPEN_FILES ==> s.kinds[f] != Free || s.kinds[g] != Free)
              || (forall k, l :: 0 <= k < l < MAX_FD ==> fds[k] != -1 || fds[l] != -1)
            case ForkCall(_) => s.tasks == MAX_TASKS
            case ExitCall(_) => false
  {
    hide Collect, Settle, Piped, FirstEmpty, FirstFree;
    match call
    case PipeCall(t) => PipeRefused(s, t);
    case _ =>
  }

  lemma PipeRefused(s: Snapshot, t: nat)
    requires Formed(s) && t < s.tasks
    ensures Piped(s, t).1 == One(-1) <==>
            || (forall p :: 0 <= p < MAX_PIPES ==> ReadEnd(p) in s.kinds || WriteEnd(p) in s.kinds)
            || (forall f, g :: 0 <= f < g < MAX_OPEN_FILES ==> s.kinds[f] != Free || s.kinds[g] != Free)
            || (forall k, l :: 0 <= k < l < MAX_FD ==> s.fds[t][k] != -1 || s.fds[t][l] != -1)
  {
    hide FirstEmpty, FirstFree, FirstUnused;
    var p, f, r := FirstUnused(s.kinds, 0), FirstFree(s.kinds, 0), FirstEmpty(s.fds[t], 0);
    if p < 0 {
      forall q | 0 <= q < MAX_PIPES ensures ReadEnd(q) in s.kinds || WriteEnd(q) in s.kinds {
        assert PipeOpen(s.kinds, q);
      }
    } else if f >= 0 && r >= 0 {
      assert !(ReadEnd(p) in s.kinds || WriteEnd(p) in s.kinds);
    }
  }

  /** Descriptors are handed out lowest first. */
  lemma LowestGiven(s: Snapshot, call: Call)
    requires Formed(s) && call.task < s.tasks
    ensures var fds, reply := s.fds[call.task], Next(s, call).1;
            match call
            case OpenCall(_) => reply.One? && forall l :: 0 <= l < reply.n ==> fds[l] != -1
            case DupCall(_, _) => reply.One? && forall l :: 0 <= l < reply.n ==> fds[l] != -1
            case DupFromCall(_, _, arg) =>
              reply.One? && reply.n < MAX_FD && forall l :: arg <= l < reply.n ==> fds[l] != -1
            case Dup2Call(_, _, newfd) => reply == One(newfd) || reply == One(-1)
            case PipeCall(_) =>
              reply.Two? ==> reply.r < reply.w && forall l :: 0 <= l < reply.w && l != reply.r ==> fds[l] != -1
            case ForkCall(_) => reply == One(s.tasks) || reply == One(-1)
            case _ => reply == One(0) || reply == One(-1)
  {}

  /** What a descriptor stems from: nothing, a file that was open at the start, or call number `n` of the run. */
  datatype Origin = Closed | Started(file: int) | Made(n: nat, end: End)

  ghost function Traced(s: Snapshot, calls: seq<Call>, replies: seq<Reply>, t: nat, k: int): Origin
    requires Formed(s) && |replies| == |calls|
    decreases |calls|
  {
    if calls == [] then
      if t < MAX_TASKS && 0 <= k < MAX_FD && s.fds[t][k] >= 0 then Started(s.fds[t][k]) else Closed
    else
      var n := |calls| - 1;
      match From(calls[n], replies[n], t, k)
      case Gone => Closed
      case New(end) => Made(n, end)
      case Copy(u, l) => Traced(s, calls[..n], replies[..n], u, l)
  }

  /** Every descriptor is empty or names an open file. */
  ghost predicate Sound(s: Snapshot) {
    && Formed(s)
    && forall t, k :: 0 <= t < MAX_TASKS && 0 <= k < MAX_FD ==>
         -1 <= s.fds[t][k] < MAX_OPEN_FILES && (s.fds[t][k] >= 0 ==> s.kinds[s.fds[t][k]] != Free)
  }

  predicate InRange(t: nat, k: int) { t < MAX_TASKS && 0 <= k < MAX_FD }

  ghost predicate Derived(s: Snapshot, s': Snapshot, from: Source, t: nat, k: int)
    requires Sound(s) && Formed(s') && InRange(t, k)
  {
    match from
    case Gone => s'.fds[t][k] == -1
    case Copy(u, l) => InRange(u, l) && s'.fds[t][k] == s.fds[u][l]
    case New(_) => 0 <= s'.fds[t][k] < MAX_OPEN_FILES && s.kinds[s'.fds[t][k]] == Free
  }

  lemma NextNobody(s: Snapshot, call: Call)
    requires Formed(s) && call.task >= s.tasks
    ensures Next(s, call) == (s, Nobody)
  {}

  lemma OpenFrom(s: Snapshot, u: nat, t: nat, k: int)
    requires Sound(s) && InRange(t, k) && u < s.tasks
    ensures Derived(s, Next(s, OpenCall(u)).0, From(OpenCall(u), Next(s, OpenCall(u)).1, t, k), t, k)
  {
    hide Collect, Named, PipeOpen, FirstEmpty, FirstFree;
  }

  lemma PipeFrom(s: Snapshot, u: nat, t: nat, k: int)
    requires Sound(s) && InRange(t, k) && u < s.tasks
    ensures Derived(s, Next(s, PipeCall(u)).0, From(PipeCall(u), Next(s, PipeCall(u)).1, t, k), t, k)
  {
    hide Collect, Named, PipeOpen, FirstEmpty, FirstFree, FirstUnused;
  }

  lemma CopyFrom(s: Snapshot, call: Call, t: nat, k: int)
    requires Sound(s) && InRange(t, k) && call.task < s.tasks
    requires call.DupCall? || call.DupFromCall? || call.Dup2Call?
    ensures Derived(s, Next(s, call).0, From(call, Next(s, call).1, t, k), t, k)
  {
    hide Collect, Named, FirstEmpty;
  }

  lemma RestFrom(s: Snapshot, call: Call, t: nat, k: int)
    requires Sound(s) && InRange(t, k) && call.task < s.tasks && (call.ForkCall? || call.ExitCall? || call.CloseCall?)
    ensures Derived(s, Next(s, call).0, From(call, Next(s, call).1, t, k), t, k)
  {
    hide Collect, Named;
  }

  /** One call: a descriptor that is not copied from one before is empty, or names a file that nothing named. */
  lemma NextFrom(s: Snapshot, call: Call, t: nat, k: int)
    requires Sound(s) && InRange(t, k)
    ensures var (s', reply) := Next(s, call);
            match From(call, reply, t, k)
            case Gone => s'.fds[t][k] == -1
            case Copy(u, l) => InRange(u, l) && s'.fds[t][k] == s.fds[u][l]
            case New(_) => 0 <= s'.fds[t][k] < MAX_OPEN_FILES && s.kinds[s'.fds[t][k]] == Free
  {
    hide Next, Collect, Named, PipeOpen, FirstEmpty, FirstFree, FirstUnused;
    if call.task >= s.tasks {
      NextNobody(s, call);
    } else {
      match call
      case OpenCall(u) => OpenFrom(s, u, t, k);
      case PipeCall(u) => PipeFrom(s, u, t, k);
      case ForkCall(_) => RestFrom(s, call, t, k);
      case ExitCall(_) => RestFrom(s, call, t, k);
      case CloseCall(_, _) => RestFrom(s, call, t, k);
      case _ => CopyFrom(s, call, t, k);
    }
  }

  /** What a kept descriptor names stays what it was; a new one is what its call makes, on a pipe that nothing held. */
  lemma NextKind(s: Snapshot, call: Call, t: nat, k: int)
    requires Sound(s) && InRange(t, k)
    ensures var (s', reply) := Next(s, call);
            var f := s'.fds[t][k];
            match From(call, reply, t, k)
            case Gone => true
            case Copy(_, _) => 0 <= f < MAX_OPEN_FILES ==> s'.kinds[f] == s.kinds[f]
            case New(end) =>
              && 0 <= f < MAX_OPEN_FILES && EndIs(s'.kinds[f], end)
              && (end != Whole ==> !PipeOpen(s.kinds, s'.kinds[f].pipe))
  {
    var (s', reply) := Next(s, call);
    if call.task < s.tasks && 0 <= s'.fds[t][k] {
      assert Named(s'.fds, s'.fds[t][k]);
    }
  }

  predicate EndIs(kind: Kind, end: End) {
    match end
    case Whole => kind == Plain
    case Reading => kind.ReadEnd?
    case Writing => kind.WriteEnd?
  }

  lemma NextSound(s: Snapshot, call: Call)
    requires Sound(s)
    ensures Sound(Next(s, call).0)
  {
    var (s', reply) := Next(s, call);
    forall t, k | 0 <= t < MAX_TASKS && 0 <= k < MAX_FD
      ensures -1 <= s'.fds[t][k] < MAX_OPEN_FILES && (s'.fds[t][k] >= 0 ==> s'.kinds[s'.fds[t][k]] != Free)
    {
      hide Next, From, Named, Collect, Settle;
      NextFrom(s, call, t, k);
      NextKind(s, call, t, k);
    }
  }

  /** Two descriptors that one call makes: the two ends of one pipe. */
  lemma NextPair(s: Snapshot, call: Call, t: nat, k: int, u: nat, l: int)
    requires Sound(s) && InRange(t, k) && InRange(u, l)
    requires From(call, Next(s, call).1, t, k).New? && From(call, Next(s, call).1, u, l).New?
    ensures var (s', reply) := Next(s, call);
            var f, g := s'.fds[t][k], s'.fds[u][l];
            && (f == g <==> From(call, reply, t, k) == From(call, reply, u, l))
            && 0 <= f < MAX_OPEN_FILES && 0 <= g < MAX_OPEN_FILES
            && (From(call, reply, t, k).end != Whole ==>
                  && From(call, reply, u, l).end != Whole && !s'.kinds[f].Free? && !s'.kinds[f].Plain?
                  && !s'.kinds[g].Free? && !s'.kinds[g].Plain? && s'.kinds[f].pipe == s'.kinds[g].pipe)
  {}

  lemma {:induction false} ReplaySound(s: Snapshot, calls: seq<Call>)
    requires Sound(s)
    ensures Sound(Replay(s, calls).0)
  {
    hide Next;
    if calls != [] {
      ReplaySound(s, calls[..|calls| - 1]);
      NextSound(Replay(s, calls[..|calls| - 1]).0, calls[|calls| - 1]);
    }
  }

  /** The last call of a run. */
  lemma ReplayLast(s: Snapshot, calls: seq<Call>)
    requires Formed(s) && calls != []
    ensures var n := |calls| - 1;
            var before, after := Replay(s, calls[..n]), Replay(s, calls);
            && after.0 == Next(before.0, calls[n]).0
            && after.1[n] == Next(before.0, calls[n]).1 && after.1[..n] == before.1
  {
    hide Next;
  }

  /** A descriptor is open exactly if the calls leave it open, and what it names is then what its origin made. */
  lemma {:induction false} OriginIs(s: Snapshot, calls: seq<Call>, t: nat, k: int)
    requires Sound(s) && InRange(t, k)
    ensures var (s', replies) := Replay(s, calls);
            var f := s'.fds[t][k];
            -1 <= f < MAX_OPEN_FILES &&
            match Traced(s, calls, replies, t, k)
            case Closed => f == -1
            case Started(file) => f == file && f >= 0 && s'.kinds[f] == s.kinds[f]
            case Made(n, end) => f >= 0 && n < |calls| && EndIs(s'.kinds[f], end)
    decreases |calls|
  {
    hide Next, From;
    ReplaySound(s, calls);
    if calls != [] {
      hide Replay;
      var n := |calls| - 1;
      ReplayLast(s, calls);
      ReplaySound(s, calls[..n]);
      var before := Replay(s, calls[..n]);
      NextFrom(before.0, calls[n], t, k);
      NextKind(before.0, calls[n], t, k);
      var from := From(calls[n], Replay(s, calls).1[n], t, k);
      if from.Copy? {
        OriginIs(s, calls[..n], from.task, from.fd);
      }
    }
  }

  /** Sharing: two open descriptors, of one task or of two, name the same open file exactly if they stem from the
      same end of the same call. */
  lemma {:induction false} SharedIff(s: Snapshot, calls: seq<Call>, t: nat, k: int, u: nat, l: int)
    requires Sound(s) && InRange(t, k) && InRange(u, l)
    requires Replay(s, calls).0.fds[t][k] >= 0 && Replay(s, calls).0.fds[u][l] >= 0
    ensures var (s', replies) := Replay(s, calls);
            s'.fds[t][k] == s'.fds[u][l] <==> Traced(s, calls, replies, t, k) == Traced(s, calls, replies, u, l)
    decreases |calls|
  {
    hide Next, From;
    OriginIs(s, calls, t, k);
    OriginIs(s, calls, u, l);
    if calls != [] {
      hide Replay;
      var n := |calls| - 1;
      ReplayLast(s, calls);
      ReplaySound(s, calls[..n]);
      var before := Replay(s, calls[..n]);
      NextFrom(before.0, calls[n], t, k);
      NextFrom(before.0, calls[n], u, l);
      var a, b := From(calls[n], Replay(s, calls).1[n], t, k), From(calls[n], Replay(s, calls).1[n], u, l);
      if a.Copy? {
        OriginIs(s, calls[..n], a.task, a.fd);
      }
      if b.Copy? {
        OriginIs(s, calls[..n], b.task, b.fd);
      }
      if a.Copy? && b.Copy? {
        SharedIff(s, calls[..n], a.task, a.fd, b.task, b.fd);
      } else if a.New? && b.New? {
        NextPair(before.0, calls[n], t, k, u, l);
      }
    }
  }

  /** Pipes: two open pipe ends made in the run are of the same pipe exactly if the same call made them. */
  lemma {:induction false} JoinedIff(s: Snapshot, calls: seq<Call>, t: nat, k: int, u: nat, l: int)
    requires Sound(s) && InRange(t, k) && InRange(u, l)
    requires var o := Traced(s, calls, Replay(s, calls).1, t, k); o.Made? && o.end != Whole
    requires var o := Traced(s, calls, Replay(s, calls).1, u, l); o.Made? && o.end != Whole
    ensures var (s', replies) := Replay(s, calls);
            var f, g := s'.fds[t][k], s'.fds[u][l];
            && 0 <= f < MAX_OPEN_FILES && 0 <= g < MAX_OPEN_FILES
            && (s'.kinds[f].ReadEnd? || s'.kinds[f].WriteEnd?) && (s'.kinds[g].ReadEnd? || s'.kinds[g].WriteEnd?)
            && (s'.kinds[f].pipe == s'.kinds[g].pipe <==>
                Traced(s, calls, replies, t, k).n == Traced(s, calls, replies, u, l).n)
    decreases |calls|
  {
    hide Next, From;
    OriginIs(s, calls, t, k);
    OriginIs(s, calls, u, l);
    if calls != [] {
      hide Replay;
      var n := |calls| - 1;
      ReplayLast(s, calls);
      ReplaySound(s, calls[..n]);
      var before := Replay(s, calls[..n]);
      NextFrom(before.0, calls[n], t, k);
      NextFrom(before.0, calls[n], u, l);
      NextKind(before.0, calls[n], t, k);
      NextKind(before.0, calls[n], u, l);
      var a, b := From(calls[n], Replay(s, calls).1[n], t, k), From(calls[n], Replay(s, calls).1[n], u, l);
      if a.Copy? {
        OriginIs(s, calls[..n], a.task, a.fd);
      }
      if b.Copy? {
        OriginIs(s, calls[..n], b.task, b.fd);
      }
      if a.Copy? && b.Copy? {
        JoinedIff(s, calls[..n], a.task, a.fd, b.task, b.fd);
      } else if a.New? && b.New? {
        NextPair(before.0, calls[n], t, k, u, l);
      }
    }
  }

  /** The real tables are sound. */
  lemma NowSound(table: FileTable)
    requires table.Valid()
    ensures Sound(Now(table))
  {
    NowFormed(table);
    forall t, k | 0 <= t < MAX_TASKS && 0 <= k < MAX_FD && table.fds[t][k] >= 0
      ensures table.files[table.fds[t][k]].kind != Free
    {
      assert Named(table.fds, table.fds[t][k]);
    }
  }
}
