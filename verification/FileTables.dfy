/** The open-file table, the descriptor tables of all tasks and the pipe pool, as the system
    calls change them. */
module FileTables {
  import opened Descriptors

  const MAX_TASKS: nat := 256

  function EmptyTable(): (r: seq<int>)
    ensures |r| == MAX_FD && forall k :: 0 <= k < MAX_FD ==> r[k] == -1
  {
    seq(MAX_FD, k => -1)
  }

  /** What no call may do to the open files and to the tables of the tasks other than `t`. */
  ghost predicate Keeps(files: seq<File>, fds: Tables, files': seq<File>, fds': Tables, t: int) {
    && |files'| == |files| && |fds'| == |fds|
    && (forall f :: 0 <= f < |files| && files[f].kind != Free && files'[f].kind != Free ==>
        files'[f].kind == files[f].kind)
    && (forall u :: 0 <= u < |fds| && u != t ==> fds'[u] == fds[u])
  }

  ghost predicate SameKinds(files: seq<File>, files': seq<File>) {
    |files'| == |files| && forall f :: 0 <= f < |files| ==> files'[f].kind == files[f].kind
  }

  ghost predicate OnlyFreed(files: seq<File>, files': seq<File>) {
    |files'| == |files| && forall f :: 0 <= f < |files| ==> files'[f].kind == files[f].kind || files'[f].kind == Free
  }

  predicate LowestEmpty(table: seq<int>, from: nat, k: nat) {
    from <= k < |table| && table[k] == -1 && forall l :: from <= l < k ==> table[l] != -1
  }

  ghost predicate LowestFree(files: seq<File>, from: nat, f: int) {
    from <= f < |files| && files[f].kind == Free && forall g :: from <= g < f ==> files[g].kind != Free
  }

  predicate LowestUnused(pipes: seq<PipeRefs>, p: int) {
    0 <= p < |pipes| && !pipes[p].used && forall q :: 0 <= q < p ==> pipes[q].used
  }

  ghost predicate TwoEmpty(table: seq<int>) {
    exists k, l :: 0 <= k < l < |table| && table[k] == -1 && table[l] == -1
  }

  ghost predicate TwoFree(files: seq<File>) {
    exists f, g :: 0 <= f < g < |files| && files[f].kind == Free && files[g].kind == Free
  }

  class FileTable {
    var files: seq<File>
    var fds: Tables
    var pipes: seq<PipeRefs>
    var nextPid: nat

    ghost predicate Valid()
      reads this
    {
      && Inv(files, fds, pipes) && |fds| == MAX_TASKS && nextPid <= MAX_TASKS
      && forall t :: nextPid <= t < MAX_TASKS ==> fds[t] == EmptyTable()
    }

    /** A task that exists may make calls. */
    ghost predicate Runs(t: nat)
      reads this
    {
      Valid() && t < nextPid
    }

    constructor ()
      ensures Valid() && nextPid == 0 && (forall f :: 0 <= f < MAX_OPEN_FILES ==> files[f].kind == Free)
    {
      files := seq(MAX_OPEN_FILES, f => File(Free, 0));
      fds := seq(MAX_TASKS, t => EmptyTable());
      pipes := seq(MAX_PIPES, p => PipeRefs(false, 0, 0));
      nextPid := 0;
      new;
      NothingOpen(files, fds, pipes);
    }

    /** The lowest free slot of the open-file table, or -1. */
    method FreeFile() returns (f: int)
      ensures -1 <= f < |files| && (f >= 0 ==> files[f].kind == Free)
      ensures forall g :: 0 <= g < (if f < 0 then |files| else f) ==> files[g].kind != Free
    {
      f := 0;
      while f < |files|
        invariant 0 <= f <= |files| && forall g :: 0 <= g < f ==> files[g].kind != Free
      {
        if files[f].kind == Free {
          return;
        }
        f := f + 1;
      }
      f := -1;
    }

    /** The lowest empty descriptor of `t` from `from` on, or -1. */
    method FreeFd(t: nat, from: nat) returns (k: int)
      requires t < |fds| && |fds[t]| == MAX_FD
      ensures -1 <= k < MAX_FD && (k >= 0 ==> LowestEmpty(fds[t], from, k))
      ensures k < 0 ==> forall l :: from <= l < MAX_FD ==> fds[t][l] != -1
    {
      k := from;
      while k < MAX_FD
        invariant from <= k && forall l :: from <= l < k && l < MAX_FD ==> fds[t][l] != -1
      {
        if fds[t][k] == -1 {
          return;
        }
        k := k + 1;
      }
      k := -1;
    }

    method FreePipe() returns (p: int)
      ensures -1 <= p < |pipes| && (p >= 0 ==> !pipes[p].used)
      ensures forall q :: 0 <= q < (if p < 0 then |pipes| else p) ==> pipes[q].used
    {
      p := 0;
      while p < |pipes|
        invariant 0 <= p <= |pipes| && forall q :: 0 <= q < p ==> pipes[q].used
      {
        if !pipes[p].used {
          return;
        }
        p := p + 1;
      }
      p := -1;
    }

    /** The two lowest empty descriptors of `t`; the second is -1 if there are not two. */
    method FreeFdPair(t: nat) returns (k: int, l: int)
      requires t < |fds| && |fds[t]| == MAX_FD
      ensures -1 <= k < MAX_FD && -1 <= l < MAX_FD
      ensures l >= 0 ==> k >= 0 && LowestEmpty(fds[t], 0, k) && LowestEmpty(fds[t], k + 1, l)
      ensures l >= 0 <==> TwoEmpty(fds[t])
    {
      k, l := -1, -1;
      var i := 0;
      while i < MAX_FD && l < 0
        invariant 0 <= i <= MAX_FD && -1 <= k < i && -1 <= l < i && (l >= 0 ==> 0 <= k < l == i - 1)
        invariant (k >= 0 ==> fds[t][k] == -1) && (l >= 0 ==> fds[t][l] == -1)
        invariant forall j :: 0 <= j < (if l < 0 then i else l) && j != k ==> fds[t][j] != -1
        decreases MAX_FD - i
      {
        if fds[t][i] == -1 {
          if k < 0 {
            k := i;
          } else {
            l := i;
          }
        }
        i := i + 1;
      }
    }

    method PipeCloseRead(p: nat)
      requires p < |pipes|
      modifies this`pipes
      ensures pipes == old(pipes)[p := DropReader(old(pipes)[p])]
    {
      pipes := pipes[p := pipes[p].(readers := pipes[p].readers - 1)];
      if pipes[p].readers == 0 && pipes[p].writers == 0 {
        pipes := pipes[p := pipes[p].(used := false)];
      }
    }

    method PipeCloseWrite(p: nat)
      requires p < |pipes|
      modifies this`pipes
      ensures pipes == old(pipes)[p := DropWriter(old(pipes)[p])]
    {
      pipes := pipes[p := pipes[p].(writers := pipes[p].writers - 1)];
      if pipes[p].writers == 0 && pipes[p].readers == 0 {
        pipes := pipes[p := pipes[p].(used := false)];
      }
    }

    /** Drop one reference to `f`; the last one releases it and its end of a pipe. */
    method CloseFile(f: nat)
      requires f < |files| && (files[f].kind.ReadEnd? || files[f].kind.WriteEnd? ==> files[f].kind.pipe < |pipes|)
      modifies this`files, this`pipes
      ensures files == FilesAfter(old(files), f) && pipes == PipesAfter(old(files), old(pipes), f)
    {
      files := files[f := files[f].(refcount := files[f].refcount - 1)];
      if files[f].refcount > 0 {
        return;
      }
      match files[f].kind {
        case ReadEnd(p) => PipeCloseRead(p);
        case WriteEnd(p) => PipeCloseWrite(p);
        case _ =>
      }
      files := files[f := files[f].(kind := Free)];
    }

    /** Close a descriptor: its file stays open exactly if another descriptor, of any task, names it. */
    method Close(t: nat, fd: int) returns (ok: bool)
      requires Runs(t)
      modifies this`files, this`fds, this`pipes
      ensures Valid() && Keeps(old(files), old(fds), files, fds, t)
      ensures ok <==> 0 <= fd < MAX_FD && old(fds[t][fd]) >= 0
      ensures ok ==> fds == SetFd(old(fds), t, fd, -1)
      ensures !ok ==> fds == old(fds) && files == old(files) && pipes == old(pipes)
    {
      if fd < 0 || fd >= MAX_FD || fds[t][fd] < 0 {
        return false;
      }
      var f := fds[t][fd];
      CloseInv(files, fds, pipes, t, fd);
      fds := SetFd(fds, t, fd, -1);
      CloseFile(f);
      ok := true;
    }

    /** Name the file of `oldfd` by `newfd` too, closing what `newfd` named. */
    method Dup2(t: nat, oldfd: int, newfd: int) returns (fd: int)
      requires Runs(t)
      modifies this`files, this`fds, this`pipes
      ensures Valid() && Keeps(old(files), old(fds), files, fds, t)
      ensures fd == newfd >= 0 || fd == -1
      ensures fd >= 0 <==> 0 <= oldfd < MAX_FD && 0 <= newfd < MAX_FD && old(fds[t][oldfd]) >= 0
      ensures fd >= 0 ==> fds == SetFd(old(fds), t, newfd, old(fds[t][oldfd]))
      ensures fd < 0 ==> fds == old(fds) && files == old(files) && pipes == old(pipes)
    {
      if oldfd < 0 || oldfd >= MAX_FD || newfd < 0 || newfd >= MAX_FD || fds[t][oldfd] < 0 {
        return -1;
      }
      var f := fds[t][oldfd];
      if oldfd == newfd {
        SetSame(fds, t, newfd);
        return newfd;
      }
      hide Inv;
      ClearFd(t, newfd, oldfd);
      AddRefInv(files, SetFd(fds, t, newfd, -1), pipes, t, newfd, f);
      files := WithRef(files, f);
      Overwrite(fds, t, newfd, f);
      fds := SetFd(fds, t, newfd, f);
      fd := newfd;
    }

    /** Name the file of `oldfd` by the lowest empty descriptor too. */
    method Dup(t: nat, oldfd: int) returns (fd: int)
      requires Runs(t)
      modifies this`files, this`fds, this`pipes
      ensures Valid() && Keeps(old(files), old(fds), files, fds, t)
      ensures -1 <= fd < MAX_FD
      ensures fd >= 0 <==> 0 <= oldfd < MAX_FD && old(fds[t][oldfd]) >= 0 && -1 in old(fds[t])
      ensures fd >= 0 ==> LowestEmpty(old(fds[t]), 0, fd) && fds == SetFd(old(fds), t, fd, old(fds[t][oldfd]))
      ensures fd >= 0 ==> old(fds[t])[fd] == -1 && forall l :: 0 <= l < fd ==> old(fds[t])[l] != -1
      ensures fd < 0 ==> fds == old(fds) && files == old(files) && pipes == old(pipes)
    {
      if oldfd < 0 || oldfd >= MAX_FD || fds[t][oldfd] < 0 {
        return -1;
      }
      var newfd := FreeFd(t, 0);
      if newfd < 0 {
        return -1;
      }
      fd := Dup2(t, oldfd, newfd);
    }

    /** Name the file of `oldfd` by the lowest empty descriptor from `arg` on too. */
    method DupFrom(t: nat, oldfd: int, arg: nat) returns (fd: int)
      requires Runs(t)
      modifies this`files, this`fds
      ensures Valid() && Keeps(old(files), old(fds), files, fds, t)
      ensures -1 <= fd < MAX_FD
      ensures fd >= 0 <==> 0 <= oldfd < MAX_FD && old(fds[t][oldfd]) >= 0 && arg <= MAX_FD && -1 in old(fds[t])[arg..]
      ensures fd >= 0 ==> LowestEmpty(old(fds[t]), arg, fd) && fds == SetFd(old(fds), t, fd, old(fds[t][oldfd]))
      ensures fd >= 0 ==> arg <= fd && old(fds[t])[fd] == -1 && forall l :: arg <= l < fd ==> old(fds[t])[l] != -1
      ensures fd < 0 ==> fds == old(fds) && files == old(files)
    {
      if oldfd < 0 || oldfd >= MAX_FD || fds[t][oldfd] < 0 {
        return -1;
      }
      var f := fds[t][oldfd];
      fd := FreeFd(t, arg);
      if fd < 0 {
        return;
      }
      assert fds[t][arg..][fd - arg] == -1;
      StaysOpen(files, fds, pipes, t, oldfd);
      AddRefInv(files, fds, pipes, t, fd, f);
      hide Inv;
      fds := SetFd(fds, t, fd, f);
      files := WithRef(files, f);
    }

    /** Open: the lowest free file gets the lowest empty descriptor, or nothing is kept. */
    method Open(t: nat) returns (fd: int)
      requires Runs(t)
      modifies this`files, this`fds, this`pipes
      ensures Valid() && Keeps(old(files), old(fds), files, fds, t) && pipes == old(pipes)
      ensures -1 <= fd < MAX_FD
      ensures fd >= 0 <==> (exists f :: 0 <= f < MAX_OPEN_FILES && old(files[f].kind) == Free) && -1 in old(fds[t])
      ensures fd >= 0 ==> LowestEmpty(old(fds[t]), 0, fd) && 0 <= fds[t][fd] < MAX_OPEN_FILES &&
                          fds == SetFd(old(fds), t, fd, fds[t][fd]) && files == old(files)[fds[t][fd] := File(Plain, 1)]
      ensures fd >= 0 ==> LowestFree(old(files), 0, fds[t][fd])
      ensures fd >= 0 ==> old(fds[t])[fd] == -1 && forall l :: 0 <= l < fd ==> old(fds[t])[l] != -1
      ensures fd >= 0 ==> old(files)[fds[t][fd]].kind == Free
                          && forall g :: 0 <= g < fds[t][fd] ==> old(files)[g].kind != Free
      ensures fd < 0 ==> fds == old(fds) && SameKinds(old(files), files)
    {
      hide Slots, Counted, PipesCounted;
      var f := FreeFile();
      if f < 0 {
        return -1;
      }
      ghost var files0 := files;
      files := files[f := File(Plain, 1)];
      fd := FreeFd(t, 0);
      if fd < 0 {
        FreeCountInv(files0, fds, pipes, f, 0);
        hide Inv;
        CloseFile(f);
        assert files == files0[f := File(Free, 0)];
        return;
      }
      InstallInv(files0, fds, pipes, t, fd, f);
      hide Inv;
      fds := SetFd(fds, t, fd, f);
    }

    /** Take a pipe and two files for its ends, or nothing. */
    method MakeEnds() returns (p: int, f: int, g: int)
      requires Valid()
      modifies this`files, this`pipes
      ensures -1 <= p < MAX_PIPES && -1 <= f < MAX_OPEN_FILES && -1 <= g < MAX_OPEN_FILES
      ensures g >= 0 <==> (exists q :: 0 <= q < MAX_PIPES && !old(pipes[q].used)) && TwoFree(old(files))
      ensures g >= 0 ==> LowestUnused(old(pipes), p) && LowestFree(old(files), 0, f) && LowestFree(old(files), f + 1, g)
      ensures g >= 0 ==> files == old(files)[f := File(ReadEnd(p), 1)][g := File(WriteEnd(p), 1)]
      ensures g >= 0 ==> pipes == old(pipes)[p := PipeRefs(true, 1, 1)]
      ensures g < 0 ==> Valid() && SameKinds(old(files), files) && pipes == old(pipes)
    {
      hide Slots, Counted;
      f, g := -1, -1;
      p := FreePipe();
      if p < 0 {
        return;
      }
      UnusedPipe(files, pipes, p);
      hide PipesCounted;
      pipes := pipes[p := PipeRefs(true, 1, 1)];
      f := FreeFile();
      if f < 0 {
        pipes := pipes[p := PipeRefs(false, 0, 0)];
        assert pipes == old(pipes);
        return;
      }
      files := files[f := File(ReadEnd(p), 1)];
      g := FreeFile();
      if g < 0 {
        assert forall h :: 0 <= h < |files| && h != f ==> files[h] == old(files)[h] && old(files)[h].kind != Free;
        files := files[f := files[f].(kind := Free)];
        pipes := pipes[p := PipeRefs(false, 0, 0)];
        assert pipes == old(pipes);
        FreeCountInv(old(files), fds, pipes, f, 1);
        assert files == old(files)[f := File(Free, 1)];
        return;
      }
      SecondLowest(old(files), f, File(ReadEnd(p), 1), g);
      files := files[g := File(WriteEnd(p), 1)];
    }

    /** Give back a pipe that got no descriptors. */
    method DropEnds(ghost files0: seq<File>, ghost pipes0: seq<PipeRefs>, p: nat, f: nat, g: nat)
      requires p < |pipes0| && pipes0[p] == PipeRefs(false, 0, 0) && f < |files0| && g < |files0| && f != g
      requires files == files0[f := File(ReadEnd(p), 1)][g := File(WriteEnd(p), 1)]
      requires pipes == pipes0[p := PipeRefs(true, 1, 1)]
      modifies this`files, this`pipes
      ensures files == files0[f := File(Free, 0)][g := File(Free, 0)] && pipes == pipes0
    {
      CloseFile(f);
      assert files == files0[f := File(Free, 0)][g := File(WriteEnd(p), 1)];
      assert pipes == pipes0[p := PipeRefs(true, 0, 1)];
      CloseFile(g);
    }

    /** A new pipe: both ends on the two lowest empty descriptors, or nothing is kept. */
    method Pipe(t: nat) returns (r: int, w: int)
      requires Runs(t)
      modifies this`files, this`fds, this`pipes
      ensures Valid() && Keeps(old(files), old(fds), files, fds, t)
      ensures -1 <= r < MAX_FD && -1 <= w < MAX_FD
      ensures w >= 0 <==> (exists q :: 0 <= q < MAX_PIPES && !old(pipes[q].used))
                          && TwoFree(old(files)) && TwoEmpty(old(fds[t]))
      ensures w >= 0 ==> r >= 0 && LowestEmpty(old(fds[t]), 0, r) && LowestEmpty(old(fds[t]), r + 1, w)
      ensures w >= 0 ==> NewPipe(t, r, w)
      ensures w >= 0 <==> (exists q :: 0 <= q < MAX_PIPES && !old(pipes[q].used))
                          && (exists f, g :: 0 <= f < g < |old(files)|
                                             && old(files)[f].kind == old(files)[g].kind == Free)
                          && exists k, l :: 0 <= k < l < |old(fds[t])| && old(fds[t])[k] == old(fds[t])[l] == -1
      ensures w >= 0 ==>
                var f, g := fds[t][r], fds[t][w];
                && 0 <= r < w && old(fds[t])[r] == old(fds[t])[w] == -1 && 0 <= f < g < |files| == |old(files)|
                && (forall l :: 0 <= l < w && l != r ==> old(fds[t])[l] != -1)
                && old(files)[f].kind == old(files)[g].kind == Free
                && (forall h :: 0 <= h < g && h != f ==> old(files)[h].kind != Free)
                && files[f].kind.ReadEnd? && files[g].kind == WriteEnd(files[f].kind.pipe)
                && files[f].kind.pipe < |old(pipes)| && !old(pipes)[files[f].kind.pipe].used
                && forall q :: 0 <= q < files[f].kind.pipe ==> old(pipes)[q].used
      ensures w < 0 ==> fds == old(fds) && SameKinds(old(files), files) && pipes == old(pipes)
    {
      hide Slots, Counted;
      r, w := -1, -1;
      var p, f, g := MakeEnds();
      if g < 0 {
        return;
      }
      r, w := FreeFdPair(t);
      if w < 0 {
        UnusedPipe(old(files), old(pipes), p);
        DropEnds(old(files), old(pipes), p, f, g);
        FreeCountInv(old(files), fds, pipes, f, 0);
        FreeCountInv(old(files)[f := File(Free, 0)], fds, pipes, g, 0);
        return;
      }
      InstallPipeInv(old(files), fds, old(pipes), t, r, w, f, g, p);
      hide Inv, TwoFree, TwoEmpty;
      fds := SetFd(SetFd(fds, t, r, f), t, w, g);
    }

    /** Descriptors `r` and `w` of `t` are the only references to the two ends of a pipe that was unused. */
    twostate predicate NewPipe(t: nat, r: nat, w: nat)
      requires t < |fds| && r < |fds[t]| && w < |fds[t]|
      reads this
    {
      var f, g := fds[t][r], fds[t][w];
      && 0 <= f < |files| && 0 <= g < |files| == |old(files)| && files[f].kind.ReadEnd?
      && t < |old(fds)| && r < |old(fds)[t]| && w < |old(fds)[t]|
      && fds == SetFd(SetFd(old(fds), t, r, f), t, w, g)
      && var p := files[f].kind.pipe;
         && LowestUnused(old(pipes), p) && LowestFree(old(files), 0, f) && LowestFree(old(files), f + 1, g)
         && files == old(files)[f := File(ReadEnd(p), 1)][g := File(WriteEnd(p), 1)]
         && pipes == old(pipes)[p := PipeRefs(true, 1, 1)]
    }

    /** A new task has no descriptors. */
    method NewTask() returns (pid: int)
      requires Valid()
      modifies this`nextPid
      ensures Valid() && pid == if old(nextPid) < MAX_TASKS then old(nextPid) else -1
      ensures pid >= 0 ==> nextPid == pid + 1 && fds[pid] == EmptyTable()
      ensures pid < 0 ==> nextPid == old(nextPid)
    {
      if nextPid >= MAX_TASKS {
        return -1;
      }
      pid := nextPid;
      nextPid := nextPid + 1;
    }

    /** A forked child names exactly the files its parent names. */
    method Fork(t: nat) returns (pid: int)
      requires Runs(t)
      modifies this
      ensures Valid() && pipes == old(pipes) && pid == if old(nextPid) < MAX_TASKS then old(nextPid) else -1
      ensures pid < 0 ==> fds == old(fds) && files == old(files) && nextPid == old(nextPid)
      ensures pid >= 0 ==> nextPid == pid + 1 && fds == old(fds)[pid := old(fds)[t]] && SameKinds(old(files), files)
    {
      hide Inv, Inherited, SameKinds;
      pid := NewTask();
      SameKind(files);
      if pid < 0 {
        return;
      }
      CopyTable(t, pid);
    }

    /** Gives a task without descriptors those of `t`. */
    method CopyTable(t: nat, pid: nat)
      requires Inv(files, fds, pipes) && t < |fds| && pid < |fds| && t != pid && fds[pid] == EmptyTable()
      modifies this`files, this`fds
      ensures Inv(files, fds, pipes) && SameKinds(old(files), files) && fds == old(fds)[pid := old(fds)[t]]
    {
      hide Inv, Inherited, SameKinds;
      ghost var was := fds;
      TableSize(files, fds, pipes, t);
      SameKind(files);
      InheritedAll(was[t]);
      assert was[pid := was[pid]] == was;
      var k := 0;
      while k < MAX_FD
        invariant 0 <= k <= MAX_FD && Inv(files, fds, pipes) && SameKinds(old(files), files)
        invariant fds == was[pid := Inherited(was[t], k)]
      {
        InheritStep(was, t, pid, k);
        ghost var mid := files;
        CopyFd(t, pid, k);
        SameKindsTwice(old(files), mid, files);
        k := k + 1;
      }
    }

    method CopyFd(t: nat, pid: nat, k: nat)
      requires Inv(files, fds, pipes) && t < |fds| && pid < |fds| && k < MAX_FD && fds[pid][k] == -1
      modifies this`files, this`fds
      ensures Inv(files, fds, pipes) && SameKinds(old(files), files) && fds == SetFd(old(fds), pid, k, old(fds)[t][k])
    {
      var f := fds[t][k];
      if f >= 0 {
        StaysOpen(files, fds, pipes, t, k);
        AddRefInv(files, fds, pipes, pid, k, f);
        hide Inv;
        fds := SetFd(fds, pid, k, f);
        files := WithRef(files, f);
      } else {
        SetSame(fds, pid, k);
      }
    }

    method ExitFd(t: nat, k: nat)
      requires Runs(t) && k < MAX_FD
      modifies this`files, this`fds, this`pipes
      ensures Valid() && OnlyFreed(old(files), files) && fds == SetFd(old(fds), t, k, -1)
    {
      if fds[t][k] >= 0 {
        CloseInv(files, fds, pipes, t, k);
        hide Inv;
        CloseFile(fds[t][k]);
        fds := SetFd(fds, t, k, -1);
      } else {
        SetSame(fds, t, k);
      }
    }

    /** An exiting task closes all its descriptors and no one else's. */
    method Exit(t: nat)
      requires Runs(t)
      modifies this`files, this`fds, this`pipes
      ensures Valid() && OnlyFreed(old(files), files) && fds == old(fds)[t := EmptyTable()]
    {
      hide Inv, Cleared, OnlyFreed;
      ghost var was := fds;
      TableSize(files, fds, pipes, t);
      ClearedAll(was[t]);
      FreedNone(files);
      assert was[t := was[t]] == was;
      var k := 0;
      while k < MAX_FD
        invariant 0 <= k <= MAX_FD && Valid() && OnlyFreed(old(files), files)
        invariant fds == was[t := Cleared(was[t], k)]
        modifies this`files, this`fds, this`pipes
      {
        ClearedStep(was, t, k);
        ghost var mid := files;
        ExitFd(t, k);
        FreedTwice(old(files), mid, files);
        k := k + 1;
      }
    }

    /** Drop the reference that descriptor `l` holds, if any; the file of `k` stays open. */
    method ClearFd(t: nat, l: nat, ghost k: nat)
      requires Valid() && t < MAX_TASKS && l < MAX_FD && k < MAX_FD && k != l && fds[t][k] >= 0
      modifies this`files, this`pipes
      ensures Inv(files, SetFd(fds, t, l, -1), pipes) && |files| == MAX_OPEN_FILES && SetFd(fds, t, l, -1)[t][l] == -1
      ensures Keeps(old(files), fds, files, fds, t) && fds[t][k] < MAX_OPEN_FILES && files[fds[t][k]].kind != Free
    {
      hide Slots, PipesCounted;
      StaysOpen(files, fds, pipes, t, k);
      if fds[t][l] >= 0 {
        StaysNamed(files, fds, t, k, l);
        CloseInv(files, fds, pipes, t, l);
        hide Counted;
        CloseFile(fds[t][l]);
      } else {
        SetSame(fds, t, l);
      }
    }
  }

  /** The lowest free file once the lowest has been taken. */
  lemma SecondLowest(files: seq<File>, f: nat, taken: File, g: nat)
    requires LowestFree(files, 0, f) && taken.kind != Free && LowestFree(files[f := taken], 0, g)
    ensures LowestFree(files, f + 1, g)
  {
    var files' := files[f := taken];
    assert files'[g].kind == Free;
    forall h | f < h < g ensures files[h].kind != Free {
      assert files'[h] == files[h];
    }
  }

  lemma SetSame(fds: Tables, t: nat, k: nat)
    requires t < |fds| && k < |fds[t]|
    ensures SetFd(fds, t, k, fds[t][k]) == fds
  {
    assert fds[t][k := fds[t][k]] == fds[t];
  }

  lemma UnusedPipe(files: seq<File>, pipes: seq<PipeRefs>, p: nat)
    requires PipesCounted(files, pipes) && p < |pipes| && !pipes[p].used
    ensures pipes[p] == PipeRefs(false, 0, 0)
  {
    assert PipeCounted(files, pipes[p], p);
  }

  /** The child's table when the first `k` descriptors of the parent's have been copied. */
  ghost function Inherited(table: seq<int>, k: nat): (r: seq<int>)
    requires k <= MAX_FD == |table|
    ensures |r| == MAX_FD
  {
    table[..k] + EmptyTable()[k..]
  }

  lemma InheritedAll(table: seq<int>)
    requires |table| == MAX_FD
    ensures Inherited(table, 0) == EmptyTable() && Inherited(table, MAX_FD) == table
  {}

  lemma InheritStep(fds: Tables, t: nat, pid: nat, k: nat)
    requires t < |fds| && pid < |fds| && t != pid && k < MAX_FD == |fds[t]|
    ensures var mid := fds[pid := Inherited(fds[t], k)];
            mid[pid][k] == -1 && SetFd(mid, pid, k, mid[t][k]) == fds[pid := Inherited(fds[t], k + 1)]
  {
    assert Inherited(fds[t], k)[k := fds[t][k]] == Inherited(fds[t], k + 1);
  }

  /** The table of an exiting task when its first `k` descriptors have been closed. */
  ghost function Cleared(table: seq<int>, k: nat): (r: seq<int>)
    requires k <= MAX_FD == |table|
    ensures |r| == MAX_FD
  {
    EmptyTable()[..k] + table[k..]
  }

  lemma ClearedAll(table: seq<int>)
    requires |table| == MAX_FD
    ensures Cleared(table, 0) == table && Cleared(table, MAX_FD) == EmptyTable()
  {}

  lemma ClearedStep(fds: Tables, t: nat, k: nat)
    requires t < |fds| && k < MAX_FD == |fds[t]|
    ensures SetFd(fds[t := Cleared(fds[t], k)], t, k, -1) == fds[t := Cleared(fds[t], k + 1)]
  {
    assert Cleared(fds[t], k)[k := -1] == Cleared(fds[t], k + 1);
  }

  lemma TableSize(files: seq<File>, fds: Tables, pipes: seq<PipeRefs>, t: nat)
    requires Inv(files, fds, pipes) && t < |fds|
    ensures |fds[t]| == MAX_FD
  {}

  lemma SameKind(files: seq<File>)
    ensures SameKinds(files, files)
  {}

  lemma SameKindsTwice(a: seq<File>, b: seq<File>, c: seq<File>)
    requires SameKinds(a, b) && SameKinds(b, c)
    ensures SameKinds(a, c)
  {}

  lemma FreedNone(files: seq<File>)
    ensures OnlyFreed(files, files)
  {}

  lemma FreedTwice(a: seq<File>, b: seq<File>, c: seq<File>)
    requires OnlyFreed(a, b) && OnlyFreed(b, c)
    ensures OnlyFreed(a, c)
  {}

  lemma Overwrite(fds: Tables, t: nat, k: nat, f: int)
    requires t < |fds| && k < |fds[t]|
    ensures SetFd(SetFd(fds, t, k, -1), t, k, f) == SetFd(fds, t, k, f)
  {
    assert fds[t][k := -1][k := f] == fds[t][k := f];
  }

  /** A file named by a descriptor is open. */
  lemma StaysOpen(files: seq<File>, fds: Tables, pipes: seq<PipeRefs>, t: nat, k: nat)
    requires Inv(files, fds, pipes) && t < |fds| && k < MAX_FD && fds[t][k] >= 0
    ensures files[fds[t][k]].kind != Free
  {
    assert (t, k) in Slots(fds, fds[t][k]) && FileCounted(files[fds[t][k]], Slots(fds, fds[t][k]));
  }

  /** Closing one descriptor leaves a file that another one names open. */
  lemma StaysNamed(files: seq<File>, fds: Tables, t: nat, k: nat, l: nat)
    requires Counted(files, fds) && t < |fds| && k < |fds[t]| && l < |fds[t]| && k != l
    requires 0 <= fds[t][k] < |files| && 0 <= fds[t][l] < |files|
    ensures FilesAfter(files, fds[t][l])[fds[t][k]].kind == files[fds[t][k]].kind
  {
    var f := fds[t][k];
    if f == fds[t][l] {
      assert FileCounted(files[f], Slots(fds, f));
      assert {(t, k), (t, l)} <= Slots(fds, f);
      Subset({(t, k), (t, l)}, Slots(fds, f));
    }
  }

  lemma Subset<T>(a: set<T>, b: set<T>)
    requires a <= b
    ensures |a| <= |b|
  {
    assert b == a + (b - a);
  }

  lemma NothingOpen(files: seq<File>, fds: Tables, pipes: seq<PipeRefs>)
    requires Shape(files, fds, pipes)
    requires forall f :: 0 <= f < MAX_OPEN_FILES ==> files[f].kind == Free
    requires forall t, k :: 0 <= t < |fds| && 0 <= k < MAX_FD ==> fds[t][k] == -1
    requires forall p :: 0 <= p < MAX_PIPES ==> pipes[p] == PipeRefs(false, 0, 0)
    ensures Inv(files, fds, pipes)
  {
    forall f | 0 <= f < MAX_OPEN_FILES ensures FileCounted(files[f], Slots(fds, f)) {
      assert Slots(fds, f) == {};
    }
    forall p | 0 <= p < |pipes| ensures PipeCounted(files, pipes[p], p) {
      assert Ends(files, ReadEnd(p)) == {} && Ends(files, WriteEnd(p)) == {};
    }
  }
}
