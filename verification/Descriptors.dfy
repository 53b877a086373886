/** Open files shared by descriptors: reference counts and pipe ends over all tasks. */
module Descriptors {

  const MAX_FD: nat := 16          // descriptors of a task
  const MAX_OPEN_FILES: nat := 16
  const MAX_PIPES: nat := 16

  /** What an open file is; a free slot of the open-file table has no operations. */
  datatype Kind = Free | Plain | ReadEnd(pipe: nat) | WriteEnd(pipe: nat)

  datatype File = File(kind: Kind, refcount: int)

  datatype PipeRefs = PipeRefs(used: bool, readers: int, writers: int)

  /** A descriptor names an open file, or is -1. */
  type Tables = seq<seq<int>>

  /** The descriptors, over all tasks, that name file `f`. */
  ghost function Slots(fds: Tables, f: int): set<(int, int)> {
    set t, k | 0 <= t < |fds| && 0 <= k < |fds[t]| && fds[t][k] == f :: (t, k)
  }

  ghost predicate Shape(files: seq<File>, fds: Tables, pipes: seq<PipeRefs>) {
    && |files| == MAX_OPEN_FILES && |pipes| == MAX_PIPES
    && (forall t :: 0 <= t < |fds| ==> |fds[t]| == MAX_FD)
    && (forall t, k :: 0 <= t < |fds| && 0 <= k < MAX_FD ==> -1 <= fds[t][k] < MAX_OPEN_FILES)
    && (forall f :: 0 <= f < MAX_OPEN_FILES && files[f].kind.ReadEnd? ==> files[f].kind.pipe < MAX_PIPES)
    && (forall f :: 0 <= f < MAX_OPEN_FILES && files[f].kind.WriteEnd? ==> files[f].kind.pipe < MAX_PIPES)
  }

  /** A file's count is the number of descriptors that name it, and it is open exactly while
      there are some. */
  ghost predicate FileCounted(file: File, slots: set<(int, int)>) {
    if file.kind == Free then slots == {} else file.refcount == |slots| > 0
  }

  ghost predicate Counted(files: seq<File>, fds: Tables) {
    forall f :: 0 <= f < |files| ==> FileCounted(files[f], Slots(fds, f))
  }

  ghost function Ends(files: seq<File>, kind: Kind): set<int> {
    set f | 0 <= f < |files| && files[f].kind == kind
  }

  /** A pipe's counts are the numbers of its open ends, and it is in use exactly while it has one. */
  ghost predicate PipeCounted(files: seq<File>, pipe: PipeRefs, p: nat) {
    && pipe.readers == |Ends(files, ReadEnd(p))|
    && pipe.writers == |Ends(files, WriteEnd(p))|
    && (pipe.used <==> pipe.readers + pipe.writers > 0)
  }

  ghost predicate PipesCounted(files: seq<File>, pipes: seq<PipeRefs>) {
    forall p :: 0 <= p < |pipes| ==> PipeCounted(files, pipes[p], p)
  }

  ghost predicate Inv(files: seq<File>, fds: Tables, pipes: seq<PipeRefs>) {
    Shape(files, fds, pipes) && Counted(files, fds) && PipesCounted(files, pipes)
  }

  function SetFd(fds: Tables, t: nat, k: nat, f: int): (r: Tables)
    requires t < |fds| && k < |fds[t]|
    ensures |r| == |fds| && |r[t]| == |fds[t]| && r[t][k] == f
    ensures forall l :: 0 <= l < |fds[t]| && l != k ==> r[t][l] == fds[t][l]
    ensures forall u :: 0 <= u < |fds| && u != t ==> r[u] == fds[u]
  {
    fds[t := fds[t][k := f]]
  }

  /** Changing one descriptor moves one place from the old file to the new one. */
  lemma SlotsSet(fds: Tables, t: nat, k: nat, f: int, g: int)
    requires t < |fds| && k < |fds[t]|
    ensures Slots(SetFd(fds, t, k, f), g) ==
              if g == f then Slots(fds, g) + {(t, k)} else if g == fds[t][k] then Slots(fds, g) - {(t, k)}
                else Slots(fds, g)
  {
    var fds' := SetFd(fds, t, k, f);
    forall u, l ensures (u, l) in Slots(fds', g) <==>
      (u, l) in (if g == f then Slots(fds, g) + {(t, k)} else if g == fds[t][k] then Slots(fds, g) - {(t, k)}
                 else Slots(fds, g))
    {}
  }

  // ------------------------------------------------------------------ closing

  function DropReader(p: PipeRefs): PipeRefs {
    PipeRefs(p.used && (p.readers - 1 != 0 || p.writers != 0), p.readers - 1, p.writers)
  }

  function DropWriter(p: PipeRefs): PipeRefs {
    PipeRefs(p.used && (p.writers - 1 != 0 || p.readers != 0), p.readers, p.writers - 1)
  }

  /** The pipe pool after the last reference to a file of this kind has gone. */
  function PipesWithout(pipes: seq<PipeRefs>, kind: Kind): (r: seq<PipeRefs>)
    requires kind.ReadEnd? || kind.WriteEnd? ==> kind.pipe < |pipes|
    ensures |r| == |pipes|
  {
    match kind
    case ReadEnd(p) => pipes[p := DropReader(pipes[p])]
    case WriteEnd(p) => pipes[p := DropWriter(pipes[p])]
    case _ => pipes
  }

  /** The open-file table after one reference to `f` has gone. */
  function FilesAfter(files: seq<File>, f: nat): (r: seq<File>)
    requires f < |files|
    ensures |r| == |files|
  {
    if files[f].refcount - 1 > 0 then files[f := files[f].(refcount := files[f].refcount - 1)]
    else files[f := File(Free, files[f].refcount - 1)]
  }

  function PipesAfter(files: seq<File>, pipes: seq<PipeRefs>, f: nat): (r: seq<PipeRefs>)
    requires f < |files| && (files[f].kind.ReadEnd? || files[f].kind.WriteEnd? ==> files[f].kind.pipe < |pipes|)
    ensures |r| == |pipes|
  {
    if files[f].refcount - 1 > 0 then pipes else PipesWithout(pipes, files[f].kind)
  }

  /** Freeing a file takes it out of the ends of its kind and no others. */
  lemma EndsWithout(files: seq<File>, f: nat, r: int, kind: Kind)
    requires f < |files| && kind != Free
    ensures Ends(files[f := File(Free, r)], kind) == Ends(files, kind) - {f}
    ensures files[f].kind == kind ==> f in Ends(files, kind)
    ensures files[f].kind != kind ==> Ends(files[f := File(Free, r)], kind) == Ends(files, kind)
  {}

  lemma EndsWith(files: seq<File>, f: nat, file: File, kind: Kind)
    requires f < |files| && files[f].kind == Free && kind != Free
    ensures Ends(files[f := file], kind) == if file.kind == kind then Ends(files, kind) + {f} else Ends(files, kind)
    ensures f !in Ends(files, kind)
  {}

  /** Losing the last reference to a pipe end keeps the pipe counts right. */
  lemma PipesFreed(files: seq<File>, pipes: seq<PipeRefs>, f: nat, r: int)
    requires f < |files| && PipesCounted(files, pipes)
    requires files[f].kind.ReadEnd? || files[f].kind.WriteEnd? ==> files[f].kind.pipe < |pipes|
    ensures PipesCounted(files[f := File(Free, r)], PipesWithout(pipes, files[f].kind))
  {
    forall p | 0 <= p < |pipes|
      ensures PipeCounted(files[f := File(Free, r)], PipesWithout(pipes, files[f].kind)[p], p)
    {
      assert PipeCounted(files, pipes[p], p);
      EndsWithout(files, f, r, ReadEnd(p));
      EndsWithout(files, f, r, WriteEnd(p));
    }
  }

  /** Changing only a count does not touch the pipes. */
  lemma PipesSameKinds(files: seq<File>, files': seq<File>, pipes: seq<PipeRefs>)
    requires |files| == |files'| && PipesCounted(files, pipes)
    requires forall f :: 0 <= f < |files| ==> files[f].kind == files'[f].kind
    ensures PipesCounted(files', pipes)
  {
    forall p | 0 <= p < |pipes| ensures PipeCounted(files', pipes[p], p) {
      assert PipeCounted(files, pipes[p], p);
      assert Ends(files', ReadEnd(p)) == Ends(files, ReadEnd(p))
             && Ends(files', WriteEnd(p)) == Ends(files, WriteEnd(p));
    }
  }

  /** Closing a descriptor releases its file exactly if it was the last one. */
  lemma CloseInv(files: seq<File>, fds: Tables, pipes: seq<PipeRefs>, t: nat, k: nat)
    requires Inv(files, fds, pipes) && t < |fds| && k < MAX_FD && fds[t][k] >= 0
    ensures Inv(FilesAfter(files, fds[t][k]), SetFd(fds, t, k, -1), PipesAfter(files, pipes, fds[t][k]))
  {
    hide Slots, FilesAfter, PipesAfter;
    CloseCounted(files, fds, t, k);
    CloseShape(files, fds, pipes, t, k);
    ClosePipes(files, pipes, fds[t][k]);
    hide Counted, PipesCounted;
  }

  lemma ClosePipes(files: seq<File>, pipes: seq<PipeRefs>, f: nat)
    requires f < |files| && PipesCounted(files, pipes)
    requires files[f].kind.ReadEnd? || files[f].kind.WriteEnd? ==> files[f].kind.pipe < |pipes|
    ensures PipesCounted(FilesAfter(files, f), PipesAfter(files, pipes, f))
  {
    hide PipesCounted;
    if files[f].refcount - 1 > 0 {
      PipesSameKinds(files, FilesAfter(files, f), pipes);
    } else {
      PipesFreed(files, pipes, f, files[f].refcount - 1);
    }
  }

  lemma CloseShape(files: seq<File>, fds: Tables, pipes: seq<PipeRefs>, t: nat, k: nat)
    requires Shape(files, fds, pipes) && t < |fds| && k < MAX_FD && fds[t][k] >= 0
    ensures Shape(FilesAfter(files, fds[t][k]), SetFd(fds, t, k, -1), PipesAfter(files, pipes, fds[t][k]))
  {}

  lemma CloseCounted(files: seq<File>, fds: Tables, t: nat, k: nat)
    requires Counted(files, fds) && t < |fds| && k < |fds[t]| && 0 <= fds[t][k] < |files|
    ensures Counted(FilesAfter(files, fds[t][k]), SetFd(fds, t, k, -1))
  {
    var f := fds[t][k];
    var fds', files' := SetFd(fds, t, k, -1), FilesAfter(files, f);
    assert (t, k) in Slots(fds, f);
    forall g | 0 <= g < |files| ensures FileCounted(files'[g], Slots(fds', g)) {
      assert FileCounted(files[g], Slots(fds, g));
      SlotsSet(fds, t, k, -1, g);
    }
  }

  /** One more descriptor for an open file. */
  lemma AddRefInv(files: seq<File>, fds: Tables, pipes: seq<PipeRefs>, t: nat, k: nat, f: nat)
    requires Inv(files, fds, pipes) && t < |fds| && k < MAX_FD && fds[t][k] == -1
    requires f < MAX_OPEN_FILES && files[f].kind != Free
    ensures Inv(WithRef(files, f), SetFd(fds, t, k, f), pipes)
  {
    hide Slots, Counted, PipesCounted;
    AddRefCounted(files, fds, t, k, f);
    PipesSameKinds(files, WithRef(files, f), pipes);
  }

  function WithRef(files: seq<File>, f: nat): (r: seq<File>)
    requires f < |files|
    ensures |r| == |files|
  {
    files[f := files[f].(refcount := files[f].refcount + 1)]
  }

  lemma AddRefCounted(files: seq<File>, fds: Tables, t: nat, k: nat, f: nat)
    requires Counted(files, fds) && t < |fds| && k < |fds[t]| && fds[t][k] == -1
    requires f < |files| && files[f].kind != Free
    ensures Counted(WithRef(files, f), SetFd(fds, t, k, f))
  {
    var fds', files' := SetFd(fds, t, k, f), WithRef(files, f);
    assert (t, k) !in Slots(fds, f);
    forall g | 0 <= g < |files| ensures FileCounted(files'[g], Slots(fds', g)) {
      assert FileCounted(files[g], Slots(fds, g));
      SlotsSet(fds, t, k, f, g);
    }
  }

  /** The count left behind in a free slot of the open-file table means nothing. */
  lemma FreeCountInv(files: seq<File>, fds: Tables, pipes: seq<PipeRefs>, f: nat, r: int)
    requires Inv(files, fds, pipes) && f < MAX_OPEN_FILES && files[f].kind == Free
    ensures Inv(files[f := File(Free, r)], fds, pipes)
  {
    hide Slots;
    var files' := files[f := File(Free, r)];
    forall g | 0 <= g < MAX_OPEN_FILES ensures FileCounted(files'[g], Slots(fds, g)) {
      assert FileCounted(files[g], Slots(fds, g));
    }
    PipesSameKinds(files, files', pipes);
  }

  /** A free file given its first descriptor. */
  lemma InstallCounted(files: seq<File>, fds: Tables, t: nat, k: nat, f: nat, kind: Kind)
    requires Counted(files, fds) && t < |fds| && k < |fds[t]| && fds[t][k] == -1
    requires f < |files| && files[f].kind == Free && kind != Free
    ensures Counted(files[f := File(kind, 1)], SetFd(fds, t, k, f))
  {
    var fds', files' := SetFd(fds, t, k, f), files[f := File(kind, 1)];
    forall g | 0 <= g < |files| ensures FileCounted(files'[g], Slots(fds', g)) {
      assert FileCounted(files[g], Slots(fds, g));
      SlotsSet(fds, t, k, f, g);
    }
  }

  lemma InstallInv(files: seq<File>, fds: Tables, pipes: seq<PipeRefs>, t: nat, k: nat, f: nat)
    requires Inv(files, fds, pipes) && t < |fds| && k < MAX_FD && fds[t][k] == -1
    requires f < MAX_OPEN_FILES && files[f].kind == Free
    ensures Inv(files[f := File(Plain, 1)], SetFd(fds, t, k, f), pipes)
  {
    hide Slots;
    var files' := files[f := File(Plain, 1)];
    InstallCounted(files, fds, t, k, f, Plain);
    forall p | 0 <= p < |pipes| ensures PipeCounted(files', pipes[p], p) {
      assert PipeCounted(files, pipes[p], p);
      EndsWith(files, f, File(Plain, 1), ReadEnd(p));
      EndsWith(files, f, File(Plain, 1), WriteEnd(p));
    }
  }

  /** Two free files and an unused pipe taken for two new descriptors. */
  lemma InstallPipeInv(files: seq<File>, fds: Tables, pipes: seq<PipeRefs>, t: nat, k: nat, l: nat, f: nat, g: nat,
                       p: nat)
    requires Inv(files, fds, pipes) && t < |fds| && k < MAX_FD && l < MAX_FD && k != l && fds[t][k] == -1
               && fds[t][l] == -1
    requires f < MAX_OPEN_FILES && g < MAX_OPEN_FILES && f != g && files[f].kind == Free && files[g].kind == Free
    requires p < MAX_PIPES && !pipes[p].used
    ensures Inv(files[f := File(ReadEnd(p), 1)][g := File(WriteEnd(p), 1)], SetFd(SetFd(fds, t, k, f), t, l, g),
                pipes[p := PipeRefs(true, 1, 1)])
  {
    hide Slots, PipesCounted, Counted;
    InstallCounted(files, fds, t, k, f, ReadEnd(p));
    InstallCounted(files[f := File(ReadEnd(p), 1)], SetFd(fds, t, k, f), t, l, g, WriteEnd(p));
    PipeOpened(files, pipes, f, g, p);
  }

  lemma PipeOpened(files: seq<File>, pipes: seq<PipeRefs>, f: nat, g: nat, p: nat)
    requires PipesCounted(files, pipes) && f < |files| && g < |files| && f != g && files[f].kind == Free
               && files[g].kind == Free
    requires p < |pipes| && !pipes[p].used
    ensures PipesCounted(files[f := File(ReadEnd(p), 1)][g := File(WriteEnd(p), 1)], pipes[p := PipeRefs(true, 1, 1)])
  {
    var files1, pipes' := files[f := File(ReadEnd(p), 1)], pipes[p := PipeRefs(true, 1, 1)];
    var files2 := files1[g := File(WriteEnd(p), 1)];
    forall q | 0 <= q < |pipes| ensures PipeCounted(files2, pipes'[q], q) {
      hide Ends;
      assert PipeCounted(files, pipes[q], q);
      EndsWith(files, f, File(ReadEnd(p), 1), ReadEnd(q));
      EndsWith(files, f, File(ReadEnd(p), 1), WriteEnd(q));
      EndsWith(files1, g, File(WriteEnd(p), 1), ReadEnd(q));
      EndsWith(files1, g, File(WriteEnd(p), 1), WriteEnd(q));
    }
  }
}
