/** A pipe as a bounded queue shared by tasks that block and wake each other. */
module PipeStream {

  const PIPE_BUF_SIZE: nat := 4096

  type Bytes = seq<bv8>

  /** A waiting pid is -1 when nobody has registered. */
  datatype Pipe = Pipe(content: Bytes, readers: int, writers: int, readerPid: int, writerPid: int)

  /** How one uninterrupted stretch of a call ends; `woken` is -1 or the task it makes ready. */
  datatype Outcome = Blocked | Returned(value: int, woken: int)

  function Min(a: nat, b: nat): nat {
    if a < b then a else b
  }

  // ------------------------------------------------------------------ one stretch of a call

  predicate ReadBlocks(p: Pipe) {
    p.content == [] && p.writers != 0
  }

  /** The bytes a read of `n` hands over now. */
  function Taken(p: Pipe, n: nat): Bytes {
    p.content[..Min(n, |p.content|)]
  }

  function ReadStep(p: Pipe, pid: int, n: nat): (r: (Pipe, Outcome)) {
    if ReadBlocks(p) then (p.(readerPid := pid), Blocked)
    else if p.content == [] then (p, Returned(0, -1))
    else (p.(content := p.content[Min(n, |p.content|)..], writerPid := if p.writerPid >= 0 then -1 else p.writerPid),
          Returned(Min(n, |p.content|), if p.writerPid >= 0 then p.writerPid else -1))
  }

  /** How many of the remaining bytes a write puts in now. */
  function Room(p: Pipe, rest: Bytes): nat {
    if |p.content| < PIPE_BUF_SIZE then Min(|rest|, PIPE_BUF_SIZE - |p.content|) else 0
  }

  /** `done` bytes of the call went in before this stretch, `rest` is what is left. */
  function WriteStep(p: Pipe, pid: int, done: nat, rest: Bytes): (r: (Pipe, Outcome)) {
    var k := Room(p, rest);
    var q := p.(content := p.content + rest[..k]);
    if k < |rest| then (if q.readers == 0 then (q, Returned(-1, -1)) else (q.(writerPid := pid), Blocked))
    else (q.(readerPid := if q.readerPid >= 0 then -1 else q.readerPid),
          Returned(done + |rest|, if q.readerPid >= 0 then q.readerPid else -1))
  }

  function CloseRead(p: Pipe): (r: (Pipe, int)) {
    var q := p.(readers := p.readers - 1);
    if q.readers == 0 && q.writerPid >= 0 then (q.(writerPid := -1), q.writerPid) else (q, -1)
  }

  function CloseWrite(p: Pipe): (r: (Pipe, int)) {
    var q := p.(writers := p.writers - 1);
    if q.writers == 0 && q.readerPid >= 0 then (q.(readerPid := -1), q.readerPid) else (q, -1)
  }

  // ------------------------------------------------------------------ tasks on a pipe

  datatype Phase =
    | Idle
    | Reading(n: nat, asleep: bool)
    | Writing(data: Bytes, done: nat, asleep: bool)

  datatype Event =
    | BeginRead(pid: int, n: nat)
    | BeginWrite(pid: int, data: Bytes)
    | Turn(pid: int)
    | Signal(pid: int)
    | DropReader
    | DropWriter

  /** A call by `pid` has returned `value`. */
  datatype Result = Result(pid: int, value: int)

  /** `written` and `readOut` are all bytes ever put in and all bytes ever handed over, in order, and `results` what
      the calls that have ended returned. */
  datatype System = System(pipe: Pipe, phases: map<int, Phase>, written: Bytes, readOut: Bytes, results: seq<Result>)

  const START := System(Pipe([], 1, 1, -1, -1), map[], [], [], [])

  function PhaseOf(s: System, pid: int): Phase {
    if pid in s.phases then s.phases[pid] else Idle
  }

  function Woken(phases: map<int, Phase>, pid: int): map<int, Phase> {
    if pid !in phases || phases[pid] == Idle then phases else phases[pid := phases[pid].(asleep := false)]
  }

  function ReaderTurn(s: System, pid: int, n: nat): System {
    var (p, o) := ReadStep(s.pipe, pid, n);
    match o
    case Blocked => s.(pipe := p, phases := s.phases[pid := Reading(n, true)])
    case Returned(v, w) =>
      s.(pipe := p, phases := Woken(s.phases[pid := Idle], w), readOut := s.readOut + Taken(s.pipe, n),
         results := s.results + [Result(pid, v)])
  }

  /** The bytes of a write that are still to go in. */
  function Rest(data: Bytes, done: nat): Bytes {
    if done <= |data| then data[done..] else []
  }

  function WriterTurn(s: System, pid: int, data: Bytes, done: nat): System {
    var rest := Rest(data, done);
    var k := Room(s.pipe, rest);
    var (p, o) := WriteStep(s.pipe, pid, done, rest);
    match o
    case Blocked =>
      s.(pipe := p, phases := s.phases[pid := Writing(data, done + k, true)], written := s.written + rest[..k])
    case Returned(v, w) =>
      s.(pipe := p, phases := Woken(s.phases[pid := Idle], w), written := s.written + rest[..k],
         results := s.results + [Result(pid, v)])
  }

  /** A task runs only while it is not asleep; a signal wakes a sleeping one at any time. */
  function Step(s: System, e: Event): System {
    match e
    case BeginRead(pid, n) => if PhaseOf(s, pid) == Idle then s.(phases := s.phases[pid := Reading(n, false)]) else s
    case BeginWrite(pid, data) =>
      if PhaseOf(s, pid) == Idle then s.(phases := s.phases[pid := Writing(data, 0, false)]) else s
    case Turn(pid) => (
      match PhaseOf(s, pid)
      case Reading(n, false) => ReaderTurn(s, pid, n)
      case Writing(data, done, false) => WriterTurn(s, pid, data, done)
      case _ => s
    )
    case Signal(pid) => s.(phases := Woken(s.phases, pid))
    case DropReader =>
      if s.pipe.readers > 0 then var (p, w) := CloseRead(s.pipe); s.(pipe := p, phases := Woken(s.phases, w)) else s
    case DropWriter =>
      if s.pipe.writers > 0 then var (p, w) := CloseWrite(s.pipe); s.(pipe := p, phases := Woken(s.phases, w)) else s
  }

  function Run(s: System, events: seq<Event>): System
    decreases |events|
  {
    if events == [] then s else Run(Step(s, events[0]), events[1..])
  }

  // ------------------------------------------------------------------ the stream

  /** Bytes handed over, then bytes waiting, are exactly the bytes put in. */
  ghost predicate Stream(s: System) {
    s.readOut + s.pipe.content == s.written && |s.pipe.content| <= PIPE_BUF_SIZE
  }

  lemma StepStream(s: System, e: Event)
    requires Stream(s)
    ensures Stream(Step(s, e))
  {
    if e.Turn? {
      match PhaseOf(s, e.pid)
      case Reading(n, false) =>
        if s.pipe.content != [] {
          assert s.pipe.content == Taken(s.pipe, n) + s.pipe.content[Min(n, |s.pipe.content|)..];
        }
      case Writing(data, done, false) =>
        var rest := Rest(data, done);
        var k := Room(s.pipe, rest);
        assert s.readOut + (s.pipe.content + rest[..k]) == (s.readOut + s.pipe.content) + rest[..k];
      case _ =>
    }
  }

  /** Over any interleaving of reads, writes, wakes and closes by any number of tasks, the pipe is a stream. */
  lemma {:induction false} RunStream(s: System, events: seq<Event>)
    requires Stream(s)
    ensures Stream(Run(s, events))
    decreases |events|
  {
    if events != [] {
      StepStream(s, events[0]);
      RunStream(Step(s, events[0]), events[1..]);
    }
  }

  // ------------------------------------------------------------------ what a read returns

  /** In every reachable state a running read returns exactly the number of bytes it hands over, which are the next ones
      of the stream: as many as it asked for or as there are; it sleeps exactly if there is none and the write end is
      open.  When it hands over bytes the writer that has registered is not asleep any more. */
  lemma ReadReturns(events: seq<Event>, pid: int)
    requires var f := PhaseOf(Run(START, events), pid); f.Reading? && !f.asleep
    ensures var s := Run(START, events);
            var t := Step(s, Turn(pid));
            var n, m := PhaseOf(s, pid).n, |s.written| - |s.readOut|;
            var r := if n < m then n else m;
            && (m == 0 && s.pipe.writers != 0 ==>
                  t.results == s.results && t.readOut == s.readOut && PhaseOf(t, pid) == Reading(n, true))
            && (m != 0 || s.pipe.writers == 0 ==>
                  && t.results == s.results + [Result(pid, r)] && PhaseOf(t, pid) == Idle
                  && 0 <= |s.readOut| <= |s.readOut| + r <= |s.written| && t.written == s.written
                  && t.readOut == s.readOut + s.written[|s.readOut|..|s.readOut| + r])
            && (m != 0 && s.pipe.writerPid >= 0 ==>
                  t.pipe.writerPid == -1 && !Asleep(t, s.pipe.writerPid))
  {
    RunStream(START, events);
    var s := Run(START, events);
    hide Run;
    assert s.written[|s.readOut|..] == s.pipe.content;
  }

  /** A read for at least one byte would return nothing exactly when the write end is gone and every byte ever
      written has been read. */
  lemma EndOfFile(events: seq<Event>, pid: int, n: nat)
    requires n > 0
    ensures var s := Run(START, events);
            var o := ReadStep(s.pipe, pid, n).1;
            o.Returned? && o.value == 0 <==> s.pipe.writers == 0 && s.readOut == s.written
  {
    RunStream(START, events);
    var s := Run(START, events);
    if s.readOut == s.written {
      assert |s.readOut + s.pipe.content| == |s.readOut|;
    }
  }

  /** And a running one does. */
  lemma EndOfFileReturned(events: seq<Event>, pid: int)
    requires var f := PhaseOf(Run(START, events), pid); f.Reading? && !f.asleep && f.n > 0
    ensures var s := Run(START, events);
            Step(s, Turn(pid)).results == s.results + [Result(pid, 0)] <==>
              s.pipe.writers == 0 && s.readOut == s.written
  {
    ReadReturns(events, pid);
    RunStream(START, events);
    var s := Run(START, events);
    hide Run, Step;
    var m := |s.written| - |s.readOut|;
    if m == 0 {
      assert s.readOut + s.pipe.content == s.readOut;
    }
    var t := Step(s, Turn(pid));
    var n := PhaseOf(s, pid).n;
    assert t.results != s.results ==> t.results[|s.results|] == Result(pid, if n < m then n else m);
  }

  // ------------------------------------------------------------------ what a write returns

  /** No write has put in more than it was given. */
  ghost predicate Counting(s: System) {
    forall pid :: pid in s.phases && s.phases[pid].Writing? ==> s.phases[pid].done <= |s.phases[pid].data|
  }

  lemma StepCounting(s: System, e: Event)
    requires Counting(s)
    ensures Counting(Step(s, e))
  {}

  lemma {:induction false} RunCounting(s: System, events: seq<Event>)
    requires Counting(s)
    ensures Counting(Run(s, events))
    decreases |events|
  {
    hide Counting, Step;
    if events != [] {
      StepCounting(s, events[0]);
      RunCounting(Step(s, events[0]), events[1..]);
    }
  }

  /** In every reachable state a write that runs puts in all that is left and returns its full length exactly if that
      fits.  Otherwise it fills the buffer; it then fails exactly if nobody can read, and sleeps if somebody can. */
  lemma WriteReturns(events: seq<Event>, pid: int)
    requires var f := PhaseOf(Run(START, events), pid); f.Writing? && !f.asleep
    ensures var s := Run(START, events);
            var t := Step(s, Turn(pid));
            var data, done := PhaseOf(s, pid).data, PhaseOf(s, pid).done;
            var room := PIPE_BUF_SIZE - (|s.written| - |s.readOut|);
            && 0 <= done <= |data| && 0 <= room && t.readOut == s.readOut
            && (|data| - done <= room ==>
                  && t.written == s.written + data[done..] && t.results == s.results + [Result(pid, |data|)]
                  && PhaseOf(t, pid) == Idle)
            && (|data| - done > room ==>
                  && t.written == s.written + data[done..done + room]
                  && (s.pipe.readers == 0 ==>
                        t.results == s.results + [Result(pid, -1)] && PhaseOf(t, pid) == Idle)
                  && (s.pipe.readers != 0 ==>
                        t.results == s.results && PhaseOf(t, pid) == Writing(data, done + room, true)))
            && (|data| - done <= room && s.pipe.readerPid >= 0 ==>
                  t.pipe.readerPid == -1 && !Asleep(t, s.pipe.readerPid))
  {
    RunCounting(START, events);
    RunStream(START, events);
    var s := Run(START, events);
    hide Run;
    var data, done := PhaseOf(s, pid).data, PhaseOf(s, pid).done;
    var rest := Rest(data, done);
    assert |s.written| - |s.readOut| == |s.pipe.content|;
    assert rest[..|rest|] == rest;
    var room := PIPE_BUF_SIZE - |s.pipe.content|;
    if |rest| > room {
      assert rest[..room] == data[done..done + room];
    }
  }

  // ------------------------------------------------------------------ both sides asleep

  ghost predicate Asleep(s: System, pid: int) {
    PhaseOf(s, pid) != Idle && PhaseOf(s, pid).asleep
  }

  /** Every close counts one end down, and the last one of the reading side lets the registered writer go on. */
  lemma ReaderGone(s: System)
    requires s.pipe.readers > 0
    ensures var t := Step(s, DropReader);
            && t.pipe.readers == s.pipe.readers - 1 && t.pipe.writers == s.pipe.writers
            && t.readOut == s.readOut && t.written == s.written && t.results == s.results
            && t.pipe.content == s.pipe.content && t.pipe.readerPid == s.pipe.readerPid
            && (t.pipe.readers == 0 && s.pipe.writerPid >= 0 ==>
                  t.pipe.writerPid == -1 && !Asleep(t, s.pipe.writerPid))
  {}

  /** The same for the writing side and the registered reader. */
  lemma WriterGone(s: System)
    requires s.pipe.writers > 0
    ensures var t := Step(s, DropWriter);
            && t.pipe.writers == s.pipe.writers - 1 && t.pipe.readers == s.pipe.readers
            && t.readOut == s.readOut && t.written == s.written && t.results == s.results
            && t.pipe.content == s.pipe.content && t.pipe.writerPid == s.pipe.writerPid
            && (t.pipe.writers == 0 && s.pipe.readerPid >= 0 ==>
                  t.pipe.readerPid == -1 && !Asleep(t, s.pipe.readerPid))
  {}

  /** One reader `r` and one writer `w`, with no write over `limit` bytes. */
  ghost predicate Within(e: Event, r: int, w: int, limit: nat) {
    match e
    case BeginRead(pid, _) => pid == r
    case BeginWrite(pid, data) => pid == w && |data| <= limit
    case _ => true
  }

  ghost predicate AllWithin(events: seq<Event>, r: int, w: int, limit: nat) {
    forall i :: 0 <= i < |events| ==> Within(events[i], r, w, limit)
  }

  /** A sleeper is registered and what it waits for has not happened: the pipe is empty, or full. */
  ghost predicate Paired(s: System, r: int, w: int) {
    && s.phases.Keys <= {r, w} && !PhaseOf(s, r).Writing? && !PhaseOf(s, w).Reading?
    && (Asleep(s, r) ==> s.pipe.content == [] && s.pipe.readerPid == r && s.pipe.writers != 0)
    && (Asleep(s, w) ==> |s.pipe.content| == PIPE_BUF_SIZE && s.pipe.writerPid == w && s.pipe.readers != 0)
    && (PhaseOf(s, w).Writing? ==> |PhaseOf(s, w).data| <= PIPE_BUF_SIZE)
    && |s.pipe.content| <= PIPE_BUF_SIZE
  }

  lemma StepPaired(s: System, e: Event, r: int, w: int)
    requires Paired(s, r, w) && Within(e, r, w, PIPE_BUF_SIZE) && 0 <= r && 0 <= w && r != w
    ensures Paired(Step(s, e), r, w)
  {
    if e == Turn(r) && PhaseOf(s, r).Reading? && !PhaseOf(s, r).asleep {
      ReaderPaired(s, r, w);
    } else if e == Turn(w) && PhaseOf(s, w).Writing? && !PhaseOf(s, w).asleep {
      WriterPaired(s, r, w);
    }
  }

  lemma ReaderPaired(s: System, r: int, w: int)
    requires Paired(s, r, w) && 0 <= r && 0 <= w && r != w && PhaseOf(s, r).Reading?
    ensures Paired(ReaderTurn(s, r, PhaseOf(s, r).n), r, w)
  {}

  lemma WriterPaired(s: System, r: int, w: int)
    requires Paired(s, r, w) && 0 <= r && 0 <= w && r != w && PhaseOf(s, w).Writing?
    ensures Paired(WriterTurn(s, w, PhaseOf(s, w).data, PhaseOf(s, w).done), r, w)
  {}

  lemma {:induction false} RunPaired(s: System, events: seq<Event>, r: int, w: int)
    requires Paired(s, r, w) && AllWithin(events, r, w, PIPE_BUF_SIZE) && 0 <= r && 0 <= w && r != w
    ensures Paired(Run(s, events), r, w)
    decreases |events|
  {
    if events != [] {
      StepPaired(s, events[0], r, w);
      RunPaired(Step(s, events[0]), events[1..], r, w);
    }
  }

  ghost predicate CanDeadlock(r: int, w: int, limit: nat) {
    exists events :: AllWithin(events, r, w, limit) && Asleep(Run(START, events), r) && Asleep(Run(START, events), w)
  }

  /** A write longer than the buffer meets a sleeping reader: it fills the buffer and sleeps without waking it. */
  lemma LongWrite(r: int, w: int, data: Bytes)
    requires 0 <= r && 0 <= w && r != w && |data| > PIPE_BUF_SIZE
    ensures var events := [BeginRead(r, 1), Turn(r), BeginWrite(w, data), Turn(w)];
            Asleep(Run(START, events), r) && Asleep(Run(START, events), w)
  {
    var s1 := Step(START, BeginRead(r, 1));
    var s2 := Step(s1, Turn(r));
    var s3 := Step(s2, BeginWrite(w, data));
    var s4 := Step(s3, Turn(w));
    assert Asleep(s4, r) && Asleep(s4, w);
    var events := [BeginRead(r, 1), Turn(r), BeginWrite(w, data), Turn(w)];
    assert events[1..] == [Turn(r), BeginWrite(w, data), Turn(w)];
    assert events[1..][1..] == [BeginWrite(w, data), Turn(w)];
    assert events[1..][1..][1..] == [Turn(w)];
    assert Run(s3, [Turn(w)]) == s4;
    assert Run(s2, events[1..][1..]) == s4;
  }

  /** With one reader and one writer, some run ends with both asleep exactly if writes may be longer than
      the buffer. */
  lemma DeadlockIff(r: int, w: int, limit: nat)
    requires 0 <= r && 0 <= w && r != w
    ensures CanDeadlock(r, w, limit) <==> limit > PIPE_BUF_SIZE
  {
    if limit > PIPE_BUF_SIZE {
      var data := seq(PIPE_BUF_SIZE + 1, i => 0 as bv8);
      LongWrite(r, w, data);
      var events := [BeginRead(r, 1), Turn(r), BeginWrite(w, data), Turn(w)];
      assert AllWithin(events, r, w, limit);
    } else {
      forall events | AllWithin(events, r, w, limit)
        ensures !(Asleep(Run(START, events), r) && Asleep(Run(START, events), w))
      {
        RunPaired(START, events, r, w);
      }
    }
  }
}
