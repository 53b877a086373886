/** What a user finds in memory after a run, told from the calls and their answers alone: a word holds what was last
    written to it, in the space itself or in the spaces it was forked from. */
module MemoryHistory {
  import opened PageTables
  import opened PhysicalMemory
  import opened AddressSpaces

  /** What a user sees at an address: nothing, or the protection of its page and the word there. */
  datatype Cell = Absent | Cell(flags: nat, word: Word)

  ghost predicate Full(w: World) {
    forall d, v :: d in w.spaces && v in w.spaces[d] ==> |w.spaces[d][v].words| == WORDS
  }

  ghost function CellAt(w: World, d: nat, va: nat): Cell
    requires Full(w)
  {
    if d in w.spaces && va / 4096 in w.spaces[d] then
      Cell(w.spaces[d][va / 4096].flags, w.spaces[d][va / 4096].words[va % 4096 / 4])
    else Absent
  }

  /** Looking back from the end of the run: the last answered call that concerns this address decides, and a fork
      sends the search to the parent. */
  ghost function Traced(w: World, calls: seq<Call>, rs: seq<nat>, d: nat, va: nat): Cell
    requires Full(w) && |rs| == |calls|
    decreases |calls|
  {
    if calls == [] then CellAt(w, d, va) else
    var n := |calls| - 1;
    var before := Traced(w, calls[..n], rs[..n], d, va);
    if rs[n] == 0 then before else
    match calls[n]
    case Alloc(e, a, flags) => if e == d && a / 4096 == va / 4096 then Cell(flags, 0) else before
    case Unmap(e, a) => if e == d && a / 4096 == va / 4096 then Absent else before
    case Protect(e, a, flags) =>
      if e == d && a / 4096 == va / 4096 && before.Cell? then Cell(flags, before.word) else before
    case Write(e, a, x) => if e == d && a / 4 == va / 4 && before.Cell? then Cell(before.flags, x) else before
    case Fork(e) => if rs[n] == d then Traced(w, calls[..n], rs[..n], e, va) else before
    case NewSpace => if rs[n] == d then Absent else before
  }

  /** When each call is answered with success, on the spaces before it: allocation needs an unmapped user page and
      frames for it and its table, a fork needs a frame for everything it copies. */
  lemma AnsweredIff(w: World, c: Call, r: nat)
    requires Paired(w) && Answers(w, c, r)
    ensures r != 0 <==>
            match c
            case Alloc(d, va, flags) =>
              && d in w.spaces && 0x1000000 <= va < 0x1_0000_0000 && flags < 4096 && flags % 2 == 1
              && va / 4096 !in w.spaces[d] && w.free >= (if va / 4194304 in w.tables[d] then 1 else 2)
            case Unmap(d, va) => d in w.spaces && 0x1000000 <= va < 0x1_0000_0000 && va / 4096 in w.spaces[d]
            case Protect(d, va, flags) =>
              && d in w.spaces && 0x1000000 <= va < 0x1_0000_0000 && flags < 4096 && flags % 2 == 1
              && va / 4096 in w.spaces[d]
            case Write(d, va, _) => d in w.spaces && 0x1000000 <= va < 0x1_0000_0000 && va / 4096 in w.spaces[d]
            case Fork(d) => d in w.spaces && w.free >= 1 + |w.tables[d]| + |w.spaces[d]|
            case NewSpace => w.free >= 1
  {}

  /** Two addresses are of the same word exactly if they agree in page and in word of the page. */
  lemma SameWord(a: nat, b: nat)
    ensures a / 4 == b / 4 <==> a / 4096 == b / 4096 && a % 4096 / 4 == b % 4096 / 4
  {
    assert a / 4 == a / 4096 * 1024 + a % 4096 / 4;
    assert b / 4 == b / 4096 * 1024 + b % 4096 / 4;
  }

  /** A stored word is found at its place; the others stay. */
  lemma NextWrite(w: World, e: nat, a: nat, x: Word, d: nat, va: nat)
    requires Paired(w) && Full(w) && Succeeds(w, Write(e, a, x))
    ensures Full(Next(w, Write(e, a, x), 1))
    ensures var before := CellAt(w, d, va);
            CellAt(Next(w, Write(e, a, x), 1), d, va) ==
              if e == d && a / 4 == va / 4 && before.Cell? then Cell(before.flags, x) else before
  {
    SameWord(a, va);
  }

  lemma NextFull(w: World, c: Call, r: nat)
    requires Paired(w) && Full(w) && Answers(w, c, r)
    ensures Full(Next(w, c, r))
  {}

  lemma NextCell(w: World, c: Call, r: nat, d: nat, va: nat)
    requires Paired(w) && Full(w) && Answers(w, c, r) && !c.Write? && !c.Fork? && r != 0
    ensures Full(Next(w, c, r))
    ensures var before := CellAt(w, d, va);
            CellAt(Next(w, c, r), d, va) ==
              match c
              case Alloc(e, a, flags) => if e == d && a / 4096 == va / 4096 then Cell(flags, 0) else before
              case Unmap(e, a) => if e == d && a / 4096 == va / 4096 then Absent else before
              case Protect(e, a, flags) =>
                if e == d && a / 4096 == va / 4096 && before.Cell? then Cell(flags, before.word) else before
              case NewSpace => if r == d then Absent else before
              case _ => before
  {
    NextFull(w, c, r);
  }

  lemma NextFork(w: World, e: nat, r: nat, d: nat, va: nat)
    requires Paired(w) && Full(w) && Answers(w, Fork(e), r) && r != 0
    ensures Full(Next(w, Fork(e), r))
    ensures CellAt(Next(w, Fork(e), r), d, va) == if r == d then CellAt(w, e, va) else CellAt(w, d, va)
  {}

  /** Memory remembers: after every run, what each space holds at each address is what the calls and answers say. */
  lemma {:induction false} Remembered(w: World, calls: seq<Call>, rs: seq<nat>, d: nat, va: nat)
    requires Paired(w) && Full(w) && |rs| == |calls| && AllAnswer(w, calls, rs)
    ensures Full(Replay(w, calls, rs)) && CellAt(Replay(w, calls, rs), d, va) == Traced(w, calls, rs, d, va)
    decreases |calls|
  {
    hide Next, Answers, AllAnswer, CellAt, Full;
    if calls != [] {
      var n := |calls| - 1;
      AnswersBefore(w, calls, rs, n);
      Remembered(w, calls[..n], rs[..n], d, va);
      var before := Replay(w, calls[..n], rs[..n]);
      if rs[n] == 0 {
        Unanswered(before, calls[n]);
      } else {
        match calls[n]
        case Write(e, a, x) =>
          WriteAnswered(before, e, a, x, rs[n]);
          NextWrite(before, e, a, x, d, va);
        case Fork(e) =>
          Remembered(w, calls[..n], rs[..n], e, va);
          NextFork(before, e, rs[n], d, va);
        case _ => NextCell(before, calls[n], rs[n], d, va);
      }
    }
  }

  lemma Unanswered(w: World, c: Call)
    requires Paired(w) && Answers(w, c, 0)
    ensures Next(w, c, 0) == w
  {}

  lemma WriteAnswered(w: World, e: nat, a: nat, x: Word, r: nat)
    requires Paired(w) && Answers(w, Write(e, a, x), r) && r != 0
    ensures Succeeds(w, Write(e, a, x)) && r == 1
  {}

  /** The real memory shows whole pages. */
  lemma WorldFull(m: FrameMemory)
    requires m.Valid()
    ensures Full(WorldOf(m))
  {}
}
