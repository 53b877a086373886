/** Runs of the memory manager.  The reference is a table of independent address spaces and a count of
    free frames; every run of the real, frame-sharing manager is explained by it. */
module AddressSpaces {
  import opened PageTables
  import opened DirectoryClone
  import opened FrameCosts
  import opened PhysicalMemory

  datatype Call =
    | Alloc(d: nat, va: nat, flags: nat)
    | Unmap(d: nat, va: nat)
    | Protect(d: nat, va: nat, flags: nat)
    | Write(d: nat, va: nat, x: Word)
    | Fork(d: nat)
    | NewSpace

  /** What a user can tell: the pages of each space, which of its directory entries have a table, and how many
      frames are free. */
  datatype World = World(spaces: map<nat, Space>, tables: map<nat, set<nat>>, free: int)

  ghost function WorldOf(m: FrameMemory): World
    requires m.Valid()
    reads m
  {
    World(m.View(), m.Tables(), FreeFrames(m.used))
  }

  /** The same directories on both sides. */
  predicate Paired(w: World) { w.spaces.Keys == w.tables.Keys }

  /** A call names a live directory, a user address, and flags that include the present bit. */
  predicate Legal(dirs: set<nat>, c: Call) {
    match c
    case Alloc(d, va, flags) => d in dirs && UserPage(va / 4096) && flags < 4096 && Present(flags)
    case Unmap(d, va) => d in dirs && UserPage(va / 4096)
    case Protect(d, va, flags) => d in dirs && UserPage(va / 4096) && flags < 4096 && Present(flags)
    case Write(d, va, _) => d in dirs && UserPage(va / 4096)
    case Fork(d) => d in dirs
    case NewSpace => true
  }

  /** The frames a successful call takes: a page, the table it may need, or a whole copy. */
  function Cost(w: World, c: Call): int
    requires Paired(w) && Legal(w.spaces.Keys, c)
  {
    match c
    case Alloc(d, va, _) => if va / 4194304 in w.tables[d] then 1 else 2
    case Unmap(_, _) => -1
    case Fork(d) => Weight(w, d)
    case NewSpace => 1
    case _ => 0
  }

  /** The frames of one space: its directory, its tables and its pages. */
  function Weight(w: World, d: nat): nat
    requires d in w.spaces && d in w.tables
  {
    1 + |w.tables[d]| + |w.spaces[d]|
  }

  /** Whether a call succeeds. */
  predicate Succeeds(w: World, c: Call)
    requires Paired(w)
  {
    && Legal(w.spaces.Keys, c)
    && match c
       case Alloc(d, va, _) => va / 4096 !in w.spaces[d] && w.free >= Cost(w, c)
       case Unmap(d, va) => va / 4096 in w.spaces[d]
       case Protect(d, va, _) => va / 4096 in w.spaces[d]
       case Write(d, va, _) => va / 4096 in w.spaces[d]
       case Fork(_) => w.free >= Cost(w, c)
       case NewSpace => w.free >= 1
  }

  /** The space that a successful call changes; `r` names the directory of a fork or a new space. */
  function Target(c: Call, r: nat): nat {
    match c
    case Alloc(d, _, _) => d
    case Unmap(d, _) => d
    case Protect(d, _, _) => d
    case Write(d, _, _) => d
    case Fork(_) => r
    case NewSpace => r
  }

  /** The pages of that space afterwards. */
  function PagesAfter(w: World, c: Call): Space
    requires Paired(w) && Succeeds(w, c)
  {
    match c
    case Alloc(d, va, flags) => w.spaces[d][va / 4096 := Page(flags, ZeroPage())]
    case Unmap(d, va) => w.spaces[d] - {va / 4096}
    case Protect(d, va, flags) => w.spaces[d][va / 4096 := w.spaces[d][va / 4096].(flags := flags)]
    case Write(d, va, x) =>
      var p := w.spaces[d][va / 4096];
      w.spaces[d][va / 4096 := Page(p.flags, SetWord(p.words, va % 4096 / 4, x))]
    case Fork(d) => w.spaces[d]
    case NewSpace => map[]
  }

  /** Its directory entries that then have a table. */
  function TablesAfter(w: World, c: Call): set<nat>
    requires Paired(w) && Succeeds(w, c)
  {
    match c
    case Alloc(d, va, _) => w.tables[d] + {va / 4194304}
    case Unmap(d, _) => w.tables[d]
    case Protect(d, _, _) => w.tables[d]
    case Write(d, _, _) => w.tables[d]
    case Fork(d) => w.tables[d]
    case NewSpace => {}
  }

  /** A successful call changes one space. */
  function Effect(w: World, c: Call, r: nat): World
    requires Paired(w) && Succeeds(w, c)
  {
    World(w.spaces[Target(c, r) := PagesAfter(w, c)], w.tables[Target(c, r) := TablesAfter(w, c)], w.free - Cost(w, c))
  }

  /** One call with answer `r`, a failure being answered by 0 and changing nothing. */
  function Next(w: World, c: Call, r: nat): (after: World)
    requires Paired(w)
    ensures Paired(after)
  {
    if Succeeds(w, c) then Effect(w, c, r) else w
  }

  /** The answer is forced, except that a new directory may be any that was not there before. */
  predicate Answers(w: World, c: Call, r: nat)
    requires Paired(w)
  {
    if !Succeeds(w, c) then r == 0
    else match c
      case Alloc(_, va, _) => r == va
      case Fork(_) => r != 0 && r !in w.spaces
      case NewSpace => r != 0 && r !in w.spaces
      case _ => r == 1
  }

  function Replay(w: World, calls: seq<Call>, rs: seq<nat>): (after: World)
    requires |rs| == |calls| && Paired(w)
    ensures Paired(after)
  {
    if calls == [] then w
    else Next(Replay(w, calls[..|calls| - 1], rs[..|calls| - 1]), calls[|calls| - 1], rs[|calls| - 1])
  }

  ghost predicate AllAnswer(w: World, calls: seq<Call>, rs: seq<nat>)
    requires |rs| == |calls| && Paired(w)
  {
    forall k :: 0 <= k < |calls| ==> Answers(Replay(w, calls[..k], rs[..k]), calls[k], rs[k])
  }

  lemma WorldPaired(m: FrameMemory)
    requires m.Valid()
    ensures Paired(WorldOf(m))
  {}

  /** What the reference charges is what the memory charges. */
  lemma Charged(m: FrameMemory, d: nat)
    requires m.Valid() && m.IsDir(d)
    ensures var w := WorldOf(m);
            && d in w.spaces && d in w.tables && CloneCost(m.mem, d, WORDS) == Weight(w, d)
            && TablesOf(m.own, d) == w.tables[d]
            && forall i :: KERNEL_PDES <= i < WORDS ==> (i in w.tables[d] <==> Present(m.mem[d][i]))
  {
    forall i | KERNEL_PDES <= i < WORDS ensures i in TablesOf(m.own, d) <==> Present(m.mem[d][i]) {
      TableSeen(m.used, m.mem, m.own, m.kernel, d, i);
    }
    ClonePrice(m.used, m.mem, m.own, m.kernel, d);
  }

  method DoAlloc(m: FrameMemory, d: nat, va: nat, flags: nat) returns (r: nat)
    requires m.Valid() && Legal(m.View().Keys, Alloc(d, va, flags))
    modifies m
    ensures m.Valid() && (old(m.Balanced()) ==> m.Balanced()) && Paired(old(WorldOf(m)))
    ensures Answers(old(WorldOf(m)), Alloc(d, va, flags), r)
    ensures WorldOf(m) == Next(old(WorldOf(m)), Alloc(d, va, flags), r)
  {
    hide Accounted, SpaceOf, FreeFrames, CloneCost, TableSets, TablesOf, Inv, ZeroPage, SetWord, Grown, Kept, Holds,
      LeafFrames, TablesFor;
    WorldPaired(m);
    Charged(m, d);
    var at, _ := m.AllocAt(d, va, flags);
    r := at;
  }

  method DoFork(m: FrameMemory, d: nat) returns (r: nat)
    requires m.Valid() && Legal(m.View().Keys, Fork(d))
    modifies m
    ensures m.Valid() && (old(m.Balanced()) ==> m.Balanced()) && Paired(old(WorldOf(m)))
    ensures Answers(old(WorldOf(m)), Fork(d), r) && WorldOf(m) == Next(old(WorldOf(m)), Fork(d), r)
  {
    hide Accounted, SpaceOf, FreeFrames, CloneCost, TableSets, TablesOf, Inv, ZeroPage, SetWord, Grown, Kept, Holds,
      LeafFrames, TablesFor;
    WorldPaired(m);
    Charged(m, d);
    r := m.ClonePdir(d);
  }

  /** One legal kernel call on the real memory. */
  method Perform(m: FrameMemory, c: Call) returns (r: nat)
    requires m.Valid() && Legal(m.View().Keys, c)
    modifies m
    ensures m.Valid() && (old(m.Balanced()) ==> m.Balanced()) && Paired(old(WorldOf(m)))
    ensures Answers(old(WorldOf(m)), c, r) && WorldOf(m) == Next(old(WorldOf(m)), c, r)
  {
    hide Accounted, SpaceOf, FreeFrames, CloneCost, TableSets, TablesOf, Inv, ZeroPage, SetWord, Grown, Kept, Holds,
      LeafFrames, TablesFor;
    WorldPaired(m);
    r := 0;
    match c
    case Alloc(d, va, flags) =>
      r := DoAlloc(m, d, va, flags);
    case Unmap(d, va) =>
      var ok, _ := m.UnmapAt(d, va);
      r := if ok then 1 else 0;
    case Protect(d, va, flags) =>
      var w := m.GetPte(d, va);
      m.ProtectAt(d, va, flags);
      r := if Present(w) then 1 else 0;
    case Write(d, va, x) =>
      var ok := m.Store(d, va, x);
      r := if ok then 1 else 0;
    case Fork(d) =>
      r := DoFork(m, d);
    case NewSpace =>
      r := m.NewDir();
  }

  /** Every run: whatever calls are made in whatever order, on the directories that exist at the time, frame
      ownership holds throughout, no frame leaks, and every answer and all spaces are those of the reference. */
  method Run(m: FrameMemory, initial: set<nat>, calls: seq<Call>) returns (rs: seq<nat>)
    requires m.Valid() && m.Balanced() && initial == m.View().Keys
    modifies m
    ensures m.Valid() && m.Balanced() && |rs| == |calls| && Paired(old(WorldOf(m)))
    ensures WorldOf(m) == Replay(old(WorldOf(m)), calls, rs) && AllAnswer(old(WorldOf(m)), calls, rs)
  {
    hide Next, Answers, Replay, AllAnswer, Legal, FrameMemory.Valid, FrameMemory.Balanced, FrameMemory.View,
      FrameMemory.Tables, FreeFrames;
    rs := [];
    WorldPaired(m);
    ReplayNone(WorldOf(m));
    assert calls[..0] == [];
    var dirs := initial;
    for k := 0 to |calls|
      invariant m.Valid() && m.Balanced() && |rs| == k && dirs == WorldOf(m).spaces.Keys
      invariant WorldOf(m) == Replay(old(WorldOf(m)), calls[..k], rs)
      invariant AllAnswer(old(WorldOf(m)), calls[..k], rs)
    {
      var r := 0;
      ghost var before := WorldOf(m);
      if Legal(dirs, calls[k]) {
        r := Perform(m, calls[k]);
      } else {
        IllegalStays(before, calls[k]);
      }
      NextKeys(before, calls[k], r);
      if (calls[k].Fork? || calls[k].NewSpace?) && r != 0 {
        dirs := dirs + {r};
      }
      ReplayLast(old(WorldOf(m)), calls[..k], rs, calls[k], r);
      assert calls[..k + 1] == calls[..k] + [calls[k]];
      rs := rs + [r];
    }
    assert calls[..|calls|] == calls;
  }

  lemma ReplayNone(w: World)
    requires Paired(w)
    ensures Replay(w, [], []) == w && AllAnswer(w, [], [])
  {}

  lemma IllegalStays(w: World, c: Call)
    requires Paired(w) && !Legal(w.spaces.Keys, c)
    ensures Next(w, c, 0) == w && Answers(w, c, 0)
  {}

  lemma NextKeys(w: World, c: Call, r: nat)
    requires Paired(w) && Answers(w, c, r)
    ensures Next(w, c, r).spaces.Keys == if (c.Fork? || c.NewSpace?) && r != 0 then w.spaces.Keys + {r}
              else w.spaces.Keys
  {}

  lemma NextElsewhere(w: World, c: Call, r: nat, d: nat)
    requires Paired(w) && d in w.spaces && !Names(c, d) && Answers(w, c, r)
    ensures d in Next(w, c, r).spaces && Next(w, c, r).spaces[d] == w.spaces[d]
  {}

  lemma AnswersAt(w: World, calls: seq<Call>, rs: seq<nat>, k: nat)
    requires Paired(w) && |rs| == |calls| && AllAnswer(w, calls, rs) && k < |calls|
    ensures Answers(Replay(w, calls[..k], rs[..k]), calls[k], rs[k])
  {
    hide Replay, Answers;
  }

  lemma AnswersPrefix(w: World, calls: seq<Call>, rs: seq<nat>, cs: seq<Call>, qs: seq<nat>)
    requires Paired(w) && |rs| == |calls| && AllAnswer(w, calls, rs)
    requires |cs| == |qs| && cs <= calls && qs <= rs
    ensures AllAnswer(w, cs, qs)
  {
    hide Replay, Answers;
    forall k | 0 <= k < |cs| ensures Answers(Replay(w, cs[..k], qs[..k]), cs[k], qs[k]) {
      assert cs[..k] == calls[..k] && qs[..k] == rs[..k];
      AnswersAt(w, calls, rs, k);
    }
  }

  lemma AnswersBefore(w: World, calls: seq<Call>, rs: seq<nat>, n: nat)
    requires Paired(w) && |rs| == |calls| == n + 1 && AllAnswer(w, calls, rs)
    ensures AllAnswer(w, calls[..n], rs[..n]) && Answers(Replay(w, calls[..n], rs[..n]), calls[n], rs[n])
  {
    hide Replay, Answers, AllAnswer;
    AnswersPrefix(w, calls, rs, calls[..n], rs[..n]);
    AnswersAt(w, calls, rs, n);
  }

  lemma ReplayLast(w: World, calls: seq<Call>, rs: seq<nat>, c: Call, r: nat)
    requires Paired(w) && |rs| == |calls| && AllAnswer(w, calls, rs)
    ensures Replay(w, calls + [c], rs + [r]) == Next(Replay(w, calls, rs), c, r)
    ensures Answers(Replay(w, calls, rs), c, r) ==> AllAnswer(w, calls + [c], rs + [r])
  {
    hide Next, Answers;
    var cs, qs := calls + [c], rs + [r];
    assert cs[..|calls|] == calls && qs[..|calls|] == rs;
    if Answers(Replay(w, calls, rs), c, r) {
      forall k | 0 <= k < |cs| ensures Answers(Replay(w, cs[..k], qs[..k]), cs[k], qs[k]) {
        if k < |calls| {
          assert cs[..k] == calls[..k] && qs[..k] == rs[..k];
        }
      }
    }
  }

  predicate Names(c: Call, d: nat) {
    match c
    case Alloc(e, _, _) => e == d
    case Unmap(e, _) => e == d
    case Protect(e, _, _) => e == d
    case Write(e, _, _) => e == d
    case Fork(_) => false
    case NewSpace => false
  }

  /** Isolation: a space changes only through calls that name it, however the other
      spaces, its parent and its children included, are written meanwhile. */
  lemma {:induction false} Isolated(w: World, calls: seq<Call>, rs: seq<nat>, d: nat)
    requires Paired(w) && |rs| == |calls| && AllAnswer(w, calls, rs) && d in w.spaces
    requires forall k :: 0 <= k < |calls| ==> !Names(calls[k], d)
    ensures d in Replay(w, calls, rs).spaces && Replay(w, calls, rs).spaces[d] == w.spaces[d]
  {
    hide Next, Answers, AllAnswer;
    if calls != [] {
      var n := |calls| - 1;
      AnswersBefore(w, calls, rs, n);
      Isolated(w, calls[..n], rs[..n], d);
      NextElsewhere(Replay(w, calls[..n], rs[..n]), calls[n], rs[n], d);
    }
  }

  // ------------------------------------------------------------------ conservation

  /** The frames of all the spaces in `dirs`. */
  ghost function Held(w: World, dirs: set<nat>): nat
    requires Paired(w) && dirs <= w.spaces.Keys
  {
    if dirs == {} then 0 else
    var d :| d in dirs;
    Weight(w, d) + Held(w, dirs - {d})
  }

  /** The choice of the space counted first does not matter. */
  lemma {:induction false} HeldMinus(w: World, dirs: set<nat>, d: nat)
    requires Paired(w) && dirs <= w.spaces.Keys && d in dirs
    ensures Held(w, dirs) == Weight(w, d) + Held(w, dirs - {d})
  {
    hide Weight;
    var e :| e in dirs && Held(w, dirs) == Weight(w, e) + Held(w, dirs - {e});
    if e != d {
      HeldMinus(w, dirs - {e}, d);
      HeldMinus(w, dirs - {d}, e);
      assert dirs - {e} - {d} == dirs - {d} - {e};
    }
  }

  lemma {:induction false} HeldSame(w: World, w': World, dirs: set<nat>)
    requires Paired(w) && Paired(w') && dirs <= w.spaces.Keys && dirs <= w'.spaces.Keys
    requires forall d :: d in dirs ==> Weight(w', d) == Weight(w, d)
    ensures Held(w', dirs) == Held(w, dirs)
  {
    hide Weight;
    if dirs != {} {
      var d :| d in dirs;
      HeldMinus(w, dirs, d);
      HeldMinus(w', dirs, d);
      HeldSame(w, w', dirs - {d});
    }
  }

  lemma Sizes(pages: Space, v: nat, p: Page, tables: set<nat>, i: nat)
    ensures |pages[v := p]| == |pages| + if v in pages then 0 else 1
    ensures |pages - {v}| == |pages| - if v in pages then 1 else 0
    ensures |tables + {i}| == |tables| + if i in tables then 0 else 1
  {
    assert (pages - {v}).Keys == pages.Keys - {v};
    if i in tables {
      assert tables + {i} == tables;
    }
  }

  /** A successful call pays for what it adds. */
  lemma Paid(w: World, c: Call, r: nat)
    requires Paired(w) && Answers(w, c, r) && Succeeds(w, c)
    ensures 1 + |TablesAfter(w, c)| + |PagesAfter(w, c)| ==
              (if Target(c, r) in w.spaces then Weight(w, Target(c, r)) else 0) + Cost(w, c)
  {
    hide ZeroPage, SetWord;
    match c
    case Alloc(d, va, flags) => Sizes(w.spaces[d], va / 4096, Page(flags, ZeroPage()), w.tables[d], va / 4194304);
    case Unmap(d, va) => Sizes(w.spaces[d], va / 4096, w.spaces[d][va / 4096], {}, 0);
    case Protect(d, va, flags) => Sizes(w.spaces[d], va / 4096, w.spaces[d][va / 4096].(flags := flags), {}, 0);
    case Write(d, va, x) =>
      var p := w.spaces[d][va / 4096];
      Sizes(w.spaces[d], va / 4096, Page(p.flags, SetWord(p.words, va % 4096 / 4, x)), {}, 0);
    case _ =>
  }

  lemma NextConserves(w: World, c: Call, r: nat)
    requires Paired(w) && Answers(w, c, r)
    ensures var w' := Next(w, c, r); w'.free + Held(w', w'.spaces.Keys) == w.free + Held(w, w.spaces.Keys)
  {
    hide Held, Target, Cost, Answers, PagesAfter, TablesAfter;
    if Succeeds(w, c) {
      hide Succeeds, Weight;
      Paid(w, c, r);
      HeldWith(w, Target(c, r), PagesAfter(w, c), TablesAfter(w, c), w.free - Cost(w, c));
    }
  }

  lemma WeightWith(w: World, t: nat, pages: Space, tables: set<nat>, free: int)
    requires Paired(w)
    ensures var w' := World(w.spaces[t := pages], w.tables[t := tables], free);
            && Paired(w') && Weight(w', t) == 1 + |tables| + |pages|
            && forall d :: d in w.spaces && d != t ==> Weight(w', d) == Weight(w, d)
  {}

  /** Changing or adding one space changes the total by the frames of that space. */
  lemma HeldWith(w: World, t: nat, pages: Space, tables: set<nat>, free: int)
    requires Paired(w)
    ensures var w' := World(w.spaces[t := pages], w.tables[t := tables], free);
            && Paired(w')
            && Held(w', w'.spaces.Keys) + (if t in w.spaces then Weight(w, t) else 0) ==
                 Held(w, w.spaces.Keys) + 1 + |tables| + |pages|
  {
    hide Held, Weight;
    WeightWith(w, t, pages, tables, free);
    var w' := World(w.spaces[t := pages], w.tables[t := tables], free);
    var others := w.spaces.Keys - {t};
    assert w'.spaces.Keys - {t} == others;
    HeldMinus(w', w'.spaces.Keys, t);
    HeldSame(w, w', others);
    if t in w.spaces {
      HeldMinus(w, w.spaces.Keys, t);
    } else {
      assert others == w.spaces.Keys;
    }
  }

  /** Conservation: however long the run, the free frames and the frames of all spaces together stay the same. */
  lemma {:induction false} Conserved(w: World, calls: seq<Call>, rs: seq<nat>)
    requires Paired(w) && |rs| == |calls| && AllAnswer(w, calls, rs)
    ensures var w' := Replay(w, calls, rs); w'.free + Held(w', w'.spaces.Keys) == w.free + Held(w, w.spaces.Keys)
  {
    hide Next, Answers, AllAnswer, Held;
    if calls != [] {
      var n := |calls| - 1;
      AnswersBefore(w, calls, rs, n);
      Conserved(w, calls[..n], rs[..n]);
      NextConserves(Replay(w, calls[..n], rs[..n]), calls[n], rs[n]);
    }
  }
}
