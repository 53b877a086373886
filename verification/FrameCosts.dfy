/** Which page tables each address space has, and what a copy of one costs in frames. */
module FrameCosts {
  import Division
  import opened PageTables
  import opened DirectoryClone

  /** Some frame is the table for entry `i` of directory `d`. */
  ghost predicate HasTable(own: map<nat, Owner>, d: nat, i: nat) {
    exists t :: t in own && own[t] == Table(d, i)
  }

  ghost function TablesOf(own: map<nat, Owner>, d: nat): set<nat> {
    set i | KERNEL_PDES <= i < WORDS && HasTable(own, d, i)
  }

  /** For every directory, the user entries that have a table. */
  ghost function TableSets(own: map<nat, Owner>): map<nat, set<nat>> {
    map d | d in own && own[d].Dir? :: TablesOf(own, d)
  }

  /** Directory `d` now has a table for entry `i`; apart from that the tables are the same. */
  ghost predicate TableGiven(own0: map<nat, Owner>, own: map<nat, Owner>, d: nat, i: nat) {
    TableSets(own) == TableSets(own0)[d := TablesOf(own0, d) + {i}]
  }

  lemma TableThere(own: map<nat, Owner>, d: nat, i: nat)
    requires d in own && own[d].Dir? && i in TablesOf(own, d)
    ensures TableGiven(own, own, d, i)
  {
    assert TablesOf(own, d) + {i} == TablesOf(own, d);
  }

  /** The tables are the present directory entries. */
  lemma TableSeen(used: seq<bool>, mem: Memory, own: map<nat, Owner>, kernel: seq<Word>, d: nat, i: nat)
    requires Inv(used, mem, own, kernel) && d in own && own[d].Dir? && KERNEL_PDES <= i < WORDS
    ensures i in TablesOf(own, d) <==> Present(mem[d][i])
  {
    assert Closed(mem, own, d);
    if HasTable(own, d, i) {
      var t :| t in own && own[t] == Table(d, i);
      assert Referenced(mem, own, t);
    }
    if Present(mem[d][i]) {
      assert own[FrameOf(mem[d][i])] == Table(d, i);
    }
  }

  /** Two ways to record owners that differ, as far as tables go, only in directory `d`. */
  lemma OnlyIn(own: map<nat, Owner>, own': map<nat, Owner>, d: nat, s: set<nat>)
    requires forall e :: e in own' && own'[e].Dir? <==> e == d || (e in own && own[e].Dir?)
    requires forall e, k :: e != d && KERNEL_PDES <= k < WORDS ==> (HasTable(own', e, k) <==> HasTable(own, e, k))
    requires forall k :: k in s <==> KERNEL_PDES <= k < WORDS && HasTable(own', d, k)
    ensures TableSets(own') == TableSets(own)[d := s]
  {
    hide HasTable;
    assert TablesOf(own', d) == s;
    assert forall e :: e != d ==> TablesOf(own', e) == TablesOf(own, e);
  }

  lemma TableAdded(own: map<nat, Owner>, d: nat, i: nat, t: nat)
    requires d in own && own[d].Dir? && KERNEL_PDES <= i < WORDS && t !in own
    ensures TableGiven(own, own[t := Table(d, i)], d, i)
  {
    var own' := own[t := Table(d, i)];
    assert own'[t] == Table(d, i);
    forall e, k ensures HasTable(own', e, k) <==> HasTable(own, e, k) || (e == d && k == i) {
      if HasTable(own, e, k) {
        var s :| s in own && own[s] == Table(e, k);
        assert own'[s] == Table(e, k);
      }
    }
    hide HasTable;
    OnlyIn(own, own', d, TablesOf(own, d) + {i});
  }

  /** Taking or dropping a page leaves the tables alone. */
  lemma LeafAside(own: map<nat, Owner>, own': map<nat, Owner>, f: nat)
    requires own'.Keys == own.Keys + {f} && own'[f].Leaf? && (f in own ==> own[f].Leaf?)
    requires forall g :: g in own && g != f ==> own'[g] == own[g]
    ensures TableSets(own') == TableSets(own)
  {
    forall e, k ensures HasTable(own', e, k) <==> HasTable(own, e, k) {
      if HasTable(own, e, k) {
        var s :| s in own && own[s] == Table(e, k);
        assert own'[s] == Table(e, k);
      }
    }
    assert forall d :: d in own && own[d].Dir? <==> d in own' && own'[d].Dir?;
    assert forall d :: d in own ==> TablesOf(own', d) == TablesOf(own, d);
  }

  /** A fresh directory has no table. */
  lemma DirAdded(used: seq<bool>, mem: Memory, own: map<nat, Owner>, kernel: seq<Word>, n: nat)
    requires Inv(used, mem, own, kernel) && n !in own
    ensures TableSets(own[n := Dir]) == TableSets(own)[n := {}]
  {
    var own' := own[n := Dir];
    forall e, k ensures HasTable(own', e, k) <==> HasTable(own, e, k) && e != n {
      if HasTable(own, e, k) {
        var s :| s in own && own[s] == Table(e, k);
        assert own'[s] == Table(e, k) && Referenced(mem, own, s);
      }
    }
    hide HasTable;
    OnlyIn(own, own', n, {});
  }

  /** A copied directory has a table for every entry of the original that has one. */
  lemma TablesCloned(used0: seq<bool>, mem0: Memory, own: map<nat, Owner>, kernel: seq<Word>,
                     used: seq<bool>, mem: Memory, made: map<nat, Owner>, d: nat, n: nat)
    requires Inv(used0, mem0, own, kernel) && d in own && own[d].Dir?
    requires HalfDir(used0, mem0, used, mem, made, d, n, WORDS)
    ensures TableSets(own + made) == TableSets(own)[n := TablesOf(own, d)]
  {
    var all := own + made;
    assert forall e :: e in all && all[e].Dir? <==> e == n || (e in own && own[e].Dir?);
    forall e, k | KERNEL_PDES <= k < WORDS
      ensures HasTable(all, e, k) <==> if e == n then HasTable(own, d, k) else HasTable(own, e, k)
    {
      TableCloned(used0, mem0, own, kernel, used, mem, made, d, n, e, k);
    }
    hide HasTable, HalfDir, Inv;
    OnlyIn(own, all, n, TablesOf(own, d));
  }

  lemma TableCloned(used0: seq<bool>, mem0: Memory, own: map<nat, Owner>, kernel: seq<Word>,
                    used: seq<bool>, mem: Memory, made: map<nat, Owner>, d: nat, n: nat, e: nat, k: nat)
    requires Inv(used0, mem0, own, kernel) && d in own && own[d].Dir? && KERNEL_PDES <= k < WORDS
    requires HalfDir(used0, mem0, used, mem, made, d, n, WORDS)
    ensures HasTable(own + made, e, k) <==> if e == n then HasTable(own, d, k) else HasTable(own, e, k)
  {
    hide LeafCopied;
    var all := own + made;
    TableSeen(used0, mem0, own, kernel, d, k);
    assert TableCopied(mem, made, d, n, k);
    if HasTable(all, e, k) {
      var s :| s in all && all[s] == Table(e, k);
      assert if s in made then Referenced(mem, made, s) else Referenced(mem0, own, s);
    }
    if e == n && HasTable(own, d, k) {
      assert all[FrameOf(mem[n][k])] == Table(n, k);
    }
    if e != n && HasTable(own, e, k) {
      var s :| s in own && own[s] == Table(e, k);
      assert all[s] == Table(e, k);
    }
  }

  // ------------------------------------------------------------------ the price of a copy

  ghost function PagesBelow(mem: Memory, d: nat, hi: nat): set<nat>
    requires Shape(mem) && d < FRAMES
  {
    set v | v in SpaceOf(mem, d).Keys && v < hi
  }

  ghost function TablesBelow(own: map<nat, Owner>, d: nat, hi: nat): set<nat> {
    set i | i in TablesOf(own, d) && i < hi
  }

  /** Going through table `i`, one page is counted for each present entry. */
  lemma {:induction false} PagesOfTable(used: seq<bool>, mem: Memory, own: map<nat, Owner>, kernel: seq<Word>,
                                        d: nat, i: nat, j: nat)
    requires Inv(used, mem, own, kernel) && d in own && own[d].Dir? && KERNEL_PDES <= i < WORDS && j <= WORDS
    requires Present(mem[d][i]) && FrameOf(mem[d][i]) < FRAMES
    ensures |PagesBelow(mem, d, i * 1024 + j)| == |PagesBelow(mem, d, i * 1024)|
              + PresentBelow(mem[FrameOf(mem[d][i])], j)
  {
    hide PagesBelow, SpaceOf, Referenced, Closed;
    if j > 0 {
      PagesOfTable(used, mem, own, kernel, d, i, j - 1);
      var v := i * 1024 + (j - 1);
      Division.DivMod(1024, i, j - 1);
      Walk(used, mem, own, kernel, d, v);
      OneMore(mem, d, v);
    }
  }

  lemma OneMore(mem: Memory, d: nat, v: nat)
    requires Shape(mem) && d < FRAMES && UserPage(v)
    ensures |PagesBelow(mem, d, v + 1)| == |PagesBelow(mem, d, v)| + if Mapped(mem, d, v) then 1 else 0
  {
    assert v in SpaceOf(mem, d).Keys <==> Mapped(mem, d, v);
    if Mapped(mem, d, v) {
      assert PagesBelow(mem, d, v + 1) == PagesBelow(mem, d, v) + {v};
    } else {
      assert PagesBelow(mem, d, v + 1) == PagesBelow(mem, d, v);
    }
  }

  /** Without a table there are no pages. */
  lemma NoPages(mem: Memory, d: nat, i: nat)
    requires Shape(mem) && d < FRAMES && KERNEL_PDES <= i < WORDS && !Present(mem[d][i])
    ensures PagesBelow(mem, d, i * 1024 + 1024) == PagesBelow(mem, d, i * 1024)
  {
    forall v | i * 1024 <= v < i * 1024 + 1024 ensures v !in SpaceOf(mem, d).Keys {
      Division.DivMod(1024, i, v - i * 1024);
    }
  }

  /** One entry costs its table and the pages it adds. */
  lemma CostOfEntry(used: seq<bool>, mem: Memory, own: map<nat, Owner>, kernel: seq<Word>, d: nat, i: nat)
    requires Inv(used, mem, own, kernel) && d in own && own[d].Dir? && KERNEL_PDES <= i < WORDS
    ensures EntryCost(mem, d, i) + |PagesBelow(mem, d, i * 1024)| ==
              |PagesBelow(mem, d, i * 1024 + 1024)| + if Present(mem[d][i]) then 1 else 0
  {
    hide PagesBelow, PresentBelow;
    assert Closed(mem, own, d);
    if Present(mem[d][i]) {
      PagesOfTable(used, mem, own, kernel, d, i, WORDS);
    } else {
      NoPages(mem, d, i);
    }
  }

  lemma TablesGrow(own: map<nat, Owner>, d: nat, i: nat)
    ensures |TablesBelow(own, d, i + 1)| == |TablesBelow(own, d, i)| + if i in TablesOf(own, d) then 1 else 0
  {
    hide TablesOf;
    if i in TablesOf(own, d) {
      assert TablesBelow(own, d, i + 1) == TablesBelow(own, d, i) + {i};
    } else {
      assert TablesBelow(own, d, i + 1) == TablesBelow(own, d, i);
    }
  }

  lemma {:induction false} CostBelow(used: seq<bool>, mem: Memory, own: map<nat, Owner>, kernel: seq<Word>, d: nat,
                                     i: nat)
    requires Inv(used, mem, own, kernel) && d in own && own[d].Dir? && KERNEL_PDES <= i <= WORDS
    ensures CloneCost(mem, d, i) == 1 + |TablesBelow(own, d, i)| + |PagesBelow(mem, d, i * 1024)|
  {
    hide EntryCost, SpaceOf, HasTable;
    if i == KERNEL_PDES {
      KernelShared(mem, d);
      NonePages(mem, d);
      assert TablesBelow(own, d, i) == {};
    } else {
      hide PagesBelow, TablesBelow, TablesOf;
      CostBelow(used, mem, own, kernel, d, i - 1);
      TableSeen(used, mem, own, kernel, d, i - 1);
      CostOfEntry(used, mem, own, kernel, d, i - 1);
      TablesGrow(own, d, i - 1);
      assert (i - 1) * 1024 + 1024 == i * 1024;
    }
  }

  lemma NonePages(mem: Memory, d: nat)
    requires Shape(mem) && d < FRAMES
    ensures PagesBelow(mem, d, KERNEL_PDES * 1024) == {}
  {}

  /** A copy costs one frame for the directory, one for each table and one for each page. */
  lemma ClonePrice(used: seq<bool>, mem: Memory, own: map<nat, Owner>, kernel: seq<Word>, d: nat)
    requires Inv(used, mem, own, kernel) && d in own && own[d].Dir?
    ensures CloneCost(mem, d, WORDS) == 1 + |TablesOf(own, d)| + |SpaceOf(mem, d)|
  {
    CostBelow(used, mem, own, kernel, d, WORDS);
    assert TablesBelow(own, d, WORDS) == TablesOf(own, d);
    assert PagesBelow(mem, d, WORDS * 1024) == SpaceOf(mem, d).Keys;
  }
}
