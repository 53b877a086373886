/** What a half-built copy of a page directory looks like, and what the finished copy
    means for the ownership invariant and the address spaces. */
module DirectoryClone {
  import opened PageTables

  /** Frames that are allocated now: the ones allocated before plus the ones in `made`. */
  ghost predicate Taken(used0: seq<bool>, used: seq<bool>, made: map<nat, Owner>) {
    && |used0| == |used| == FRAMES
    && (forall f :: f in made ==> 0 < f < FRAMES && !used0[f])
    && (forall f :: 0 <= f < FRAMES ==> (used[f] <==> used0[f] || f in made))
  }

  /** Memory that was allocated before has not changed. */
  ghost predicate Kept(used0: seq<bool>, mem0: Memory, mem: Memory) {
    Shape(mem0) && Shape(mem) && |used0| == FRAMES && forall f :: 0 <= f < FRAMES && used0[f] ==> mem[f] == mem0[f]
  }

  /** Entry `j` of table `t` is a deep copy of entry `j` of table `p`. */
  ghost predicate LeafCopied(mem: Memory, made: map<nat, Owner>, p: nat, t: nat, j: nat)
    requires Shape(mem) && p < FRAMES && t < FRAMES && j < WORDS
  {
    var w, c := mem[p][j], mem[t][j];
    if Present(w) then
      && Present(c) && FlagsOf(c) == FlagsOf(w)
      && FrameOf(w) < FRAMES && FrameOf(c) < FRAMES
      && FrameOf(c) in made && made[FrameOf(c)] == Leaf(t, j)
      && mem[FrameOf(c)] == mem[FrameOf(w)]
    else
      c == w
  }

  /** `made` holds table `t` (for entry `i` of directory `n`) and the pages below entry `hi` of it. */
  ghost predicate TableMade(mem: Memory, made: map<nat, Owner>, n: nat, i: nat, t: nat, hi: nat)
    requires Shape(mem) && t < FRAMES && hi <= WORDS
  {
    && t in made && made[t] == Table(n, i)
    && forall f :: f in made && f != t ==>
         made[f].Leaf? && made[f].table == t && made[f].pte < hi
         && Present(mem[t][made[f].pte]) && FrameOf(mem[t][made[f].pte]) == f
  }

  /** Copying table `p` into `t` has got as far as entry `hi`. */
  ghost predicate HalfTable(used0: seq<bool>, mem0: Memory, used: seq<bool>, mem: Memory, made: map<nat, Owner>,
                            n: nat, i: nat, p: nat, t: nat, hi: nat)
  {
    && p < FRAMES && t < FRAMES && hi <= WORDS
    && Kept(used0, mem0, mem) && Taken(used0, used, made) && used0[p]
    && (forall j :: 0 <= j < WORDS && Present(mem[p][j]) ==> FrameOf(mem[p][j]) < FRAMES && used0[FrameOf(mem[p][j])])
    && TableMade(mem, made, n, i, t, hi)
    && (forall j :: 0 <= j < hi ==> LeafCopied(mem, made, p, t, j))
  }

  lemma StartTable(used0: seq<bool>, mem0: Memory, n: nat, i: nat, p: nat, t: nat)
    requires Shape(mem0) && |used0| == FRAMES && p < FRAMES && used0[p] && 0 < t < FRAMES && !used0[t]
    requires forall j :: 0 <= j < WORDS && Present(mem0[p][j]) ==>
               FrameOf(mem0[p][j]) < FRAMES && used0[FrameOf(mem0[p][j])]
    ensures HalfTable(used0, mem0, used0[t := true], mem0, map[t := Table(n, i)], n, i, p, t, 0)
  {}

  lemma CopyLeaf(used0: seq<bool>, mem0: Memory, used: seq<bool>, mem: Memory, made: map<nat, Owner>,
                 n: nat, i: nat, p: nat, t: nat, j: nat, g: nat)
    requires HalfTable(used0, mem0, used, mem, made, n, i, p, t, j) && j < WORDS
    requires Present(mem[p][j]) && 0 < g < FRAMES && !used[g]
    ensures HalfTable(used0, mem0, used[g := true],
                      Poke(mem[g := mem[FrameOf(mem[p][j])]], t, j, Entry(g, FlagsOf(mem[p][j]))),
                      made[g := Leaf(t, j)], n, i, p, t, j + 1)
  {
    EntryParts(g, FlagsOf(mem[p][j]));
    var mem' := Poke(mem[g := mem[FrameOf(mem[p][j])]], t, j, Entry(g, FlagsOf(mem[p][j])));
    var made' := made[g := Leaf(t, j)];
    forall k | 0 <= k < j ensures LeafCopied(mem', made', p, t, k) {
      assert LeafCopied(mem, made, p, t, k);
    }
  }

  lemma CopyAbsent(used0: seq<bool>, mem0: Memory, used: seq<bool>, mem: Memory, made: map<nat, Owner>,
                   n: nat, i: nat, p: nat, t: nat, j: nat)
    requires HalfTable(used0, mem0, used, mem, made, n, i, p, t, j) && j < WORDS && !Present(mem[p][j])
    ensures HalfTable(used0, mem0, used, Poke(mem, t, j, mem[p][j]), made, n, i, p, t, j + 1)
  {
    var mem' := Poke(mem, t, j, mem[p][j]);
    forall k | 0 <= k < j ensures LeafCopied(mem', made, p, t, k) {
      assert LeafCopied(mem, made, p, t, k);
    }
  }

  /** Entry `k` of directory `n` is a deep copy of entry `k` of directory `d`. */
  ghost predicate TableCopied(mem: Memory, made: map<nat, Owner>, d: nat, n: nat, k: nat)
    requires Shape(mem) && d < FRAMES && n < FRAMES && k < WORDS
  {
    var w, c := mem[d][k], mem[n][k];
    if k >= KERNEL_PDES && Present(w) then
      && Present(c) && FlagsOf(c) == FlagsOf(w)
      && FrameOf(w) < FRAMES && FrameOf(c) < FRAMES
      && FrameOf(c) in made && made[FrameOf(c)] == Table(n, k)
      && forall j :: 0 <= j < WORDS ==> LeafCopied(mem, made, FrameOf(w), FrameOf(c), j)
    else
      c == w
  }

  /** `made` holds directory `n` and everything below its entries under `hi`. */
  ghost predicate DirMade(mem: Memory, made: map<nat, Owner>, n: nat, hi: nat)
    requires Shape(mem) && n < FRAMES && hi <= WORDS
  {
    && n in made && made[n] == Dir
    && (forall f :: f in made ==> f < FRAMES && (made[f].Dir? ==> f == n))
    && (forall f :: f in made && made[f].Table? ==> made[f].dir == n && made[f].pde < hi)
    && (forall f :: f in made ==> Referenced(mem, made, f))
  }

  /** Copying directory `d` into `n` has got as far as entry `hi`. */
  ghost predicate HalfDir(used0: seq<bool>, mem0: Memory, used: seq<bool>, mem: Memory, made: map<nat, Owner>,
                          d: nat, n: nat, hi: nat)
  {
    && d < FRAMES && n < FRAMES && hi <= WORDS
    && Kept(used0, mem0, mem) && Taken(used0, used, made) && used0[d]
    && DirMade(mem, made, n, hi)
    && (forall k :: 0 <= k < hi ==> TableCopied(mem, made, d, n, k))
    && (forall k :: 0 <= k < hi ==> SourceUsed(used0, mem, d, k))
  }

  lemma HalfShape(used0: seq<bool>, mem0: Memory, used: seq<bool>, mem: Memory, made: map<nat, Owner>, d: nat, n: nat,
                  hi: nat)
    requires HalfDir(used0, mem0, used, mem, made, d, n, hi)
    ensures Shape(mem0) && d < FRAMES && |used| == FRAMES
  {}

  /** The frames below entry `k` of directory `d` were allocated before the copy began. */
  ghost predicate SourceUsed(used0: seq<bool>, mem: Memory, d: nat, k: nat)
    requires Shape(mem) && d < FRAMES && k < WORDS && |used0| == FRAMES
  {
    k >= KERNEL_PDES && Present(mem[d][k]) ==>
      && FrameOf(mem[d][k]) < FRAMES && used0[FrameOf(mem[d][k])]
      && forall j :: 0 <= j < WORDS && Present(mem[FrameOf(mem[d][k])][j]) ==>
           FrameOf(mem[FrameOf(mem[d][k])][j]) < FRAMES && used0[FrameOf(mem[FrameOf(mem[d][k])][j])]
  }

  lemma StartDir(used0: seq<bool>, mem0: Memory, own: map<nat, Owner>, kernel: seq<Word>, d: nat, n: nat)
    requires Inv(used0, mem0, own, kernel) && d in own && own[d].Dir? && 0 < n < FRAMES && !used0[n]
    ensures HalfDir(used0, mem0, used0[n := true], mem0[n := mem0[d][..KERNEL_PDES] + mem0[n][KERNEL_PDES..]],
                    map[n := Dir], d, n, KERNEL_PDES)
  {}

  /** Changes to unallocated frames do not disturb a half-built copy. */
  lemma HalfDirKept(used0: seq<bool>, mem0: Memory, used: seq<bool>, mem: Memory, made: map<nat, Owner>,
                    d: nat, n: nat, hi: nat, mem': Memory)
    requires HalfDir(used0, mem0, used, mem, made, d, n, hi) && Kept(used, mem, mem')
    ensures HalfDir(used0, mem0, used, mem', made, d, n, hi)
  {
    forall f | f in made ensures Referenced(mem', made, f) {
      assert Referenced(mem, made, f);
    }
    forall k | 0 <= k < hi ensures TableCopied(mem', made, d, n, k) && SourceUsed(used0, mem', d, k) {
      assert TableCopied(mem, made, d, n, k) && SourceUsed(used0, mem, d, k);
      if k >= KERNEL_PDES && Present(mem[d][k]) {
        forall j | 0 <= j < WORDS ensures LeafCopied(mem', made, FrameOf(mem[d][k]), FrameOf(mem[n][k]), j) {
          assert LeafCopied(mem, made, FrameOf(mem[d][k]), FrameOf(mem[n][k]), j);
        }
      }
    }
  }

  /** Recording one more table entry in the new directory. */
  lemma CopyTable(used0: seq<bool>, mem0: Memory, used1: seq<bool>, mem: Memory, made: map<nat, Owner>,
                  d: nat, n: nat, i: nat, used: seq<bool>, more: map<nat, Owner>, pde: Word)
    requires HalfDir(used0, mem0, used1, mem, made, d, n, i) && KERNEL_PDES <= i < WORDS
    requires Present(mem[d][i]) && SourceUsed(used0, mem, d, i)
    requires FlagsOf(pde) == FlagsOf(mem[d][i]) && FrameOf(pde) < FRAMES
    requires Taken(used1, used, more) && TableMade(mem, more, n, i, FrameOf(pde), WORDS)
    requires forall j :: 0 <= j < WORDS ==> LeafCopied(mem, more, FrameOf(mem[d][i]), FrameOf(pde), j)
    ensures HalfDir(used0, mem0, used, Poke(mem, n, i, pde), made + more, d, n, i + 1)
  {
    var mem' := Poke(mem, n, i, pde);
    var all := made + more;
    hide TableCopied, SourceUsed, LeafCopied, Referenced;
    assert n in made && made[n].Dir? && !used0[n] && n != d;
    assert FrameOf(pde) in more && more[FrameOf(pde)] == Table(n, i) && forall f :: f in made ==> f !in more;
    hide TableMade;
    PresentByFlags(pde);
    PresentByFlags(mem[d][i]);
    TableHung(used0, used1, used, mem, made, more, n, i, pde);
    KeptTaken(used0, mem0, used1, mem, made, used, more, n, i, pde);
    hide DirMade, Taken;
    forall k | 0 <= k <= i ensures TableCopied(mem', all, d, n, k) && SourceUsed(used0, mem', d, k) {
      TableStands(used0, mem, made, d, n, k, i, more, pde);
    }
  }

  lemma KeptTaken(used0: seq<bool>, mem0: Memory, used1: seq<bool>, mem: Memory, made: map<nat, Owner>,
                  used: seq<bool>, more: map<nat, Owner>, n: nat, i: nat, pde: Word)
    requires Kept(used0, mem0, mem) && Taken(used0, used1, made) && Taken(used1, used, more) && n < FRAMES && !used0[n]
               && i < WORDS
    ensures Kept(used0, mem0, Poke(mem, n, i, pde)) && Taken(used0, used, made + more)
  {}

  lemma TableHung(used0: seq<bool>, used1: seq<bool>, used: seq<bool>, mem: Memory, made: map<nat, Owner>,
                  more: map<nat, Owner>, n: nat, i: nat, pde: Word)
    requires Shape(mem) && n < FRAMES && KERNEL_PDES <= i < WORDS && DirMade(mem, made, n, i)
    requires Taken(used0, used1, made) && Taken(used1, used, more)
    requires Present(pde) && FrameOf(pde) < FRAMES && TableMade(mem, more, n, i, FrameOf(pde), WORDS)
    ensures DirMade(Poke(mem, n, i, pde), made + more, n, i + 1)
  {
    var mem', all := Poke(mem, n, i, pde), made + more;
    hide Referenced, TableMade;
    forall f | f in made ensures Referenced(mem', all, f) {
      OldStands(used0, used1, used, mem, made, more, n, i, pde, f);
    }
    forall f | f in more ensures Referenced(mem', all, f) && (more[f].Table? ==> f == FrameOf(pde)) && !more[f].Dir? {
      NewStands(used0, used1, used, mem, made, more, n, i, pde, f);
    }
    MadeParts(mem, more, n, i, FrameOf(pde));
  }

  lemma MadeParts(mem: Memory, more: map<nat, Owner>, n: nat, i: nat, t: nat)
    requires Shape(mem) && t < FRAMES && TableMade(mem, more, n, i, t, WORDS)
    ensures t in more && more[t] == Table(n, i)
  {}

  lemma OldStands(used0: seq<bool>, used1: seq<bool>, used: seq<bool>, mem: Memory, made: map<nat, Owner>,
                  more: map<nat, Owner>, n: nat, i: nat, pde: Word, f: nat)
    requires Shape(mem) && n < FRAMES && i < WORDS && DirMade(mem, made, n, i) && f in made
    requires Taken(used0, used1, made) && Taken(used1, used, more)
    ensures Referenced(Poke(mem, n, i, pde), made + more, f)
  {
    assert Referenced(mem, made, f);
  }

  lemma NewStands(used0: seq<bool>, used1: seq<bool>, used: seq<bool>, mem: Memory, made: map<nat, Owner>,
                  more: map<nat, Owner>, n: nat, i: nat, pde: Word, f: nat)
    requires Shape(mem) && n < FRAMES && KERNEL_PDES <= i < WORDS && n in made && made[n] == Dir && f in more
    requires Taken(used0, used1, made) && Taken(used1, used, more)
    requires Present(pde) && FrameOf(pde) < FRAMES && TableMade(mem, more, n, i, FrameOf(pde), WORDS)
    ensures Referenced(Poke(mem, n, i, pde), made + more, f) && (more[f].Table? ==> f == FrameOf(pde)) && !more[f].Dir?
  {
    assert n !in more && used1[n];
  }

  lemma TableStands(used0: seq<bool>, mem: Memory, made: map<nat, Owner>, d: nat, n: nat, k: nat, i: nat,
                    more: map<nat, Owner>, pde: Word)
    requires Shape(mem) && |used0| == FRAMES && d < FRAMES && n < FRAMES && n != d && used0[d] && !used0[n]
    requires k <= i < WORDS && FrameOf(pde) < FRAMES && KERNEL_PDES <= i
    requires forall f :: f in made ==> f !in more
    requires n in made && made[n].Dir?
    requires SourceUsed(used0, mem, d, k)
    requires k < i ==> TableCopied(mem, made, d, n, k)
    requires k == i ==>
               && Present(mem[d][i]) && Present(pde) && FlagsOf(pde) == FlagsOf(mem[d][i])
               && FrameOf(pde) in more && more[FrameOf(pde)] == Table(n, i)
               && forall j :: 0 <= j < WORDS ==> LeafCopied(mem, more, FrameOf(mem[d][i]), FrameOf(pde), j)
    ensures TableCopied(Poke(mem, n, i, pde), made + more, d, n, k)
    ensures SourceUsed(used0, Poke(mem, n, i, pde), d, k)
  {
    var mem' := Poke(mem, n, i, pde);
    var c := if k < i then mem[n][k] else pde;
    if k >= KERNEL_PDES && Present(mem[d][k]) {
      var p, t := FrameOf(mem[d][k]), FrameOf(c);
      forall j | 0 <= j < WORDS ensures LeafCopied(mem', made + more, p, t, j) {
        assert LeafCopied(mem, if k < i then made else more, p, t, j);
      }
    }
  }

  lemma CopyAbsentTable(used0: seq<bool>, mem0: Memory, used: seq<bool>, mem: Memory, made: map<nat, Owner>, d: nat,
                        n: nat, i: nat)
    requires HalfDir(used0, mem0, used, mem, made, d, n, i) && KERNEL_PDES <= i < WORDS && !Present(mem[d][i])
    ensures HalfDir(used0, mem0, used, Poke(mem, n, i, mem[d][i]), made, d, n, i + 1)
  {
    var mem' := Poke(mem, n, i, mem[d][i]);
    forall f | f in made ensures Referenced(mem', made, f) {
      assert Referenced(mem, made, f);
    }
    hide Referenced;
    forall k | 0 <= k < i ensures TableCopied(mem', made, d, n, k) && SourceUsed(used0, mem', d, k) {
      EntryStands(used0, mem, made, d, n, k, i);
    }
  }

  lemma EntryStands(used0: seq<bool>, mem: Memory, made: map<nat, Owner>, d: nat, n: nat, k: nat, i: nat)
    requires Shape(mem) && |used0| == FRAMES && d < FRAMES && n < FRAMES && n != d && used0[d] && !used0[n] && n in made
               && made[n].Dir?
    requires k < i < WORDS && TableCopied(mem, made, d, n, k) && SourceUsed(used0, mem, d, k)
    ensures TableCopied(Poke(mem, n, i, mem[d][i]), made, d, n, k)
              && SourceUsed(used0, Poke(mem, n, i, mem[d][i]), d, k)
  {
    var mem' := Poke(mem, n, i, mem[d][i]);
    if k >= KERNEL_PDES && Present(mem[d][k]) {
      forall j | 0 <= j < WORDS ensures LeafCopied(mem', made, FrameOf(mem[d][k]), FrameOf(mem[n][k]), j) {
        assert LeafCopied(mem, made, FrameOf(mem[d][k]), FrameOf(mem[n][k]), j);
      }
    }
  }

  /** The directory entry a copied frame hangs below (0 for the directory itself). */
  ghost function EntryOf(made: map<nat, Owner>, f: nat): nat
    requires f in made
  {
    match made[f]
    case Dir => 0
    case Table(_, k) => k
    case Leaf(t, _) => if t in made && made[t].Table? then made[t].pde else 0
  }

  /** The frames below entry `i` are its table and the pages of that table. */
  lemma EntriesAt(mem: Memory, made: map<nat, Owner>, n: nat, hi: nat, i: nat)
    requires Shape(mem) && n < FRAMES && hi <= WORDS && i <= hi && DirMade(mem, made, n, hi)
    ensures forall f :: f in made && f != n ==> KERNEL_PDES <= EntryOf(made, f) < hi
    ensures i < hi ==> forall f :: f in made && f != n && EntryOf(made, f) == i ==>
              && Present(mem[n][i]) && FrameOf(mem[n][i]) in made
              && (f == FrameOf(mem[n][i]) || (made[f].Leaf? && made[f].table == FrameOf(mem[n][i])))
  {
    forall f | f in made && f != n
      ensures KERNEL_PDES <= EntryOf(made, f) < hi
      ensures i < hi && EntryOf(made, f) == i ==>
                && Present(mem[n][i]) && FrameOf(mem[n][i]) in made
                && (f == FrameOf(mem[n][i]) || (made[f].Leaf? && made[f].table == FrameOf(mem[n][i])))
    {
      assert Referenced(mem, made, f);
      if made[f].Leaf? {
        assert Referenced(mem, made, made[f].table);
      }
    }
  }

  /** A copied table's live entries and its frames in `made` are the same thing. */
  lemma MadeTable(mem: Memory, made: map<nat, Owner>, d: nat, n: nat, hi: nat, i: nat)
    requires Shape(mem) && d < FRAMES && n < FRAMES && KERNEL_PDES <= i < hi <= WORDS && DirMade(mem, made, n, hi)
    requires TableCopied(mem, made, d, n, i) && Present(mem[n][i])
    ensures FrameOf(mem[n][i]) < FRAMES && FrameOf(mem[n][i]) in made && made[FrameOf(mem[n][i])] == Table(n, i)
    ensures forall j :: 0 <= j < WORDS && Present(mem[FrameOf(mem[n][i])][j]) ==>
              FrameOf(mem[FrameOf(mem[n][i])][j]) in made
              && made[FrameOf(mem[FrameOf(mem[n][i])][j])] == Leaf(FrameOf(mem[n][i]), j)
    ensures forall f :: f in made && made[f].Leaf? && made[f].table == FrameOf(mem[n][i]) ==>
              made[f].pte < WORDS && Present(mem[FrameOf(mem[n][i])][made[f].pte])
              && FrameOf(mem[FrameOf(mem[n][i])][made[f].pte]) == f
  {
    var t := FrameOf(mem[n][i]);
    forall j | 0 <= j < WORDS && Present(mem[t][j])
      ensures FrameOf(mem[t][j]) in made && made[FrameOf(mem[t][j])] == Leaf(t, j)
    {
      assert LeafCopied(mem, made, FrameOf(mem[d][i]), t, j);
    }
    forall f | f in made && made[f].Leaf? && made[f].table == t
      ensures made[f].pte < WORDS && Present(mem[t][made[f].pte]) && FrameOf(mem[t][made[f].pte]) == f
    {
      assert Referenced(mem, made, f);
    }
  }

  /** The finished copy: the new directory joins the others as a space equal to its parent's,
      and every other space is as before. */
  lemma CloneDone(used0: seq<bool>, mem0: Memory, own: map<nat, Owner>, kernel: seq<Word>,
                  used: seq<bool>, mem: Memory, made: map<nat, Owner>, d: nat, n: nat)
    requires Inv(used0, mem0, own, kernel) && d in own && own[d].Dir?
    requires Taken(used0, used, made) && Kept(used0, mem0, mem)
    requires n < FRAMES && DirMade(mem, made, n, WORDS)
    requires forall k :: 0 <= k < WORDS ==> TableCopied(mem, made, d, n, k)
    ensures Inv(used, mem, own + made, kernel)
    ensures Spaces(mem, own + made) == Spaces(mem0, own)[n := SpaceOf(mem0, d)]
    ensures n !in own && forall f :: 0 <= f < FRAMES ==> (used[f] <==> used0[f] || f in own + made)
    ensures forall f :: f in own + made && f !in own ==> !used0[f]
    ensures forall f :: f in own ==> (own + made)[f] == own[f]
  {
    CloneInv(used0, mem0, own, kernel, used, mem, made, d, n);
    CloneSpace(used0, mem0, own, kernel, mem, made, d, n);
    hide TableCopied, Closed, Referenced, SpaceOf, Mapped, PageAt;
    OthersStay(used0, mem0, own, kernel, mem);
    SpacesPlus(mem0, own, mem, own + made, n, SpaceOf(mem0, d));
  }

  lemma SpacesPlus(mem0: Memory, own: map<nat, Owner>, mem: Memory, all: map<nat, Owner>, n: nat, s: Space)
    requires Shape(mem0) && Shape(mem) && (forall f :: f in own ==> f < FRAMES) && (forall f :: f in all ==> f < FRAMES)
    requires forall e :: e in all && all[e].Dir? <==> e == n || (e in own && own[e].Dir?)
    requires n < FRAMES && SpaceOf(mem, n) == s
    requires forall e :: e in own && own[e].Dir? ==> SpaceOf(mem, e) == SpaceOf(mem0, e)
    ensures Spaces(mem, all) == Spaces(mem0, own)[n := s]
  {
    hide SpaceOf;
  }

  lemma OthersStay(used0: seq<bool>, mem0: Memory, own: map<nat, Owner>, kernel: seq<Word>, mem: Memory)
    requires Inv(used0, mem0, own, kernel) && Kept(used0, mem0, mem)
    ensures forall e :: e in own && own[e].Dir? ==> SpaceOf(mem, e) == SpaceOf(mem0, e)
  {
    forall e | e in own && own[e].Dir? ensures SpaceOf(mem, e) == SpaceOf(mem0, e) {
      forall v | UserPage(v) ensures SamePage(mem0, mem, e, v) {
        Walk(used0, mem0, own, kernel, e, v);
      }
      SpaceByPages(mem0, mem, e);
    }
  }

  lemma CloneSpace(used0: seq<bool>, mem0: Memory, own: map<nat, Owner>, kernel: seq<Word>,
                   mem: Memory, made: map<nat, Owner>, d: nat, n: nat)
    requires Inv(used0, mem0, own, kernel) && d in own && own[d].Dir?
    requires Kept(used0, mem0, mem) && n < FRAMES
    requires forall k :: 0 <= k < WORDS ==> TableCopied(mem, made, d, n, k)
    ensures SpaceOf(mem, n) == SpaceOf(mem0, d)
  {
    forall v: nat | UserPage(v)
      ensures Mapped(mem, n, v) == Mapped(mem0, d, v)
      ensures Mapped(mem0, d, v) ==> PageAt(mem, n, v) == PageAt(mem0, d, v)
    {
      Walk(used0, mem0, own, kernel, d, v);
      assert TableCopied(mem, made, d, n, v / 1024);
      if Present(mem0[d][v / 1024]) {
        assert LeafCopied(mem, made, FrameOf(mem[d][v / 1024]), FrameOf(mem[n][v / 1024]), v % 1024);
      }
    }
  }

  lemma CloneInv(used0: seq<bool>, mem0: Memory, own: map<nat, Owner>, kernel: seq<Word>,
                 used: seq<bool>, mem: Memory, made: map<nat, Owner>, d: nat, n: nat)
    requires Inv(used0, mem0, own, kernel) && d in own && own[d].Dir?
    requires Taken(used0, used, made) && Kept(used0, mem0, mem)
    requires n < FRAMES && DirMade(mem, made, n, WORDS)
    requires forall k :: 0 <= k < WORDS ==> TableCopied(mem, made, d, n, k)
    ensures Inv(used, mem, own + made, kernel)
  {
    var all := own + made;
    forall f | f in all ensures Referenced(mem, all, f) {
      if f in made {
        assert Referenced(mem, made, f);
      } else {
        assert Referenced(mem0, own, f);
      }
    }
    forall f | f in all ensures Closed(mem, all, f) {
      if f in made {
        MadeClosed(used0, mem0, own, kernel, mem, made, d, n, f);
      } else {
        assert Closed(mem0, own, f);
      }
    }
    forall k | 0 <= k < KERNEL_PDES ensures mem[n][k] == mem[d][k] {
      assert TableCopied(mem, made, d, n, k);
    }
    assert mem[n][..KERNEL_PDES] == mem[d][..KERNEL_PDES];
  }

  lemma MadeClosed(used0: seq<bool>, mem0: Memory, own: map<nat, Owner>, kernel: seq<Word>,
                   mem: Memory, made: map<nat, Owner>, d: nat, n: nat, f: nat)
    requires Inv(used0, mem0, own, kernel) && d in own && own[d].Dir?
    requires Kept(used0, mem0, mem) && n < FRAMES && DirMade(mem, made, n, WORDS)
    requires forall k :: 0 <= k < WORDS ==> TableCopied(mem, made, d, n, k)
    requires f in made && f !in own
    ensures Closed(mem, own + made, f)
  {
    if made[f].Dir? {
      forall k | KERNEL_PDES <= k < WORDS && Present(mem[n][k])
        ensures FrameOf(mem[n][k]) in made && made[FrameOf(mem[n][k])] == Table(n, k)
      {
        assert TableCopied(mem, made, d, n, k);
      }
    } else if made[f].Table? {
      var k := made[f].pde;
      assert Referenced(mem, made, f);
      assert TableCopied(mem, made, d, n, k);
      var p := FrameOf(mem[d][k]);
      forall j | 0 <= j < WORDS && Present(mem[f][j])
        ensures FrameOf(mem[f][j]) in made && made[FrameOf(mem[f][j])] == Leaf(f, j)
      {
        assert LeafCopied(mem, made, p, f, j);
      }
    }
  }

  /** A rolled-back copy leaves every address space as it was. */
  lemma CloneUndone(used: seq<bool>, mem0: Memory, own: map<nat, Owner>, kernel: seq<Word>, mem: Memory)
    requires Inv(used, mem0, own, kernel) && Kept(used, mem0, mem)
    ensures Inv(used, mem, own, kernel) && Spaces(mem, own) == Spaces(mem0, own)
  {
    forall f | f in own ensures Referenced(mem, own, f) && Closed(mem, own, f) {
      assert Referenced(mem0, own, f) && Closed(mem0, own, f);
    }
    SameSpaces(mem0, mem, own, kernel, used);
  }

  /** The parent's frames below entry `k` are allocated, so the copy leaves them alone. */
  lemma SourceOk(used: seq<bool>, mem0: Memory, own: map<nat, Owner>, kernel: seq<Word>, mem: Memory, d: nat, k: nat)
    requires Inv(used, mem0, own, kernel) && Kept(used, mem0, mem) && d in own && own[d].Dir?
               && KERNEL_PDES <= k < WORDS
    ensures mem[d] == mem0[d] && SourceUsed(used, mem, d, k)
    ensures Present(mem[d][k]) ==> mem[FrameOf(mem[d][k])] == mem0[FrameOf(mem[d][k])]
  {
    assert Closed(mem0, own, d);
    if Present(mem0[d][k]) {
      assert Closed(mem0, own, FrameOf(mem0[d][k]));
    }
  }

  // ------------------------------------------------------------------ cost

  /** How many frames are free. */
  ghost function FreeFrames(used: seq<bool>): nat {
    if used == [] then 0 else (if used[|used| - 1] then 0 else 1) + FreeFrames(used[..|used| - 1])
  }

  lemma {:induction false} FreeAfterTake(used: seq<bool>, f: nat)
    requires f < |used| && !used[f]
    ensures FreeFrames(used) == FreeFrames(used[f := true]) + 1
  {
    var last := |used| - 1;
    if f < last {
      assert used[f := true][..last] == used[..last][f := true];
      FreeAfterTake(used[..last], f);
    } else {
      assert used[f := true][..last] == used[..last];
    }
  }

  lemma TakeAndFree(used: seq<bool>, f: nat)
    requires f < |used| && !used[f]
    ensures used[f := true][f := false] == used
  {}

  lemma {:induction false} NoneFree(used: seq<bool>)
    requires forall f :: 0 <= f < |used| ==> used[f]
    ensures FreeFrames(used) == 0
  {
    if used != [] {
      NoneFree(used[..|used| - 1]);
    }
  }

  /** Present entries among the first `hi` words of a table. */
  ghost function PresentBelow(table: seq<Word>, hi: nat): nat
    requires hi <= |table|
  {
    if hi == 0 then 0 else PresentBelow(table, hi - 1) + if Present(table[hi - 1]) then 1 else 0
  }

  /** Frames needed to copy user entry `k` of directory `d`: its table and its pages. */
  ghost function EntryCost(mem: Memory, d: nat, k: nat): nat
    requires Shape(mem) && d < FRAMES && k < WORDS
  {
    if k >= KERNEL_PDES && Present(mem[d][k]) && FrameOf(mem[d][k]) < FRAMES
    then 1 + PresentBelow(mem[FrameOf(mem[d][k])], WORDS) else 0
  }

  /** Frames needed to copy directory `d` and everything below its entries under `hi`. */
  ghost function CloneCost(mem: Memory, d: nat, hi: nat): nat
    requires Shape(mem) && d < FRAMES && hi <= WORDS
  {
    if hi == 0 then 1 else CloneCost(mem, d, hi - 1) + EntryCost(mem, d, hi - 1)
  }

  lemma {:induction false} CostGrows(mem: Memory, d: nat, lo: nat, hi: nat)
    requires Shape(mem) && d < FRAMES && lo <= hi <= WORDS
    ensures CloneCost(mem, d, lo) <= CloneCost(mem, d, hi)
    decreases hi - lo
  {
    if lo < hi {
      CostGrows(mem, d, lo, hi - 1);
    }
  }

  lemma CostStep(mem: Memory, d: nat, i: nat)
    requires Shape(mem) && d < FRAMES && i < WORDS
    ensures CloneCost(mem, d, i + 1) == CloneCost(mem, d, i) + EntryCost(mem, d, i) <= CloneCost(mem, d, WORDS)
  {
    CostGrows(mem, d, i + 1, WORDS);
  }

  lemma {:induction false} PresentGrows(table: seq<Word>, lo: nat, hi: nat)
    requires lo <= hi <= |table|
    ensures PresentBelow(table, lo) <= PresentBelow(table, hi)
    decreases hi - lo
  {
    if lo < hi {
      PresentGrows(table, lo, hi - 1);
    }
  }

  /** The kernel entries cost nothing: they are shared. */
  lemma KernelShared(mem: Memory, d: nat)
    requires Shape(mem) && d < FRAMES
    ensures CloneCost(mem, d, KERNEL_PDES) == 1
  {
    assert CloneCost(mem, d, 0) == CloneCost(mem, d, 1) == CloneCost(mem, d, 2) == CloneCost(mem, d, 3) == 1;
  }
}
