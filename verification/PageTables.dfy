/** Two-level page tables that live in the same physical frames they map
    (32-bit paging, section 4.3 of the Intel SDM Volume 3A).

    Physical memory is 4096 frames of 1024 words.  A present entry has its low bit
    set; its frame number is the word divided by 4096, its flags the remainder.
    `own` records, for every frame that an address space uses, the single place
    that refers to it.  The lemmas say what each kind of memory update does to the
    ownership invariant and to the address spaces as a user sees them.
 */
module PageTables {
  import Division

  const FRAMES: nat := 4096        // identity-mapped frames (16 MB)
  const WORDS: nat := 1024         // words in a frame, entries in a table
  const KERNEL_PDES: nat := 4      // directory entries shared with the kernel

  type Word = nat
  type Memory = seq<seq<Word>>

  /** The place that refers to a frame: a directory belongs to a task, a table to a
      directory entry, a page to a table entry. */
  datatype Owner = Dir | Table(dir: nat, pde: nat) | Leaf(table: nat, pte: nat)

  /** A user page as seen through an address space. */
  datatype Page = Page(flags: nat, words: seq<Word>)

  /** Virtual page number to page. */
  type Space = map<nat, Page>

  predicate Present(w: Word) { w % 2 == 1 }

  function FrameOf(w: Word): nat { w / 4096 }

  function FlagsOf(w: Word): nat { w % 4096 }

  function Entry(f: nat, flags: nat): Word
    requires flags < 4096
  {
    f * 4096 + flags
  }

  /** Memory after word `k` of frame `f` has been set to `w`. */
  function Poke(mem: Memory, f: nat, k: nat, w: Word): Memory
    requires f < |mem| && k < |mem[f]|
  {
    var ws: seq<Word> := mem[f][k := w];
    mem[f := ws]
  }

  /** A frame of zeros. */
  function ZeroPage(): (ws: seq<Word>)
    ensures |ws| == WORDS && forall k :: 0 <= k < WORDS ==> ws[k] == 0
  {
    seq(WORDS, _ => 0)
  }

  function SetWord(ws: seq<Word>, k: nat, x: Word): seq<Word> {
    if k < |ws| then ws[k := x] else ws
  }

  predicate Shape(mem: Memory) {
    |mem| == FRAMES && forall f :: 0 <= f < FRAMES ==> |mem[f]| == WORDS
  }

  /** Every owned frame is allocated, and is referred to from the place recorded for it. */
  ghost predicate Referenced(mem: Memory, own: map<nat, Owner>, f: nat)
    requires Shape(mem) && f in own
  {
    match own[f]
    case Dir => true
    case Table(d, i) =>
      d < FRAMES && d in own && own[d].Dir? && KERNEL_PDES <= i < WORDS && Present(mem[d][i]) && FrameOf(mem[d][i]) == f
    case Leaf(t, j) =>
      t < FRAMES && t in own && own[t].Table? && j < WORDS && Present(mem[t][j]) && FrameOf(mem[t][j]) == f
  }

  /** Every live user entry of frame `f` is the recorded owner of the frame it names. */
  ghost predicate Closed(mem: Memory, own: map<nat, Owner>, f: nat)
    requires Shape(mem) && f in own && f < FRAMES
  {
    match own[f]
    case Dir => forall i :: KERNEL_PDES <= i < WORDS && Present(mem[f][i]) ==>
                  FrameOf(mem[f][i]) in own && own[FrameOf(mem[f][i])] == Table(f, i)
    case Table(_, _) => forall j :: 0 <= j < WORDS && Present(mem[f][j]) ==>
                  FrameOf(mem[f][j]) in own && own[FrameOf(mem[f][j])] == Leaf(f, j)
    case Leaf(_, _) => true
  }

  /** Since `own` is a function from frames to places, the invariant says that each
      directory, table and page frame is referred to from exactly one place. */
  ghost predicate Inv(used: seq<bool>, mem: Memory, own: map<nat, Owner>, kernel: seq<Word>) {
    && Shape(mem)
    && |used| == FRAMES && used[0]
    && |kernel| == KERNEL_PDES
    && (forall f :: f in own ==> 0 < f < FRAMES && used[f])
    && (forall f :: f in own ==> Referenced(mem, own, f))
    && (forall f :: f in own ==> Closed(mem, own, f))
    && (forall d :: d in own && own[d].Dir? ==> mem[d][..KERNEL_PDES] == kernel)
  }

  /** A frame is allocated exactly if it was set aside at boot or some place refers to it: nothing leaks. */
  ghost predicate Accounted(used: seq<bool>, own: map<nat, Owner>, reserved: set<nat>) {
    && (forall f :: f in own ==> f !in reserved)
    && forall f :: 0 <= f < |used| ==> (used[f] <==> f in reserved || f in own)
  }

  ghost predicate Extends(own0: map<nat, Owner>, own: map<nat, Owner>) {
    forall f :: f in own0 ==> f in own && own[f] == own0[f]
  }

  /** Exactly the frames newly referred to have been taken, and they were free. */
  ghost predicate Grown(used0: seq<bool>, own0: map<nat, Owner>, used: seq<bool>, own: map<nat, Owner>) {
    && Extends(own0, own) && |used| == |used0|
    && (forall f :: f in own && f !in own0 ==> f < |used0| && !used0[f])
    && (forall f :: 0 <= f < |used0| ==> (used[f] <==> used0[f] || (f in own && f !in own0)))
  }

  lemma GrownAccounted(used0: seq<bool>, own0: map<nat, Owner>, used: seq<bool>, own: map<nat, Owner>,
                       reserved: set<nat>)
    requires Accounted(used0, own0, reserved) && Grown(used0, own0, used, own)
    ensures Accounted(used, own, reserved)
  {
    forall f | f in own ensures f !in reserved {
      if f !in own0 {
        assert !used0[f];
      }
    }
  }

  lemma ShrunkAccounted(used: seq<bool>, own: map<nat, Owner>, reserved: set<nat>, f: nat)
    requires Accounted(used, own, reserved) && f in own && f < |used|
    ensures Accounted(used[f := false], own - {f}, reserved)
  {}

  // ------------------------------------------------------------------ views

  predicate Mapped(mem: Memory, d: nat, v: nat)
    requires Shape(mem) && d < FRAMES && v < WORDS * WORDS
  {
    && Present(mem[d][v / 1024])
    && FrameOf(mem[d][v / 1024]) < FRAMES
    && Present(mem[FrameOf(mem[d][v / 1024])][v % 1024])
    && FrameOf(mem[FrameOf(mem[d][v / 1024])][v % 1024]) < FRAMES
  }

  function PteAt(mem: Memory, d: nat, v: nat): Word
    requires Shape(mem) && d < FRAMES && v < WORDS * WORDS && Mapped(mem, d, v)
  {
    mem[FrameOf(mem[d][v / 1024])][v % 1024]
  }

  function PageAt(mem: Memory, d: nat, v: nat): Page
    requires Shape(mem) && d < FRAMES && v < WORDS * WORDS && Mapped(mem, d, v)
  {
    Page(FlagsOf(PteAt(mem, d, v)), mem[FrameOf(PteAt(mem, d, v))])
  }

  /** A user page number: at or above 16 MB. */
  predicate UserPage(v: int) { 4096 <= v < 1048576 }

  ghost function SpaceOf(mem: Memory, d: nat): Space
    requires Shape(mem) && d < FRAMES
  {
    map v: nat | 4096 <= v < 1048576 && Mapped(mem, d, v) :: PageAt(mem, d, v)
  }

  /** All address spaces: one independent map per directory. */
  ghost function Spaces(mem: Memory, own: map<nat, Owner>): map<nat, Space>
    requires Shape(mem) && forall f :: f in own ==> f < FRAMES
  {
    map d | d in own && own[d].Dir? :: SpaceOf(mem, d)
  }

  /** The address spaces after page `v` of space `d` has become `p`. */
  function WithPage(spaces: map<nat, Space>, d: nat, v: nat, p: Page): map<nat, Space>
    requires d in spaces
  {
    var space: Space := spaces[d][v := p];
    spaces[d := space]
  }

  /** The address spaces after page `v` of space `d` has been removed. */
  function WithoutPage(spaces: map<nat, Space>, d: nat, v: nat): map<nat, Space>
    requires d in spaces
  {
    spaces[d := spaces[d] - {v}]
  }

  /** Frame `f` is the one recorded for page `v` of directory `d`. */
  ghost predicate Holds(own: map<nat, Owner>, f: nat, d: nat, v: nat) {
    && f in own && own[f].Leaf? && own[f].pte == v % 1024
    && own[f].table in own && own[own[f].table] == Table(d, v / 1024)
  }

  /** The frames that hold user pages. */
  ghost function LeafFrames(own: map<nat, Owner>): set<nat> {
    set f | f in own && own[f].Leaf?
  }

  // ------------------------------------------------------------------ words

  lemma EntryParts(f: nat, flags: nat)
    requires flags < 4096
    ensures FrameOf(Entry(f, flags)) == f && FlagsOf(Entry(f, flags)) == flags
    ensures Present(Entry(f, flags)) == Present(flags) == (flags % 2 == 1)
  {
    Division.DivMod(4096, f, flags);
    Division.DivModBack(2, flags);
    Division.DivMod(2, f * 2048 + flags / 2, flags % 2);
    assert f * 4096 + flags == (f * 2048 + flags / 2) * 2 + flags % 2;
  }

  /** The present bit is one of the flags. */
  lemma PresentByFlags(w: Word)
    ensures Present(w) == Present(FlagsOf(w))
  {
    Division.DivModBack(4096, w);
    EntryParts(w / 4096, w % 4096);
  }

  // ------------------------------------------------------------------ one update at a time

  /** Zeroing a frame that nobody owns changes nothing an address space can see. */
  lemma WriteUnowned(used: seq<bool>, mem: Memory, own: map<nat, Owner>, kernel: seq<Word>, f: nat, ws: seq<Word>)
    requires Inv(used, mem, own, kernel) && f < FRAMES && f !in own && |ws| == WORDS
    ensures Inv(used, mem[f := ws], own, kernel)
    ensures Spaces(mem[f := ws], own) == Spaces(mem, own)
  {
    var mem' := mem[f := ws];
    forall g | g in own ensures Referenced(mem', own, g) && Closed(mem', own, g) {
      assert Referenced(mem, own, g) && Closed(mem, own, g);
    }
    SameSpaces(mem, mem', own, kernel, used);
  }

  /** Address spaces depend only on the contents of owned frames. */
  lemma SameSpaces(mem: Memory, mem': Memory, own: map<nat, Owner>, kernel: seq<Word>, used: seq<bool>)
    requires Inv(used, mem, own, kernel) && Shape(mem')
    requires forall f :: f in own ==> mem'[f] == mem[f]
    ensures Spaces(mem', own) == Spaces(mem, own)
  {
    forall d | d in own && own[d].Dir? ensures SpaceOf(mem', d) == SpaceOf(mem, d) {
      forall v | UserPage(v) ensures SamePage(mem, mem', d, v) {
        Walk(used, mem, own, kernel, d, v);
      }
      SpaceByPages(mem, mem', d);
    }
  }

  /** Following a user page number goes through owned frames only. */
  lemma Walk(used: seq<bool>, mem: Memory, own: map<nat, Owner>, kernel: seq<Word>, d: nat, v: nat)
    requires Inv(used, mem, own, kernel) && d in own && own[d].Dir? && UserPage(v)
    ensures Present(mem[d][v / 1024]) ==>
              var t := FrameOf(mem[d][v / 1024]);
              && t in own && own[t] == Table(d, v / 1024)
              && (Present(mem[t][v % 1024]) ==>
                    FrameOf(mem[t][v % 1024]) in own && own[FrameOf(mem[t][v % 1024])] == Leaf(t, v % 1024))
  {
    assert Closed(mem, own, d);
    if Present(mem[d][v / 1024]) {
      assert Closed(mem, own, FrameOf(mem[d][v / 1024]));
    }
  }

  /** What page `v` of directory `d` looks like. */
  ghost predicate SamePage(mem: Memory, mem': Memory, d: nat, v: nat)
    requires Shape(mem) && Shape(mem') && d < FRAMES && UserPage(v)
  {
    && Mapped(mem', d, v) == Mapped(mem, d, v)
    && (Mapped(mem, d, v) ==> PageAt(mem', d, v) == PageAt(mem, d, v))
  }

  lemma SpaceByPages(mem: Memory, mem': Memory, d: nat)
    requires Shape(mem) && Shape(mem') && d < FRAMES
    requires forall v :: UserPage(v) ==> SamePage(mem, mem', d, v)
    ensures SpaceOf(mem', d) == SpaceOf(mem, d)
  {
    forall v: nat | UserPage(v)
      ensures Mapped(mem', d, v) == Mapped(mem, d, v)
      ensures Mapped(mem, d, v) ==> PageAt(mem', d, v) == PageAt(mem, d, v)
    {
      assert SamePage(mem, mem', d, v);
    }
  }

  /** If only page `v` of space `d` changes, the address spaces change by one map update. */
  lemma OnePage(mem: Memory, mem': Memory, own: map<nat, Owner>, own': map<nat, Owner>, d: nat, v: nat)
    requires Shape(mem) && Shape(mem')
    requires forall f :: f in own ==> f < FRAMES
    requires forall f :: f in own' ==> f < FRAMES
    requires forall f :: f in own && own[f].Dir? <==> f in own' && own'[f].Dir?
    requires d in own && own[d].Dir? && UserPage(v)
    requires forall e, u :: e in own && own[e].Dir? && UserPage(u) && (e != d || u != v) ==> SamePage(mem, mem', e, u)
    ensures Spaces(mem', own') ==
              Spaces(mem, own)[d := if Mapped(mem', d, v) then SpaceOf(mem, d)[v := PageAt(mem', d, v)]
                                    else SpaceOf(mem, d) - {v}]
  {
    hide SpaceOf, Mapped, PageAt, SamePage;
    forall e | e in own && own[e].Dir? && e != d ensures SpaceOf(mem', e) == SpaceOf(mem, e) {
      SpaceByPages(mem, mem', e);
    }
    OneSpace(mem, mem', d, v);
  }

  lemma OneSpace(mem: Memory, mem': Memory, d: nat, v: nat)
    requires Shape(mem) && Shape(mem') && d < FRAMES && UserPage(v)
    requires forall u :: UserPage(u) && u != v ==> SamePage(mem, mem', d, u)
    ensures SpaceOf(mem', d) == if Mapped(mem', d, v) then SpaceOf(mem, d)[v := PageAt(mem', d, v)]
              else SpaceOf(mem, d) - {v}
  {
    forall u: nat | UserPage(u) && u != v
      ensures Mapped(mem', d, u) == Mapped(mem, d, u)
      ensures Mapped(mem, d, u) ==> PageAt(mem', d, u) == PageAt(mem, d, u)
    {
      assert SamePage(mem, mem', d, u);
    }
    hide Mapped, PageAt;
  }

  /** Hanging a zeroed table on an absent directory entry maps nothing. */
  lemma InstallTable(used: seq<bool>, mem: Memory, own: map<nat, Owner>, kernel: seq<Word>, d: nat, i: nat, f: nat)
    requires Inv(used, mem, own, kernel) && d in own && own[d].Dir? && KERNEL_PDES <= i < WORDS
    requires !Present(mem[d][i])
    requires 0 < f < FRAMES && used[f] && f !in own && (forall j :: 0 <= j < WORDS ==> mem[f][j] == 0)
    ensures var mem' := Poke(mem, d, i, Entry(f, 7));
            && Inv(used, mem', own[f := Table(d, i)], kernel)
            && Spaces(mem', own[f := Table(d, i)]) == Spaces(mem, own)
  {
    EntryParts(f, 7);
    var mem' := Poke(mem, d, i, Entry(f, 7));
    var own' := own[f := Table(d, i)];
    forall g | g in own' ensures Referenced(mem', own', g) && Closed(mem', own', g) {
      if g in own {
        assert Referenced(mem, own, g) && Closed(mem, own, g);
      }
    }
    TableSpaces(used, mem, own, kernel, d, i, f);
  }

  lemma TableSpaces(used: seq<bool>, mem: Memory, own: map<nat, Owner>, kernel: seq<Word>, d: nat, i: nat, f: nat)
    requires Inv(used, mem, own, kernel) && d in own && own[d].Dir? && KERNEL_PDES <= i < WORDS
    requires !Present(mem[d][i])
    requires 0 < f < FRAMES && used[f] && f !in own && (forall j :: 0 <= j < WORDS ==> mem[f][j] == 0)
    ensures Spaces(Poke(mem, d, i, Entry(f, 7)), own[f := Table(d, i)]) == Spaces(mem, own)
  {
    EntryParts(f, 7);
    var mem' := Poke(mem, d, i, Entry(f, 7));
    forall e, v | e in own && own[e].Dir? && UserPage(v) ensures SamePage(mem, mem', e, v) {
      Walk(used, mem, own, kernel, e, v);
    }
    hide SamePage, Mapped;
    forall e | e in own && own[e].Dir? ensures SpaceOf(mem', e) == SpaceOf(mem, e) {
      SpaceByPages(mem, mem', e);
    }
  }

  /** Writing one entry of a table can only change the page that entry maps. */
  lemma PokeTable(used: seq<bool>, mem: Memory, own: map<nat, Owner>, kernel: seq<Word>, d: nat, v: nat, t: nat,
                  w: Word)
    requires Inv(used, mem, own, kernel) && d in own && own[d].Dir? && UserPage(v)
    requires t in own && own[t] == Table(d, v / 1024)
    ensures forall e, u :: e in own && own[e].Dir? && UserPage(u) && (e != d || u != v) ==>
              SamePage(mem, Poke(mem, t, v % 1024, w), e, u)
  {
    var mem' := Poke(mem, t, v % 1024, w);
    forall e, u | e in own && own[e].Dir? && UserPage(u) && (e != d || u != v) ensures SamePage(mem, mem', e, u) {
      Walk(used, mem, own, kernel, e, u);
    }
  }

  /** Hanging a page on an absent table entry adds exactly that page to exactly that space. */
  lemma InstallLeaf(used: seq<bool>, mem: Memory, own: map<nat, Owner>, kernel: seq<Word>,
                    d: nat, v: nat, t: nat, f: nat, flags: nat)
    requires Inv(used, mem, own, kernel) && d in own && own[d].Dir? && UserPage(v)
    requires Present(mem[d][v / 1024]) && FrameOf(mem[d][v / 1024]) == t
    requires t in own && own[t] == Table(d, v / 1024)
    requires !Present(mem[t][v % 1024])
    requires 0 < f < FRAMES && used[f] && f !in own
    requires flags < 4096 && Present(flags)
    ensures var mem' := Poke(mem, t, v % 1024, Entry(f, flags));
            var own' := own[f := Leaf(t, v % 1024)];
            && Inv(used, mem', own', kernel)
            && Spaces(mem', own') == Spaces(mem, own)[d := SpaceOf(mem, d)[v := Page(flags, mem[f])]]
  {
    EntryParts(f, flags);
    var mem' := Poke(mem, t, v % 1024, Entry(f, flags));
    var own' := own[f := Leaf(t, v % 1024)];
    LeafInv(used, mem, own, kernel, d, v, t, f, flags);
    PokeTable(used, mem, own, kernel, d, v, t, Entry(f, flags));
    hide Referenced, Closed;
    OnePage(mem, mem', own, own', d, v);
  }

  lemma LeafInv(used: seq<bool>, mem: Memory, own: map<nat, Owner>, kernel: seq<Word>, d: nat, v: nat, t: nat, f: nat,
                flags: nat)
    requires Inv(used, mem, own, kernel) && UserPage(v)
    requires t in own && own[t] == Table(d, v / 1024) && !Present(mem[t][v % 1024])
    requires 0 < f < FRAMES && used[f] && f !in own && flags < 4096 && Present(flags)
    ensures Inv(used, Poke(mem, t, v % 1024, Entry(f, flags)), own[f := Leaf(t, v % 1024)], kernel)
  {
    EntryParts(f, flags);
    hide Entry;
    var mem' := Poke(mem, t, v % 1024, Entry(f, flags));
    var own' := own[f := Leaf(t, v % 1024)];
    forall g | g in own' ensures Referenced(mem', own', g) && Closed(mem', own', g) {
      if g in own {
        assert Referenced(mem, own, g) && Closed(mem, own, g);
      }
    }
  }

  /** Clearing a table entry and freeing its frame removes exactly that page. */
  lemma RemoveLeaf(used: seq<bool>, mem: Memory, own: map<nat, Owner>, kernel: seq<Word>, d: nat, v: nat, t: nat,
                   f: nat)
    requires Inv(used, mem, own, kernel) && d in own && own[d].Dir? && UserPage(v)
    requires Present(mem[d][v / 1024]) && FrameOf(mem[d][v / 1024]) == t
    requires t in own && own[t] == Table(d, v / 1024)
    requires Present(mem[t][v % 1024]) && FrameOf(mem[t][v % 1024]) == f && f in own && own[f] == Leaf(t, v % 1024)
    ensures var mem' := Poke(mem, t, v % 1024, 0);
            && Inv(used[f := false], mem', own - {f}, kernel)
            && Spaces(mem', own - {f}) == Spaces(mem, own)[d := SpaceOf(mem, d) - {v}]
  {
    var mem' := Poke(mem, t, v % 1024, 0);
    RemoveInv(used, mem, own, kernel, d, v, t, f);
    PokeTable(used, mem, own, kernel, d, v, t, 0);
    hide Referenced, Closed;
    OnePage(mem, mem', own, own - {f}, d, v);
  }

  lemma RemoveInv(used: seq<bool>, mem: Memory, own: map<nat, Owner>, kernel: seq<Word>, d: nat, v: nat, t: nat, f: nat)
    requires Inv(used, mem, own, kernel) && UserPage(v)
    requires t in own && own[t] == Table(d, v / 1024)
    requires Present(mem[t][v % 1024]) && FrameOf(mem[t][v % 1024]) == f && f in own && own[f] == Leaf(t, v % 1024)
    ensures Inv(used[f := false], Poke(mem, t, v % 1024, 0), own - {f}, kernel)
  {
    var mem' := Poke(mem, t, v % 1024, 0);
    var own' := own - {f};
    forall g | g in own' ensures Referenced(mem', own', g) {
      assert Referenced(mem, own, g);
    }
    forall g | g in own' ensures Closed(mem', own', g) {
      assert Closed(mem, own, g);
    }
  }

  /** Rewriting the flags of a page changes that page's flags and nothing else. */
  lemma SetFlags(used: seq<bool>, mem: Memory, own: map<nat, Owner>, kernel: seq<Word>,
                 d: nat, v: nat, t: nat, f: nat, flags: nat)
    requires Inv(used, mem, own, kernel) && d in own && own[d].Dir? && UserPage(v)
    requires Present(mem[d][v / 1024]) && FrameOf(mem[d][v / 1024]) == t
    requires t in own && own[t] == Table(d, v / 1024)
    requires Present(mem[t][v % 1024]) && FrameOf(mem[t][v % 1024]) == f && f in own && own[f] == Leaf(t, v % 1024)
    requires flags < 4096 && Present(flags)
    ensures var mem' := Poke(mem, t, v % 1024, Entry(f, flags));
            && Inv(used, mem', own, kernel)
            && Spaces(mem', own) == Spaces(mem, own)[d := SpaceOf(mem, d)[v := Page(flags, mem[f])]]
  {
    EntryParts(f, flags);
    var mem' := Poke(mem, t, v % 1024, Entry(f, flags));
    forall g | g in own ensures Referenced(mem', own, g) && Closed(mem', own, g) {
      assert Referenced(mem, own, g) && Closed(mem, own, g);
    }
    PokeTable(used, mem, own, kernel, d, v, t, Entry(f, flags));
    OnePage(mem, mem', own, own, d, v);
  }

  /** A store through one address space is seen at that page of that space only. */
  lemma StoreWord(used: seq<bool>, mem: Memory, own: map<nat, Owner>, kernel: seq<Word>,
                  d: nat, v: nat, t: nat, f: nat, k: nat, x: Word)
    requires Inv(used, mem, own, kernel) && d in own && own[d].Dir? && UserPage(v) && k < WORDS
    requires Present(mem[d][v / 1024]) && FrameOf(mem[d][v / 1024]) == t
    requires t in own && own[t] == Table(d, v / 1024)
    requires Present(mem[t][v % 1024]) && FrameOf(mem[t][v % 1024]) == f && f in own && own[f] == Leaf(t, v % 1024)
    ensures var mem' := Poke(mem, f, k, x);
            && Inv(used, mem', own, kernel)
            && Spaces(mem', own) ==
                 Spaces(mem, own)[d := SpaceOf(mem, d)[v := Page(FlagsOf(mem[t][v % 1024]), mem[f][k := x])]]
  {
    var mem' := Poke(mem, f, k, x);
    forall g | g in own ensures Referenced(mem', own, g) && Closed(mem', own, g) {
      assert Referenced(mem, own, g) && Closed(mem, own, g);
    }
    forall e, u | e in own && own[e].Dir? && UserPage(u) && (e != d || u != v) ensures SamePage(mem, mem', e, u) {
      Walk(used, mem, own, kernel, e, u);
    }
    OnePage(mem, mem', own, own, d, v);
  }

  /** A frame that is not allocated is no directory, table or page, and no live user entry of any directory or
      table names it. */
  lemma FreeFrameUnmapped(used: seq<bool>, mem: Memory, own: map<nat, Owner>, kernel: seq<Word>, f: nat)
    requires Inv(used, mem, own, kernel) && f < FRAMES && !used[f]
    ensures f !in own
    ensures forall d, i :: d in own && own[d].Dir? && KERNEL_PDES <= i < WORDS && Present(mem[d][i]) ==>
              FrameOf(mem[d][i]) != f
    ensures forall t, j :: t in own && own[t].Table? && 0 <= j < WORDS && Present(mem[t][j]) ==> FrameOf(mem[t][j]) != f
    ensures forall d, v :: d in own && own[d].Dir? && UserPage(v) && Mapped(mem, d, v) ==>
              FrameOf(PteAt(mem, d, v)) != f
  {
    forall d, v | d in own && own[d].Dir? && UserPage(v) && Mapped(mem, d, v) ensures FrameOf(PteAt(mem, d, v)) != f {
      Walk(used, mem, own, kernel, d, v);
    }
    forall g | g in own ensures Closed(mem, own, g) {}
  }

  /** No two user pages, of one space or of two, share a frame. */
  lemma FramesUnshared(used: seq<bool>, mem: Memory, own: map<nat, Owner>, kernel: seq<Word>, d: nat, v: nat, e: nat,
                       u: nat)
    requires Inv(used, mem, own, kernel)
    requires d in own && own[d].Dir? && UserPage(v) && Mapped(mem, d, v)
    requires e in own && own[e].Dir? && UserPage(u) && Mapped(mem, e, u)
    ensures FrameOf(PteAt(mem, d, v)) == FrameOf(PteAt(mem, e, u)) <==> d == e && v == u
  {
    Walk(used, mem, own, kernel, d, v);
    Walk(used, mem, own, kernel, e, u);
  }

  /** A page is in a space exactly when both levels of the walk are present. */
  lemma InSpace(used: seq<bool>, mem: Memory, own: map<nat, Owner>, kernel: seq<Word>, d: nat, v: nat)
    requires Inv(used, mem, own, kernel) && d in own && own[d].Dir? && UserPage(v)
    ensures d in Spaces(mem, own)
    ensures Present(mem[d][v / 1024]) ==> FrameOf(mem[d][v / 1024]) < FRAMES
    ensures v in Spaces(mem, own)[d] <==>
              Present(mem[d][v / 1024]) && Present(mem[FrameOf(mem[d][v / 1024])][v % 1024])
    ensures v in Spaces(mem, own)[d] ==> Mapped(mem, d, v) && Spaces(mem, own)[d][v] == PageAt(mem, d, v)
  {
    Walk(used, mem, own, kernel, d, v);
  }

  /** A directory whose user entries are all absent is an empty address space. */
  lemma AddDir(used: seq<bool>, mem: Memory, own: map<nat, Owner>, kernel: seq<Word>, n: nat)
    requires Inv(used, mem, own, kernel) && 0 < n < FRAMES && used[n] && n !in own
    requires mem[n] == kernel + ZeroPage()[KERNEL_PDES..]
    ensures Inv(used, mem, own[n := Dir], kernel)
    ensures Spaces(mem, own[n := Dir]) == Spaces(mem, own)[n := map[]]
  {
    var own' := own[n := Dir];
    assert forall i :: KERNEL_PDES <= i < WORDS ==> mem[n][i] == 0;
    assert mem[n][..KERNEL_PDES] == kernel;
    forall g | g in own' ensures Referenced(mem, own', g) && Closed(mem, own', g) {
      if g in own {
        assert Referenced(mem, own, g) && Closed(mem, own, g);
      }
    }
    forall v: nat | UserPage(v) ensures !Mapped(mem, n, v) {}
    assert SpaceOf(mem, n) == map[];
  }

  lemma LeafGone(own: map<nat, Owner>, f: nat)
    requires f in own && own[f].Leaf?
    ensures LeafFrames(own - {f}) == LeafFrames(own) - {f}
  {}

  /** A page has at most one frame. */
  lemma HeldOnce(used: seq<bool>, mem: Memory, own: map<nat, Owner>, kernel: seq<Word>, f: nat, g: nat, d: nat, v: nat)
    requires Inv(used, mem, own, kernel) && Holds(own, f, d, v) && Holds(own, g, d, v)
    ensures f == g
  {
    assert Referenced(mem, own, f) && Referenced(mem, own, own[f].table);
    assert Referenced(mem, own, g) && Referenced(mem, own, own[g].table);
  }
}
