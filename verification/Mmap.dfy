/** mmap2, munmap and mprotect: a task's recorded areas over its address space. */
module Mmap {
  import Division
  import opened PageTables
  import opened DirectoryClone
  import opened PhysicalMemory
  import opened VmAreas

  const USER_BASE: nat := 0x1000000    // 16 MB

  /** The pages `v` up to `v + n` of a space are all `p`. */
  ghost function Range(space: Space, v: nat, n: nat, p: Page): (r: Space)
    ensures forall u :: u in r <==> u in space || v <= u < v + n
    ensures forall u :: u in r ==> r[u] == if v <= u < v + n then p else space[u]
  {
    if n == 0 then space else Range(space, v, n - 1, p)[v + n - 1 := p]
  }

  lemma RangeTail(space: Space, v: nat, n: nat, p: Page)
    requires n > 0 && v !in space
    ensures Range(space, v, n, p) - {v} == Range(space, v + 1, n - 1, p)
  {}

  /** Page flags for a protection: present and user, plus writable for PROT_WRITE. */
  function PageFlags(prot: nat): (f: nat)
    ensures f < 8 && (Present(f) <==> prot != 0)
    ensures (f / 2 % 2 == 1 <==> prot / 2 % 2 == 1) && (f / 4 == 1 <==> prot != 0)
  {
    if prot == 0 then 0 else 5 + if prot / 2 % 2 == 1 then 2 else 0
  }

  /** An area is page aligned, not empty, above the kernel, and all its pages are mapped. */
  ghost predicate AreaMapped(a: VmArea, space: Space) {
    && a.start % 4096 == 0 && a.end % 4096 == 0 && USER_BASE <= a.start < a.end < TWO32
    && forall u :: a.start / 4096 <= u < a.end / 4096 ==> u in space
  }

  ghost predicate Recorded(areas: seq<VmArea>, space: Space) {
    Disjoint(areas) && forall i :: 0 <= i < |areas| ==> AreaMapped(areas[i], space)
  }

  /** Frames added for pages `v`, `v + 1`, ...: what ownership gained over `own0`, with the
      first `j` of them already given back. */
  ghost predicate Gained(own0: map<nat, Owner>, own: map<nat, Owner>, fs: seq<nat>, d: nat, v: nat, j: nat) {
    && j <= |fs| && Extends(own0, own) && (forall f :: f in own && own[f].Dir? ==> f in own0)
    && (forall k :: j <= k < |fs| ==> Holds(own, fs[k], d, v + k))
    && LeafFrames(own) == LeafFrames(own0) + (set k | j <= k < |fs| :: fs[k])
    && (forall k :: j <= k < |fs| ==> fs[k] !in LeafFrames(own0))
  }

  lemma GainOne(own0: map<nat, Owner>, own1: map<nat, Owner>, own: map<nat, Owner>, fs: seq<nat>, d: nat, v: nat,
                f: nat)
    requires Gained(own0, own1, fs, d, v, 0)
    requires Extends(own1, own) && forall g :: g in own && own[g].Dir? ==> g in own1
    requires Holds(own, f, d, v + |fs|) && f !in LeafFrames(own1) && LeafFrames(own) == LeafFrames(own1) + {f}
    ensures Gained(own0, own, fs + [f], d, v, 0)
  {
    var fs' := fs + [f];
    forall k | 0 <= k < |fs'| ensures Holds(own, fs'[k], d, v + k) && fs'[k] !in LeafFrames(own0) {
      if k < |fs| {
        assert Holds(own1, fs[k], d, v + k);
      }
    }
    assert fs'[|fs|] == f;
    forall g ensures g in LeafFrames(own) <==> g in LeafFrames(own0) + (set k | 0 <= k < |fs'| :: fs'[k]) {
      if g in (set k | 0 <= k < |fs| :: fs[k]) {
        var k :| 0 <= k < |fs| && fs[k] == g;
        assert fs'[k] == g;
      }
    }
  }

  lemma GiveBackOne(own0: map<nat, Owner>, own1: map<nat, Owner>, own: map<nat, Owner>, fs: seq<nat>, d: nat, v: nat,
                    j: nat)
    requires j < |fs| && Gained(own0, own1, fs, d, v, j)
    requires own == own1 - {fs[j]} && LeafFrames(own) == LeafFrames(own1) - {fs[j]}
    ensures Gained(own0, own, fs, d, v, j + 1)
  {
    forall k | j + 1 <= k < |fs| ensures fs[k] != fs[j] && Holds(own, fs[k], d, v + k) {
      assert Holds(own1, fs[k], d, v + k) && Holds(own1, fs[j], d, v + j);
    }
    forall g ensures g in LeafFrames(own) <==> g in LeafFrames(own0) + (set k | j + 1 <= k < |fs| :: fs[k]) {
    }
  }

  /** Pages `v` to `v + i` of space `d`, absent from `view0`, are now `p`; nothing else differs. */
  ghost predicate Mapping(d: nat, view0: map<nat, Space>, own0: map<nat, Owner>, view: map<nat, Space>,
                          own: map<nat, Owner>, fs: seq<nat>, v: nat, i: nat, p: Page)
  {
    && d in view0 && |fs| == i
    && view == view0[d := Range(view0[d], v, i, p)]
    && (forall u :: v <= u < v + i ==> u !in view0[d])
    && Gained(own0, own, fs, d, v, 0)
  }

  lemma MappingStart(d: nat, used: seq<bool>, mem: Memory, own: map<nat, Owner>, kernel: seq<Word>, v: nat, p: Page)
    requires Inv(used, mem, own, kernel) && d in own && own[d].Dir?
    ensures Mapping(d, Spaces(mem, own), own, Spaces(mem, own), own, [], v, 0, p)
  {
    var none: seq<nat> := [];
    assert (set k | 0 <= k < |none| :: none[k]) == {};
  }

  lemma MappingOne(d: nat, view0: map<nat, Space>, own0: map<nat, Owner>, view1: map<nat, Space>, own1: map<nat, Owner>,
                   own: map<nat, Owner>, fs: seq<nat>, v: nat, i: nat, p: Page, f: nat)
    requires Mapping(d, view0, own0, view1, own1, fs, v, i, p) && v + i !in view1[d]
    requires Extends(own1, own) && forall g :: g in own && own[g].Dir? ==> g in own1
    requires Holds(own, f, d, v + i) && f !in LeafFrames(own1) && LeafFrames(own) == LeafFrames(own1) + {f}
    ensures Mapping(d, view0, own0, WithPage(view1, d, v + i, p), own, fs + [f], v, i + 1, p)
  {
    GainOne(own0, own1, own, fs, d, v, f);
    assert Range(view0[d], v, i + 1, p) == Range(view0[d], v, i, p)[v + i := p];
  }

  /** As `Mapping`, with the first `j` pages already taken out again. */
  ghost predicate Unmapping(d: nat, view0: map<nat, Space>, own0: map<nat, Owner>, view: map<nat, Space>,
                            own: map<nat, Owner>, fs: seq<nat>, v: nat, i: nat, j: nat, p: Page)
  {
    && d in view0 && |fs| == i && j <= i
    && view == view0[d := Range(view0[d], v + j, i - j, p)]
    && (forall u :: v <= u < v + i ==> u !in view0[d])
    && Gained(own0, own, fs, d, v, j)
  }

  lemma UnmappingOne(d: nat, view0: map<nat, Space>, own0: map<nat, Owner>, view1: map<nat, Space>,
                     own1: map<nat, Owner>, own: map<nat, Owner>, fs: seq<nat>, v: nat, i: nat, j: nat, p: Page)
    requires j < i && Unmapping(d, view0, own0, view1, own1, fs, v, i, j, p)
    requires own == own1 - {fs[j]} && LeafFrames(own) == LeafFrames(own1) - {fs[j]}
    ensures Unmapping(d, view0, own0, WithoutPage(view1, d, v + j), own, fs, v, i, j + 1, p)
  {
    hide Gained, Range, LeafFrames;
    GiveBackOne(own0, own1, own, fs, d, v, j);
    RangeTail(view0[d], v + j, i - j, p);
  }

  lemma UnmappedAll(d: nat, view0: map<nat, Space>, own0: map<nat, Owner>, view: map<nat, Space>, own: map<nat, Owner>,
                    fs: seq<nat>, v: nat, i: nat, p: Page)
    requires Unmapping(d, view0, own0, view, own, fs, v, i, i, p)
    ensures view == view0 && TablesOnly(own0, own)
  {
    assert (set k | i <= k < |fs| :: fs[k]) == {};
    forall f | f in own && f !in own0 ensures own[f].Table? {
      assert f in LeafFrames(own) <==> own[f].Leaf?;
    }
  }

  /** No more than page tables is new. */
  ghost predicate TablesOnly(own0: map<nat, Owner>, own: map<nat, Owner>) {
    Extends(own0, own) && forall f :: f in own && f !in own0 ==> own[f].Table?
  }

  /** Balanced bitmaps differ exactly by what ownership gained. */
  lemma TablesTaken(used0: seq<bool>, own0: map<nat, Owner>, used: seq<bool>, own: map<nat, Owner>, reserved: set<nat>)
    requires Accounted(used0, own0, reserved) && Accounted(used, own, reserved) && |used| == |used0| == FRAMES
               && TablesOnly(own0, own)
    requires forall f :: f in own ==> f < FRAMES
    ensures Grown(used0, own0, used, own)
  {}

  lemma NothingTaken(used: seq<bool>, own: map<nat, Owner>)
    ensures TablesOnly(own, own) && Grown(used, own, used, own)
  {}

  lemma TakenByTables(used0: seq<bool>, mem0: Memory, own0: map<nat, Owner>, used: seq<bool>, mem: Memory,
                      own: map<nat, Owner>, kernel: seq<Word>, reserved: set<nat>)
    requires Inv(used0, mem0, own0, kernel) && Inv(used, mem, own, kernel) && TablesOnly(own0, own)
    requires Accounted(used0, own0, reserved) && Accounted(used, own, reserved)
    ensures Grown(used0, own0, used, own)
  {
    TablesTaken(used0, own0, used, own, reserved);
  }

  // ------------------------------------------------------------------ frames for tables

  /** 1 if page `v + i` is the first of the range under a table that is not there. */
  function LastLacks(dir: seq<Word>, v: nat, i: nat): nat {
    var j := (v + i) / 1024;
    if j < |dir| && !Present(dir[j]) && (i == 0 || (v + i - 1) / 1024 != j) then 1 else 0
  }

  /** How many tables the pages from `v` to `v + n` lack. */
  function Lacking(dir: seq<Word>, v: nat, n: nat): nat {
    if n == 0 then 0 else Lacking(dir, v, n - 1) + LastLacks(dir, v, n - 1)
  }

  /** All of the pages can be mapped. */
  ghost predicate Mappable(space: Space, free: nat, dir: seq<Word>, v: nat, n: nat) {
    (forall u :: v <= u < v + n ==> u !in space) && free >= n + Lacking(dir, v, n)
  }

  /** The first `i` of `n` pages can be mapped, and no more. */
  ghost predicate Longest(space: Space, free: nat, dir: seq<Word>, v: nat, n: nat, i: nat) {
    i <= n && Mappable(space, free, dir, v, i) && (i < n ==> !Mappable(space, free, dir, v, i + 1))
  }

  /** The directory entries from `lo` up to `hi` that have no table. */
  ghost function Missing(dir: seq<Word>, lo: nat, hi: nat): (r: set<nat>)
    ensures forall j :: j in r ==> lo <= j < hi && j < |dir|
    ensures forall j :: lo <= j < hi && j < |dir| ==> (j in r <==> dir[j] % 2 == 0)
  {
    set j: nat | lo <= j < hi && j < |dir| && !Present(dir[j])
  }

  lemma MissingOne(dir: seq<Word>, lo: nat, hi: nat)
    requires lo <= hi
    ensures |Missing(dir, lo, hi + 1)| == |Missing(dir, lo, hi)| + if hi < |dir| && !Present(dir[hi]) then 1 else 0
  {
    if hi < |dir| && !Present(dir[hi]) {
      assert Missing(dir, lo, hi + 1) == Missing(dir, lo, hi) + {hi};
    } else {
      assert Missing(dir, lo, hi + 1) == Missing(dir, lo, hi);
    }
  }

  /** The pages lack as many tables as entries from the first page's to the last page's have none. */
  lemma {:induction false} LackingCount(dir: seq<Word>, v: nat, n: nat)
    requires n > 0
    ensures Lacking(dir, v, n) == |Missing(dir, v / 1024, (v + n - 1) / 1024 + 1)|
  {
    hide Missing;
    var lo, b := v / 1024, (v + n - 1) / 1024;
    if n == 1 {
      MissingOne(dir, lo, lo);
      MissingNone(dir, lo);
      assert Lacking(dir, v, 0) == 0;
    } else {
      LackingCount(dir, v, n - 1);
      var a := (v + n - 2) / 1024;
      assert lo <= a <= b <= a + 1;
      if b == a + 1 {
        MissingOne(dir, lo, b);
      }
    }
  }

  lemma MissingNone(dir: seq<Word>, lo: nat)
    ensures Missing(dir, lo, lo) == {}
  {}

  /** Pages can be mapped exactly if none is there and there are frames for them and for the tables that are missing. */
  lemma MappableIff(space: Space, free: nat, dir: seq<Word>, v: nat, n: nat)
    requires n > 0
    ensures Mappable(space, free, dir, v, n) <==>
              && (forall u :: v <= u < v + n ==> u !in space)
              && free >= n + |Missing(dir, v / 1024, (v + n - 1) / 1024 + 1)|
  {
    LackingCount(dir, v, n);
  }

  lemma LackingGrows(dir: seq<Word>, v: nat, n: nat, n': nat)
    requires n <= n'
    ensures Lacking(dir, v, n) <= Lacking(dir, v, n')
  {}

  /** The tables there are once `i` pages from `v` on have been mapped. */
  ghost predicate Tabled(dir0: seq<Word>, dir: seq<Word>, v: nat, i: nat) {
    && |dir| == |dir0|
    && forall j :: 0 <= j < |dir0| ==>
         (Present(dir[j]) <==> Present(dir0[j]) || (i > 0 && v / 1024 <= j <= (v + i - 1) / 1024))
  }

  lemma NothingLacks(dir: seq<Word>, v: nat)
    ensures Tabled(dir, dir, v, 0) && Lacking(dir, v, 0) == 0
  {}

  lemma TabledNext(dir0: seq<Word>, dir: seq<Word>, v: nat, i: nat)
    requires Tabled(dir0, dir, v, i) && (v + i) / 1024 < |dir0|
    ensures LastLacks(dir0, v, i) == if Present(dir[(v + i) / 1024]) then 0 else 1
  {}

  lemma TabledOne(dir0: seq<Word>, dir: seq<Word>, dir': seq<Word>, v: nat, i: nat)
    requires Tabled(dir0, dir, v, i) && TablesFor(dir, dir', (v + i) / 1024)
    ensures Tabled(dir0, dir', v, i + 1)
  {}

  lemma StillAbsent(view0: map<nat, Space>, d: nat, v: nat, i: nat, p: Page)
    requires d in view0
    ensures v + i in Range(view0[d], v, i, p) <==> v + i in view0[d]
  {}

  lemma NoneThere(d: nat, view0: map<nat, Space>, own0: map<nat, Owner>, view: map<nat, Space>, own: map<nat, Owner>,
                  fs: seq<nat>, v: nat, i: nat, p: Page)
    requires Mapping(d, view0, own0, view, own, fs, v, i, p)
    ensures d in view0 && view == view0[d := Range(view0[d], v, i, p)] && forall u :: v <= u < v + i ==> u !in view0[d]
  {}

  /** The space without its pages from `lo` up to `hi`. */
  ghost function Without(space: Space, lo: nat, hi: nat): (r: Space)
    ensures forall u :: u in space && (u < lo || hi <= u) ==> u in r && r[u] == space[u]
    ensures forall u :: u in r ==> u in space && (u < lo || hi <= u)
  {
    map u | u in space && !(lo <= u < hi) :: space[u]
  }

  /** The space with flags `f` on its pages from `lo` up to `hi`. */
  ghost function Reflag(space: Space, lo: nat, hi: nat, f: nat): (r: Space)
    ensures r.Keys == space.Keys && forall u :: u in space ==> r[u].words == space[u].words
    ensures forall u :: u in space ==> r[u].flags == if lo <= u < hi then f else space[u].flags
  {
    map u | u in space :: if lo <= u < hi then space[u].(flags := f) else space[u]
  }

  lemma WithoutNone(view: map<nat, Space>, d: nat, lo: nat)
    requires d in view
    ensures view[d := Without(view[d], lo, lo)] == view
  {
    assert Without(view[d], lo, lo) == view[d];
  }

  lemma WithoutOne(view: map<nat, Space>, d: nat, lo: nat, u: nat)
    requires d in view && lo <= u
    ensures WithoutPage(view[d := Without(view[d], lo, u)], d, u) == view[d := Without(view[d], lo, u + 1)]
  {
    assert Without(view[d], lo, u) - {u} == Without(view[d], lo, u + 1);
  }

  lemma ReflagNone(view: map<nat, Space>, d: nat, lo: nat, f: nat)
    requires d in view
    ensures view[d := Reflag(view[d], lo, lo, f)] == view
  {
    assert Reflag(view[d], lo, lo, f) == view[d];
  }

  lemma ReflagOne(view: map<nat, Space>, d: nat, lo: nat, u: nat, f: nat)
    requires d in view && lo <= u
    ensures var now := view[d := Reflag(view[d], lo, u, f)];
            (if u in now[d] then WithPage(now, d, u, now[d][u].(flags := f)) else now) ==
            view[d := Reflag(view[d], lo, u + 1, f)]
  {
    var now := Reflag(view[d], lo, u, f);
    assert (if u in now then now[u := now[u].(flags := f)] else now) == Reflag(view[d], lo, u + 1, f);
  }

  lemma MyDir(used: seq<bool>, mem: Memory, own: map<nat, Owner>, kernel: seq<Word>, d: nat)
    requires Inv(used, mem, own, kernel) && d in own && own[d].Dir?
    ensures d in Spaces(mem, own)
  {}

  /** The areas that survive a removal are still disjoint and fully mapped. */
  lemma RemoveRecorded(areas: seq<VmArea>, space: Space, left: seq<VmArea>, kept: seq<nat>, va: nat, end: nat)
    requires Recorded(areas, space) && va % 4096 == 0 && end % 4096 == 0 && va <= end
    requires Survivors(areas, left, kept, va, end)
    ensures Recorded(left, Without(space, va / 4096, end / 4096))
  {
    RemoveKeepsDisjoint(areas, left, kept, va, end);
    forall k | 0 <= k < |left| ensures AreaMapped(left[k], Without(space, va / 4096, end / 4096)) {
      assert AreaMapped(areas[kept[k]], space);
    }
  }

  lemma ReflagRecorded(areas: seq<VmArea>, space: Space, now: seq<VmArea>, lo: nat, hi: nat, f: nat)
    requires Recorded(areas, space) && |now| == |areas|
    requires forall i :: 0 <= i < |areas| ==> now[i].start == areas[i].start && now[i].end == areas[i].end
    ensures Recorded(now, Reflag(space, lo, hi, f))
  {
    forall k | 0 <= k < |now| ensures AreaMapped(now[k], Reflag(space, lo, hi, f)) {
      assert AreaMapped(areas[k], space);
    }
  }

  predicate Anonymous(flags: nat) { flags / 32 % 2 == 1 }

  predicate Fixed(flags: nat) { flags / 16 % 2 == 1 }

  /** MAP_FIXED is bit 4 and MAP_ANONYMOUS is bit 5 of the flags. */
  lemma FlagBits(low: nat, fixed: bool, anonymous: bool, high: nat)
    requires low < 16
    ensures var flags := low + (if fixed then 16 else 0) + (if anonymous then 32 else 0) + 64 * high;
            (Fixed(flags) <==> fixed) && (Anonymous(flags) <==> anonymous)
  {
    var f, a := if fixed then 1 else 0, if anonymous then 1 else 0;
    var flags := low + 16 * f + 32 * a + 64 * high;
    Division.DivMod(16, f + 2 * (a + 2 * high), low);
    Division.DivMod(32, a + 2 * high, low + 16 * f);
    Division.DivMod(2, a + 2 * high, f);
    Division.DivMod(2, high, a);
  }

  /** A length rounded up to whole pages, in 32-bit arithmetic. */
  function RoundUp(length: nat): (r: nat)
    ensures r % 4096 == 0 && r < TWO32
    ensures length + 4095 < TWO32 ==> length <= r < length + 4096
    ensures TWO32 - 4096 < length < TWO32 ==> r == 0
  {
    (length + 4095) % TWO32 / 4096 * 4096
  }

  /** Recording a freshly mapped range keeps the areas disjoint and fully mapped. */
  lemma AddRecorded(areas: seq<VmArea>, space: Space, a: VmArea, p: Page)
    requires Recorded(areas, space)
    requires a.start % 4096 == 0 && a.end % 4096 == 0 && USER_BASE <= a.start < a.end
               && Fits(areas, a.start, a.end - a.start)
    ensures Recorded(areas + [a], Range(space, a.start / 4096, (a.end - a.start) / 4096, p))
  {
    var space' := Range(space, a.start / 4096, (a.end - a.start) / 4096, p);
    forall i | 0 <= i < |areas| ensures AreaMapped(areas[i], space') {
      assert AreaMapped(areas[i], space);
    }
    assert AreaMapped(a, space');
    AddKeepsDisjoint(areas, a);
  }

  lemma LeavesUsed(used: seq<bool>, mem: Memory, own: map<nat, Owner>, kernel: seq<Word>)
    requires Inv(used, mem, own, kernel)
    ensures forall f :: f in LeafFrames(own) ==> f < FRAMES && used[f]
  {}

  /** `va` is where a mapping of `len` bytes would go. */
  ghost predicate Chosen(areas: seq<VmArea>, va: nat, addr: nat, len: nat, flags: nat) {
    && Fits(areas, va, len)
    && (Fixed(flags) ==> va == addr / 4096 * 4096)
    && (!Fixed(flags) ==> MMAP_BASE <= va && forall c :: MMAP_BASE <= c < va ==> !Fits(areas, c, len))
  }

  /** How far a call gets: `i` pages from `at` on, none if it asks for none or there is no place for them. */
  ghost predicate Attempted(areas: seq<VmArea>, space: Space, free: nat, dir: seq<Word>,
                            addr: nat, len: nat, flags: nat, at: nat, i: nat)
  {
    if len != 0 && Anonymous(flags) && exists va: nat :: Chosen(areas, va, addr, len, flags)
    then Chosen(areas, at, addr, len, flags) && Longest(space, free, dir, at / 4096, len / 4096, i)
    else at == i == 0
  }

  /** What a successful mmap2 returning `va` does to the space and the areas. */
  ghost predicate Mmapped(space0: Space, areas0: seq<VmArea>, va: nat, addr: nat, len: nat, prot: nat, flags: nat,
                          space: Space, areas: seq<VmArea>)
  {
    && len != 0 && Anonymous(flags) && va % 4096 == 0
    && Chosen(areas0, va, addr, len, flags)
    && (forall u :: va / 4096 <= u < va / 4096 + len / 4096 ==> u !in space0)
    && space == Range(space0, va / 4096, len / 4096, Page(PageFlags(prot), ZeroPage()))
    && areas == areas0 + [VmArea(va, va + len, prot, flags)]
  }

  /** The page of an address. */
  function PageOf(x: nat): (u: nat)
    ensures u * 4096 <= x < u * 4096 + 4096
  {
    x / 4096
  }

  /** Every byte asked for is in a page that is new, zeroed and has the flags asked for, and lies in the recorded area,
      which is less than a page longer; pages that were there are as they were, and no page past the last byte is
      new. */
  lemma MmappedBytes(space0: Space, areas0: seq<VmArea>, va: nat, addr: nat, length: nat, prot: nat, flags: nat,
                     space: Space, areas: seq<VmArea>)
    requires Mmapped(space0, areas0, va, addr, RoundUp(length), prot, flags, space, areas) && length < TWO32
    ensures 0 < length && va % 4096 == 0 && length + 4095 < TWO32
    ensures forall x :: va <= x < va + length ==>
              && PageOf(x) !in space0 && PageOf(x) in space
              && space[PageOf(x)] == Page(PageFlags(prot), ZeroPage())
    ensures forall u :: u in space0 ==> u in space && space[u] == space0[u]
    ensures forall u :: u in space && u !in space0 ==> va <= u * 4096 < va + length
    ensures |areas| == |areas0| + 1 && areas[..|areas0|] == areas0
    ensures var a := areas[|areas0|];
            a.start == va && va + length <= a.end < va + length + 4096 && a.prot == prot && a.flags == flags
  {
    hide Chosen, Range, ZeroPage;
    var len := RoundUp(length);
    hide RoundUp;
    forall x | va <= x < va + length ensures va / 4096 <= PageOf(x) < va / 4096 + len / 4096 {}
  }

  /** When a call can succeed: there is a place for it, fixed or the lowest, none of the pages is there, and there are
      frames for them and for the tables that are missing. */
  lemma SuccessIff(areas: seq<VmArea>, space: Space, free: nat, dir: seq<Word>, addr: nat, len: nat, flags: nat,
                   va: nat)
    requires len >= 4096
    ensures Chosen(areas, va, addr, len, flags) && Mappable(space, free, dir, va / 4096, len / 4096) <==>
              && Fits(areas, va, len)
              && (if Fixed(flags) then va == addr / 4096 * 4096
                  else MMAP_BASE <= va && forall c :: MMAP_BASE <= c < va ==> !Fits(areas, c, len))
              && (forall u :: va / 4096 <= u < va / 4096 + len / 4096 ==> u !in space)
              && free >= len / 4096 + |Missing(dir, va / 4096 / 1024, (va / 4096 + len / 4096 - 1) / 1024 + 1)|
  {
    hide Fits, Mappable, Missing;
    MappableIff(space, free, dir, va / 4096, len / 4096);
  }

  lemma SuccessWhere(areas: seq<VmArea>, space: Space, free: nat, dir: seq<Word>, addr: nat, len: nat, flags: nat)
    ensures len >= 4096 ==>
            ((exists va: nat ::
                Chosen(areas, va, addr, len, flags) && Mappable(space, free, dir, va / 4096, len / 4096)) <==>
             exists va: nat ::
               && Fits(areas, va, len)
               && (if Fixed(flags) then va == addr / 4096 * 4096
                   else MMAP_BASE <= va && forall c :: MMAP_BASE <= c < va ==> !Fits(areas, c, len))
               && (forall u :: va / 4096 <= u < va / 4096 + len / 4096 ==> u !in space)
               && free >= len / 4096 + |Missing(dir, va / 4096 / 1024, (va / 4096 + len / 4096 - 1) / 1024 + 1)|)
  {
    hide Fits, Mappable, Missing, Fixed, Chosen;
    if len >= 4096 {
      if va: nat :| Chosen(areas, va, addr, len, flags) && Mappable(space, free, dir, va / 4096, len / 4096) {
        SuccessIff(areas, space, free, dir, addr, len, flags, va);
      } else {
        forall va: nat
          ensures !(&& Fits(areas, va, len)
                    && (if Fixed(flags) then va == addr / 4096 * 4096
                        else MMAP_BASE <= va && forall c :: MMAP_BASE <= c < va ==> !Fits(areas, c, len))
                    && (forall u :: va / 4096 <= u < va / 4096 + len / 4096 ==> u !in space)
                    && free >= len / 4096
                               + |Missing(dir, va / 4096 / 1024, (va / 4096 + len / 4096 - 1) / 1024 + 1)|)
        {
          SuccessIff(areas, space, free, dir, addr, len, flags, va);
        }
      }
    }
  }

  lemma RoundedUp(length: nat)
    requires length < TWO32
    ensures RoundUp(length) != 0 <==> 0 < length && length + 4095 < TWO32
    ensures RoundUp(length) != 0 ==> RoundUp(length) >= 4096
  {}

  lemma Placed(areas: seq<VmArea>, addr: nat, len: nat, flags: nat, ok: bool, va: nat)
    requires !Fixed(flags) ==> (ok <==> exists c :: MMAP_BASE <= c && Fits(areas, c, len))
    requires !Fixed(flags) && ok ==> MMAP_BASE <= va && forall c :: MMAP_BASE <= c < va ==> !Fits(areas, c, len)
    requires Fixed(flags) ==> va == addr / 4096 * 4096 && (ok <==> Fits(areas, va, len))
    requires ok ==> Fits(areas, va, len)
    ensures ok <==> exists at: nat :: Chosen(areas, at, addr, len, flags)
    ensures ok ==> forall at: nat :: Chosen(areas, at, addr, len, flags) <==> at == va
  {
    hide Fits;
    if ok {
      assert Chosen(areas, va, addr, len, flags);
    }
  }

  class MmapTask {
    const m: FrameMemory
    const list: AreaList
    const pdir: nat

    ghost predicate Valid()
      reads this, m, list, list.vmas
    {
      m.Valid() && m.Balanced() && m.IsDir(pdir) && list.Ok() && Recorded(list.Areas(), m.View()[pdir])
    }

    /** A task starts with no recorded areas. */
    constructor (memory: FrameMemory, dir: nat)
      requires memory.Valid() && memory.Balanced() && memory.IsDir(dir)
      ensures Valid() && m == memory && pdir == dir && list.Areas() == [] && fresh(list) && fresh(list.vmas)
    {
      m, pdir := memory, dir;
      list := new AreaList();
    }

    ghost function Mine(): Space
      requires m.Valid() && m.IsDir(pdir)
      reads this, m
    {
      m.View()[pdir]
    }

    /** The entries of this task's page directory. */
    ghost function Directory(): (ws: seq<Word>)
      requires m.Valid() && m.IsDir(pdir)
      reads this, m
      ensures |ws| == WORDS
    {
      m.mem[pdir]
    }

    /** Where the new mapping would go: the requested address if it is free, or the lowest gap. */
    method Choose(addr: nat, len: nat, fixed: bool) returns (ok: bool, va: nat)
      requires Valid() && len < TWO32 && (fixed ==> addr / 4096 * 4096 + len < TWO32)
      ensures !fixed ==> (ok <==> exists c :: MMAP_BASE <= c && Fits(list.Areas(), c, len))
      ensures !fixed && ok ==> MMAP_BASE <= va && forall c :: MMAP_BASE <= c < va ==> !Fits(list.Areas(), c, len)
      ensures fixed ==> va == addr / 4096 * 4096 && (ok <==> Fits(list.Areas(), va, len))
      ensures ok ==> Fits(list.Areas(), va, len) && va % 4096 == 0
    {
      hide PageTables.Spaces, PageTables.Inv, Accounted;
      if fixed {
        va := addr / 4096 * 4096;
        for i := 0 to list.count
          invariant forall k :: 0 <= k < i ==> !Meets(va, va + len, list.vmas[k])
        {
          if va < list.vmas[i].end && va + len > list.vmas[i].start {
            assert Meets(va, va + len, list.Areas()[i]);
            return false, va;
          }
        }
        return true, va;
      }
      va := list.FindGap(len);
      ok := va != 0;
      if ok && va != MMAP_BASE {
        ghost var i :| 0 <= i < list.count && va == list.vmas[i].end;
        assert AreaMapped(list.Areas()[i], Mine());
      }
    }

    /** Allocates pages one after another until all are there or one fails; all fit exactly if none is there yet and
        there are frames for the pages and for the tables they lack. */
    method MapPages(va: nat, pages: nat, flags: nat) returns (i: nat, ghost fs: seq<nat>)
      requires m.Valid() && m.Balanced() && m.IsDir(pdir) && flags < 4096 && Present(flags)
      requires va % 4096 == 0 && USER_BASE <= va && va + pages * 4096 < TWO32
      modifies m
      ensures m.Valid() && m.Balanced() && m.IsDir(pdir) && i <= pages
      ensures Mapping(pdir, old(m.View()), old(m.own), m.View(), m.own, fs, va / 4096, i, Page(flags, ZeroPage()))
      ensures i == pages <==> Mappable(old(Mine()), FreeFrames(old(m.used)), old(Directory()), va / 4096, pages)
      ensures Longest(old(Mine()), FreeFrames(old(m.used)), old(Directory()), va / 4096, pages, i)
      ensures Tabled(old(Directory()), Directory(), va / 4096, i)
      ensures FreeFrames(old(m.used)) == FreeFrames(m.used) + i + Lacking(old(Directory()), va / 4096, i)
    {
      hide PageTables.Spaces, PageTables.Inv, Accounted, Mapping, LastLacks;
      i, fs := 0, [];
      MappingStart(pdir, m.used, m.mem, m.own, m.kernel, va / 4096, Page(flags, ZeroPage()));
      ghost var dir0 := Directory();
      while i < pages
        invariant m.Valid() && m.Balanced() && m.IsDir(pdir) && 0 <= i <= pages
        invariant Mapping(pdir, old(m.View()), old(m.own), m.View(), m.own, fs, va / 4096, i, Page(flags, ZeroPage()))
        invariant Tabled(dir0, Directory(), va / 4096, i)
        invariant FreeFrames(old(m.used)) == FreeFrames(m.used) + i + Lacking(dir0, va / 4096, i)
      {
        LackingGrows(dir0, va / 4096, i + 1, pages);
        var ok, gs := MapOne(va, i, flags, old(m.View()), old(m.own), fs, dir0);
        if !ok {
          NoneThere(pdir, old(m.View()), old(m.own), m.View(), m.own, fs, va / 4096, i, Page(flags, ZeroPage()));
          return;
        }
        fs := gs;
        i := i + 1;
      }
      NoneThere(pdir, old(m.View()), old(m.own), m.View(), m.own, fs, va / 4096, i, Page(flags, ZeroPage()));
    }

    method MapOne(va: nat, i: nat, flags: nat, ghost view0: map<nat, Space>, ghost own0: map<nat, Owner>,
                  ghost fs: seq<nat>,
                  ghost dir0: seq<Word>)
      returns (ok: bool, ghost gs: seq<nat>)
      requires m.Valid() && m.Balanced() && m.IsDir(pdir) && flags < 4096 && Present(flags)
      requires va % 4096 == 0 && USER_BASE <= va && va + (i + 1) * 4096 < TWO32
      requires Mapping(pdir, view0, own0, m.View(), m.own, fs, va / 4096, i, Page(flags, ZeroPage()))
      requires |dir0| == WORDS && Tabled(dir0, Directory(), va / 4096, i)
      modifies m
      ensures m.Valid() && m.Balanced() && m.IsDir(pdir)
      ensures ok ==> Mapping(pdir, view0, own0, m.View(), m.own, gs, va / 4096, i + 1, Page(flags, ZeroPage()))
      ensures ok ==> Tabled(dir0, Directory(), va / 4096, i + 1)
      ensures ok ==> FreeFrames(old(m.used)) == FreeFrames(m.used) + 1 + LastLacks(dir0, va / 4096, i)
      ensures !ok ==> m.View() == old(m.View()) && m.own == old(m.own) && m.used == old(m.used)
      ensures !ok ==> Tabled(dir0, Directory(), va / 4096, i)
      ensures !ok ==> va / 4096 + i in view0[pdir] || FreeFrames(old(m.used)) < 1 + LastLacks(dir0, va / 4096, i)
    {
      hide PageTables.Spaces, PageTables.Inv, Accounted, Grown, Gained, Range, FreeFrames, Lacking;
      var v := va / 4096;
      assert (va + i * 4096) / 4096 == v + i && (va + i * 4096) / 4194304 == (v + i) / 1024;
      gs := fs;
      TabledNext(dir0, Directory(), v, i);
      StillAbsent(view0, pdir, v, i, Page(flags, ZeroPage()));
      var r, f := m.AllocAt(pdir, va + i * 4096, flags);
      ok := r != 0;
      if ok {
        LeavesUsed(old(m.used), old(m.mem), old(m.own), m.kernel);
        MappingOne(pdir, view0, own0, old(m.View()), old(m.own), m.own, fs, v, i, Page(flags, ZeroPage()), f);
        TabledOne(dir0, old(Directory()), Directory(), v, i);
        gs := fs + [f];
      }
    }

    /** Gives back pages mapped by a call that failed. */
    method UnmapPages(va: nat, i: nat, ghost view0: map<nat, Space>, ghost own0: map<nat, Owner>, ghost fs: seq<nat>,
                      ghost p: Page)
      requires m.Valid() && m.Balanced() && m.IsDir(pdir)
      requires va % 4096 == 0 && USER_BASE <= va && va + i * 4096 < TWO32
      requires Mapping(pdir, view0, own0, m.View(), m.own, fs, va / 4096, i, p)
      modifies m
      ensures m.Valid() && m.Balanced() && m.IsDir(pdir) && m.View() == view0 && TablesOnly(own0, m.own)
      ensures FreeFrames(m.used) == FreeFrames(old(m.used)) + i && Directory() == old(Directory())
    {
      hide PageTables.Spaces, PageTables.Inv, Accounted;
      var j := 0;
      while j < i
        invariant m.Valid() && m.Balanced() && m.IsDir(pdir) && 0 <= j <= i
        invariant Unmapping(pdir, view0, own0, m.View(), m.own, fs, va / 4096, i, j, p)
        invariant FreeFrames(m.used) == FreeFrames(old(m.used)) + j && Directory() == old(Directory())
      {
        UnmapOne(va, i, j, view0, own0, fs, p);
        j := j + 1;
      }
      UnmappedAll(pdir, view0, own0, m.View(), m.own, fs, va / 4096, i, p);
    }

    method UnmapOne(va: nat, ghost i: nat, j: nat, ghost view0: map<nat, Space>, ghost own0: map<nat, Owner>,
                    ghost fs: seq<nat>, ghost p: Page)
      requires m.Valid() && m.Balanced() && m.IsDir(pdir) && j < i
      requires va % 4096 == 0 && USER_BASE <= va && va + i * 4096 < TWO32
      requires Unmapping(pdir, view0, own0, m.View(), m.own, fs, va / 4096, i, j, p)
      modifies m
      ensures m.Valid() && m.Balanced() && m.IsDir(pdir)
      ensures Unmapping(pdir, view0, own0, m.View(), m.own, fs, va / 4096, i, j + 1, p)
      ensures FreeFrames(m.used) == FreeFrames(old(m.used)) + 1 && Directory() == old(Directory())
    {
      hide PageTables.Spaces, PageTables.Inv, Accounted;
      var v := va / 4096;
      assert (va + j * 4096) / 4096 == v + j;
      var ok, f := m.UnmapAt(pdir, va + j * 4096);
      HeldOnce(old(m.used), old(m.mem), old(m.own), m.kernel, f, fs[j], pdir, v + j);
      UnmappingOne(pdir, view0, own0, old(m.View()), old(m.own), m.own, fs, v, i, j, p);
    }

    /** An anonymous mapping: new zeroed pages in this space and a recorded area, or no change
        to any translation, to the frames that hold pages, or to the recorded areas. */
    method Mmap2(addr: nat, length: nat, prot: nat, flags: nat) returns (r: int, ghost at: nat, ghost i: nat)
      requires Valid() && addr < TWO32 && length < TWO32 && prot != 0
      requires Fixed(flags) ==> USER_BASE <= addr && addr / 4096 * 4096 + RoundUp(length) < TWO32
      modifies m, list, list.vmas
      ensures Valid()
      ensures r == -1 ==> m.View() == old(m.View()) && list.Areas() == old(list.Areas())
      ensures r == -1 ==> TablesOnly(old(m.own), m.own) && Grown(old(m.used), old(m.own), m.used, m.own)
      ensures r != -1 ==> 0 <= r && m.View() == old(m.View())[pdir := Mine()]
      ensures r != -1 ==>
                Mmapped(old(Mine()), old(list.Areas()), r, addr, RoundUp(length), prot, flags, Mine(), list.Areas())
      ensures r != -1 <==>
                && RoundUp(length) != 0 && Anonymous(flags) && old(list.count) < MAX_VMA
                && exists va: nat :: Chosen(old(list.Areas()), va, addr, RoundUp(length), flags)
                                     && Mappable(old(Mine()), FreeFrames(old(m.used)), old(Directory()), va / 4096,
                                                 RoundUp(length) / 4096)
      ensures Attempted(old(list.Areas()), old(Mine()), FreeFrames(old(m.used)), old(Directory()),
                        addr, RoundUp(length), flags, at, i)
      ensures r != -1 ==> at == r && i == RoundUp(length) / 4096
      ensures r != -1 <==>
                && 0 < length && length + 4095 < TWO32 && Anonymous(flags) && old(list.count) < MAX_VMA
                && exists va: nat ::
                     && Fits(old(list.Areas()), va, RoundUp(length))
                     && (if Fixed(flags) then va == addr / 4096 * 4096
                         else MMAP_BASE <= va
                              && forall c :: MMAP_BASE <= c < va ==> !Fits(old(list.Areas()), c, RoundUp(length)))
                     && (forall u :: va / 4096 <= u < va / 4096 + RoundUp(length) / 4096 ==> u !in old(Mine()))
                     && FreeFrames(old(m.used)) >=
                          RoundUp(length) / 4096 + |Missing(old(Directory()), va / 4096 / 1024,
                                                            (va / 4096 + RoundUp(length) / 4096 - 1) / 1024 + 1)|
      ensures r != -1 ==>
                && (forall x :: r <= x < r + length ==>
                      && PageOf(x) !in old(Mine()) && PageOf(x) in Mine()
                      && Mine()[PageOf(x)] == Page(PageFlags(prot), ZeroPage()))
                && (forall u :: u in old(Mine()) ==> u in Mine() && Mine()[u] == old(Mine())[u])
                && (forall u :: u in Mine() && u !in old(Mine()) ==> r <= u * 4096 < r + length)
      ensures r != -1 ==>
                var was, now := old(list.Areas()), list.Areas();
                && |now| == |was| + 1 && now[..|was|] == was && now[|was|].start == r
                && r + length <= now[|was|].end < r + length + 4096
                && now[|was|].prot == prot && now[|was|].flags == flags
      ensures Tabled(old(Directory()), Directory(), at / 4096, i)
      ensures FreeFrames(old(m.used)) == FreeFrames(m.used) + Lacking(old(Directory()), at / 4096, i)
                                         + if r == -1 then 0 else i
    {
      hide PageTables.Spaces, PageTables.Inv, Accounted, Recorded, FreeFrames, Grown, TablesOnly, Fits, Fixed,
        Anonymous, Mappable, Missing, Chosen, Mmapped, Attempted, Tabled, Lacking, RoundUp, PageFlags, PageOf, ZeroPage;
      var len := RoundUp(length);
      RoundedUp(length);
      SuccessWhere(list.Areas(), Mine(), FreeFrames(m.used), Directory(), addr, len, flags);
      r, at, i := MapAnonymous(addr, length, prot, flags);
      if r != -1 {
        MmappedBytes(old(Mine()), old(list.Areas()), r, addr, length, prot, flags, Mine(), list.Areas());
      }
    }

    /** The steps of an anonymous mapping, with what they leave of tables and free frames. */
    method MapAnonymous(addr: nat, length: nat, prot: nat, flags: nat) returns (r: int, ghost at: nat, ghost i: nat)
      requires Valid() && addr < TWO32 && length < TWO32 && prot != 0
      requires Fixed(flags) ==> USER_BASE <= addr && addr / 4096 * 4096 + RoundUp(length) < TWO32
      modifies m, list, list.vmas
      ensures Valid()
      ensures r == -1 ==> m.View() == old(m.View()) && list.Areas() == old(list.Areas())
      ensures r == -1 ==> TablesOnly(old(m.own), m.own) && Grown(old(m.used), old(m.own), m.used, m.own)
      ensures r != -1 ==> 0 <= r && m.View() == old(m.View())[pdir := Mine()]
      ensures r != -1 ==>
                Mmapped(old(Mine()), old(list.Areas()), r, addr, RoundUp(length), prot, flags, Mine(), list.Areas())
      ensures r != -1 <==>
                && RoundUp(length) != 0 && Anonymous(flags) && old(list.count) < MAX_VMA
                && exists va: nat :: Chosen(old(list.Areas()), va, addr, RoundUp(length), flags)
                                     && Mappable(old(Mine()), FreeFrames(old(m.used)), old(Directory()), va / 4096,
                                                 RoundUp(length) / 4096)
      ensures Attempted(old(list.Areas()), old(Mine()), FreeFrames(old(m.used)), old(Directory()),
                        addr, RoundUp(length), flags, at, i)
      ensures r != -1 ==> at == r && i == RoundUp(length) / 4096
      ensures Tabled(old(Directory()), Directory(), at / 4096, i)
      ensures FreeFrames(old(m.used)) == FreeFrames(m.used) + Lacking(old(Directory()), at / 4096, i)
                                         + if r == -1 then 0 else i
    {
      hide PageTables.Spaces, PageTables.Inv, Accounted, Range, TablesOnly, Grown, Mappable, Recorded, Tabled, Longest,
        Chosen, Fits, Lacking;
      NothingTaken(m.used, m.own);
      NothingLacks(Directory(), 0);
      var len := RoundUp(length);
      at, i := 0, 0;
      if len == 0 || !Anonymous(flags) {
        return -1, 0, 0;
      }
      var ok, va := Choose(addr, len, Fixed(flags));
      Placed(list.Areas(), addr, len, flags, ok, va);
      if !ok {
        return -1, 0, 0;
      }
      var done;
      done, i := MapAndRecord(va, len, prot, flags);
      return if done then va else -1, va, i;
    }

    method MapAndRecord(va: nat, len: nat, prot: nat, flags: nat) returns (ok: bool, ghost i: nat)
      requires Valid() && prot != 0 && 0 < len && len % 4096 == 0
      requires va % 4096 == 0 && USER_BASE <= va && Fits(list.Areas(), va, len)
      modifies m, list, list.vmas
      ensures Valid()
      ensures !ok ==> m.View() == old(m.View()) && list.Areas() == old(list.Areas())
      ensures !ok ==> TablesOnly(old(m.own), m.own) && Grown(old(m.used), old(m.own), m.used, m.own)
      ensures ok ==> pdir in old(m.View())
      ensures ok ==> forall u :: va / 4096 <= u < va / 4096 + len / 4096 ==> u !in old(m.View())[pdir]
      ensures ok ==> m.View() == old(m.View())[pdir := Range(old(m.View())[pdir], va / 4096, len / 4096,
                                                             Page(PageFlags(prot), ZeroPage()))]
      ensures ok ==> list.Areas() == old(list.Areas()) + [VmArea(va, va + len, prot, flags)]
      ensures ok <==> old(list.count) < MAX_VMA
                      && Mappable(old(Mine()), FreeFrames(old(m.used)), old(Directory()), va / 4096, len / 4096)
      ensures Longest(old(Mine()), FreeFrames(old(m.used)), old(Directory()), va / 4096, len / 4096, i)
      ensures ok ==> i == len / 4096
      ensures Tabled(old(Directory()), Directory(), va / 4096, i)
      ensures FreeFrames(old(m.used)) == FreeFrames(m.used) + Lacking(old(Directory()), va / 4096, i)
                                         + if ok then i else 0
    {
      hide PageTables.Spaces, PageTables.Inv, Accounted, Mapping, Mappable, TablesOnly, Grown, Range, Longest, Tabled,
        Lacking, FreeFrames, Recorded;
      var pages := len / 4096;
      ghost var p := Page(PageFlags(prot), ZeroPage());
      var n, fs := MapPages(va, pages, PageFlags(prot));
      i := n;
      if n == pages {
        NoneThere(pdir, old(m.View()), old(m.own), m.View(), m.own, fs, va / 4096, n, p);
        ok := list.Add(va, va + len, prot, flags);
        if ok {
          AddRecorded(old(list.Areas()), old(Mine()), VmArea(va, va + len, prot, flags), p);
          return;
        }
      }
      UnmapPages(va, n, old(m.View()), old(m.own), fs, p);
      TakenByTables(old(m.used), old(m.mem), old(m.own), m.used, m.mem, m.own, m.kernel, m.reserved);
      ok := false;
    }

    /** Unmaps every page of the range and forgets exactly the areas that meet it. */
    method Munmap(addr: nat, length: nat) returns (ghost kept: seq<nat>)
      requires Valid() && USER_BASE <= addr && addr + length + 4095 < TWO32
      modifies m, list, list.vmas
      ensures Valid() && pdir in old(m.View())
      ensures m.View() == old(m.View())[pdir := Without(old(m.View())[pdir], addr / 4096,
                                                        (addr + length + 4095) / 4096)]
      ensures Survivors(old(list.Areas()), list.Areas(), kept, addr / 4096 * 4096, (addr + length + 4095) / 4096 * 4096)
      ensures FreeFrames(m.used) + |Mine()| == FreeFrames(old(m.used)) + old(|Mine()|)
                && Directory() == old(Directory())
    {
      hide PageTables.Spaces, PageTables.Inv, Accounted, Without, Recorded, Survivors;
      var va, end := addr / 4096 * 4096, (addr + length + 4095) / 4096 * 4096;
      ClearPages(va, end);
      kept := list.Remove(va, end);
      RemoveRecorded(old(list.Areas()), old(m.View())[pdir], list.Areas(), kept, va, end);
    }

    method ClearPages(va: nat, end: nat)
      requires m.Valid() && m.Balanced() && m.IsDir(pdir) && USER_BASE <= va && end < TWO32 && va % 4096 == 0
                 && end % 4096 == 0 && va <= end
      modifies m
      ensures m.Valid() && m.Balanced() && m.IsDir(pdir) && pdir in old(m.View())
      ensures m.View() == old(m.View())[pdir := Without(old(m.View())[pdir], va / 4096, end / 4096)]
      ensures FreeFrames(m.used) + |Mine()| == FreeFrames(old(m.used)) + old(|Mine()|)
                && Directory() == old(Directory())
    {
      hide PageTables.Spaces, PageTables.Inv, Accounted, Without, WithoutPage, FreeFrames;
      MyDir(m.used, m.mem, m.own, m.kernel, pdir);
      WithoutNone(old(m.View()), pdir, va / 4096);
      var page := va;
      while page < end
        invariant va <= page <= end && page % 4096 == 0
        invariant m.Valid() && m.Balanced() && m.IsDir(pdir)
        invariant m.View() == old(m.View())[pdir := Without(old(m.View())[pdir], va / 4096, page / 4096)]
        invariant FreeFrames(m.used) + |Mine()| == FreeFrames(old(m.used)) + old(|Mine()|)
                    && Directory() == old(Directory())
      {
        ClearPage(page);
        WithoutOne(old(m.View()), pdir, va / 4096, page / 4096);
        page := page + 4096;
      }
    }

    /** The page step of munmap. */
    method ClearPage(page: nat)
      requires m.Valid() && m.Balanced() && m.IsDir(pdir) && USER_BASE <= page < TWO32
      modifies m
      ensures m.Valid() && m.Balanced() && m.IsDir(pdir) && pdir in old(m.View())
      ensures m.View() == WithoutPage(old(m.View()), pdir, page / 4096)
      ensures FreeFrames(m.used) + |Mine()| == FreeFrames(old(m.used)) + old(|Mine()|)
                && Directory() == old(Directory())
    {
      hide PageTables.Spaces, PageTables.Inv, Accounted;
      MyDir(m.used, m.mem, m.own, m.kernel, pdir);
      var w := m.GetPte(pdir, page);
      if Present(w) {
        var _, _ := m.UnmapAt(pdir, page);
        assert Mine().Keys == old(Mine()).Keys - {page / 4096};
      } else {
        assert m.View()[pdir] - {page / 4096} == m.View()[pdir];
      }
    }

    /** Sets the flags of every mapped page of the range and the protection of every area that meets it. */
    method Mprotect(addr: nat, length: nat, prot: nat)
      requires Valid() && USER_BASE <= addr && addr + length + 4095 < TWO32 && prot != 0
      modifies m, list.vmas
      ensures Valid() && pdir in old(m.View())
      ensures m.View() ==
                old(m.View())[pdir := Reflag(old(m.View())[pdir], addr / 4096, (addr + length + 4095) / 4096,
                                             PageFlags(prot))]
      ensures list.count == old(list.count)
      ensures forall i :: 0 <= i < list.count ==>
                list.Areas()[i] == if Meets(addr / 4096 * 4096, (addr + length + 4095) / 4096 * 4096,
                                            old(list.Areas())[i])
                                   then old(list.Areas())[i].(prot := prot) else old(list.Areas())[i]
      ensures m.used == old(m.used) && Directory() == old(Directory())
    {
      hide PageTables.Spaces, PageTables.Inv, Accounted;
      hide Reflag, Recorded;
      var va, end := addr / 4096 * 4096, (addr + length + 4095) / 4096 * 4096;
      MyDir(m.used, m.mem, m.own, m.kernel, pdir);
      ReflagNone(old(m.View()), pdir, va / 4096, PageFlags(prot));
      var page := va;
      while page < end
        modifies m
        invariant va <= page <= end && page % 4096 == 0
        invariant m.Valid() && m.Balanced() && m.IsDir(pdir)
        invariant m.View() == old(m.View())[pdir := Reflag(old(m.View())[pdir], va / 4096, page / 4096,
                                                           PageFlags(prot))]
        invariant m.used == old(m.used) && Directory() == old(Directory())
      {
        m.ProtectAt(pdir, page, PageFlags(prot));
        MyDir(m.used, m.mem, m.own, m.kernel, pdir);
        ReflagOne(old(m.View()), pdir, va / 4096, page / 4096, PageFlags(prot));
        page := page + 4096;
      }
      list.UpdateProt(va, end, prot);
      ReflagRecorded(old(list.Areas()), old(m.View())[pdir], list.Areas(), va / 4096, end / 4096, PageFlags(prot));
    }
  }

  datatype MmapCall =
    | DoMmap(addr: nat, length: nat, prot: nat, flags: nat)
    | DoMunmap(addr: nat, length: nat)
    | DoMprotect(addr: nat, length: nat, prot: nat)

  /** User addresses, ranges that do not wrap, and a protection that is not PROT_NONE. */
  predicate Allowed(c: MmapCall) {
    match c
    case DoMmap(addr, length, prot, flags) =>
      && addr < TWO32 && length < TWO32 && prot != 0
      && (Fixed(flags) ==> USER_BASE <= addr && addr / 4096 * 4096 + RoundUp(length) < TWO32)
    case DoMunmap(addr, length) => USER_BASE <= addr && addr + length + 4095 < TWO32
    case DoMprotect(addr, length, prot) => USER_BASE <= addr && addr + length + 4095 < TWO32 && prot != 0
  }

  /** What a call can depend on: the pages, the recorded areas, the free frames and the directory entries. */
  datatype Snapshot = Snapshot(space: Space, areas: seq<VmArea>, free: nat, dir: seq<Word>)

  ghost function Now(t: MmapTask): Snapshot
    requires t.Valid()
    reads t, t.m, t.list, t.list.vmas
  {
    Snapshot(t.Mine(), t.list.Areas(), FreeFrames(t.m.used), t.Directory())
  }

  /** An mmap2 that gets as far as `i` pages from `at` on.  It succeeds if that is all of them and the area can be
      recorded; otherwise the pages go back and only the tables made for them remain. */
  ghost predicate MmapStep(s: Snapshot, addr: nat, len: nat, prot: nat, flags: nat, r: int, s': Snapshot,
                           at: nat, i: nat)
  {
    && Attempted(s.areas, s.space, s.free, s.dir, addr, len, flags, at, i)
    && Tabled(s.dir, s'.dir, at / 4096, i)
    && if len != 0 && i == len / 4096 && |s.areas| < MAX_VMA
       then r == at && Mmapped(s.space, s.areas, at, addr, len, prot, flags, s'.space, s'.areas)
            && s.free == s'.free + Lacking(s.dir, at / 4096, i) + i
       else r == -1 && s'.space == s.space && s'.areas == s.areas && s.free == s'.free + Lacking(s.dir, at / 4096, i)
  }

  /** The areas left are, in some order, those that do not meet the range. */
  ghost predicate Spared(areas: seq<VmArea>, left: seq<VmArea>, start: nat, end: nat) {
    exists kept :: Survivors(areas, left, kept, start, end)
  }

  ghost predicate MunmapStep(s: Snapshot, addr: nat, length: nat, s': Snapshot) {
    var lo, hi := addr / 4096, (addr + length + 4095) / 4096;
    && s'.space == Without(s.space, lo, hi) && Spared(s.areas, s'.areas, lo * 4096, hi * 4096)
    && s'.free + |s'.space| == s.free + |s.space| && s'.dir == s.dir
  }

  ghost predicate MprotectStep(s: Snapshot, addr: nat, length: nat, prot: nat, s': Snapshot) {
    && s'.space == Reflag(s.space, addr / 4096, (addr + length + 4095) / 4096, PageFlags(prot))
    && |s'.areas| == |s.areas|
    && (forall i :: 0 <= i < |s.areas| ==>
          s'.areas[i] == if Meets(addr / 4096 * 4096, (addr + length + 4095) / 4096 * 4096, s.areas[i])
                         then s.areas[i].(prot := prot) else s.areas[i])
    && s'.free == s.free && s'.dir == s.dir
  }

  /** What one call with result `r` does. */
  ghost predicate Step(s: Snapshot, c: MmapCall, r: int, s': Snapshot) {
    match c
    case DoMmap(addr, length, prot, flags) =>
      exists at: nat, i: nat :: MmapStep(s, addr, RoundUp(length), prot, flags, r, s', at, i)
    case DoMunmap(addr, length) => r == 0 && MunmapStep(s, addr, length, s')
    case DoMprotect(addr, length, prot) => r == 0 && MprotectStep(s, addr, length, prot, s')
  }

  /** What an mmap2 does, byte by byte: it succeeds exactly if it asks for something anonymous, the list has room, there
      is a place and there are frames; every byte asked for is then in a new zeroed page, and otherwise no page and no
      area differs. */
  lemma MmapIs(s: Snapshot, addr: nat, length: nat, prot: nat, flags: nat, r: int, s': Snapshot)
    requires Step(s, DoMmap(addr, length, prot, flags), r, s') && length < TWO32
    ensures r != -1 <==>
              && 0 < length && length + 4095 < TWO32 && Anonymous(flags) && |s.areas| < MAX_VMA
              && exists va: nat ::
                   && Fits(s.areas, va, RoundUp(length))
                   && (if Fixed(flags) then va == addr / 4096 * 4096
                       else MMAP_BASE <= va && forall c :: MMAP_BASE <= c < va ==> !Fits(s.areas, c, RoundUp(length)))
                   && (forall u :: va / 4096 <= u < va / 4096 + RoundUp(length) / 4096 ==> u !in s.space)
                   && s.free >=
                        RoundUp(length) / 4096
                        + |Missing(s.dir, va / 4096 / 1024, (va / 4096 + RoundUp(length) / 4096 - 1) / 1024 + 1)|
    ensures r == -1 ==> s'.space == s.space && s'.areas == s.areas
    ensures r != -1 ==>
              && 0 <= r && |s'.areas| == |s.areas| + 1 && s'.areas[..|s.areas|] == s.areas
              && (forall x :: r <= x < r + length ==>
                    && PageOf(x) !in s.space && PageOf(x) in s'.space
                    && s'.space[PageOf(x)] == Page(PageFlags(prot), ZeroPage()))
              && (forall u :: u in s.space ==> u in s'.space && s'.space[u] == s.space[u])
              && (forall u :: u in s'.space && u !in s.space ==> r <= u * 4096 < r + length)
  {
    var len := RoundUp(length);
    hide Mappable, Missing, Chosen, Mmapped, Tabled, Lacking, RoundUp, PageFlags, PageOf, ZeroPage, Fits, Fixed,
      Anonymous;
    RoundedUp(length);
    SuccessWhere(s.areas, s.space, s.free, s.dir, addr, len, flags);
    var at: nat, i: nat :| MmapStep(s, addr, len, prot, flags, r, s', at, i);
    if r != -1 {
      MmappedBytes(s.space, s.areas, r, addr, length, prot, flags, s'.space, s'.areas);
    }
    Whole(s, addr, length, flags, at, i);
  }

  /** The pages all get mapped exactly if there is a place at which they all can be. */
  lemma Whole(s: Snapshot, addr: nat, length: nat, flags: nat, at: nat, i: nat)
    requires Attempted(s.areas, s.space, s.free, s.dir, addr, RoundUp(length), flags, at, i)
    ensures RoundUp(length) != 0 && i == RoundUp(length) / 4096 <==>
              RoundUp(length) != 0 && Anonymous(flags)
              && exists va: nat :: Chosen(s.areas, va, addr, RoundUp(length), flags)
                                   && Mappable(s.space, s.free, s.dir, va / 4096, RoundUp(length) / 4096)
  {
    var len := RoundUp(length);
    hide Mappable, Fits, Anonymous, RoundUp;
    if va: nat :| len != 0 && Anonymous(flags) && Chosen(s.areas, va, addr, len, flags)
                  && Mappable(s.space, s.free, s.dir, va / 4096, len / 4096) {
      OnePlace(s.areas, addr, len, flags, va, at);
      if i < len / 4096 {
        MappableLess(s.space, s.free, s.dir, va / 4096, len / 4096, i + 1);
      }
    }
  }

  lemma OnePlace(areas: seq<VmArea>, addr: nat, len: nat, flags: nat, va: nat, at: nat)
    requires Chosen(areas, va, addr, len, flags) && Chosen(areas, at, addr, len, flags)
    ensures va == at
  {
    hide Fits, Fixed;
  }

  /** What a munmap does: exactly the pages of the range go, with as many frames, and exactly the areas that meet it. */
  lemma MunmapIs(s: Snapshot, addr: nat, length: nat, r: int, s': Snapshot)
    requires Step(s, DoMunmap(addr, length), r, s')
    ensures var lo, hi := addr / 4096, (addr + length + 4095) / 4096;
            && r == 0 && s'.free + |s'.space| == s.free + |s.space|
            && (forall u :: u in s'.space <==> u in s.space && (u < lo || hi <= u))
            && (forall u :: u in s'.space ==> s'.space[u] == s.space[u])
            && (forall a :: a in s'.areas <==> a in s.areas && !Meets(lo * 4096, hi * 4096, a))
            && |s'.areas| == |set i | 0 <= i < |s.areas| && !Meets(lo * 4096, hi * 4096, s.areas[i])|
  {
    hide Meets, Survivors;
    var lo, hi := addr / 4096, (addr + length + 4095) / 4096;
    var kept :| Survivors(s.areas, s'.areas, kept, lo * 4096, hi * 4096);
    SurvivorsAre(s.areas, s'.areas, kept, lo * 4096, hi * 4096);
  }

  /** What an mprotect does: exactly the mapped pages of the range get the flags, and exactly the areas that meet it the
      protection. */
  lemma MprotectIs(s: Snapshot, addr: nat, length: nat, prot: nat, r: int, s': Snapshot)
    requires Step(s, DoMprotect(addr, length, prot), r, s')
    ensures var lo, hi := addr / 4096, (addr + length + 4095) / 4096;
            && r == 0 && s'.space.Keys == s.space.Keys && |s'.areas| == |s.areas| && s'.free == s.free
            && (forall u :: u in s.space ==>
                  && s'.space[u].words == s.space[u].words
                  && s'.space[u].flags == if lo <= u < hi then PageFlags(prot) else s.space[u].flags)
            && forall i :: 0 <= i < |s.areas| ==>
                 s'.areas[i] == if Meets(lo * 4096, hi * 4096, s.areas[i]) then s.areas[i].(prot := prot)
                                else s.areas[i]
  {
    hide PageFlags, Meets;
  }

  /** The states before and after each of the calls. */
  ghost predicate History(snaps: seq<Snapshot>, calls: seq<MmapCall>, rs: seq<int>) {
    && |snaps| == |calls| + 1 && |rs| == |calls|
    && forall k :: 0 <= k < |calls| ==> Step(snaps[k], calls[k], rs[k], snaps[k + 1])
  }

  lemma MappableLess(space: Space, free: nat, dir: seq<Word>, v: nat, n: nat, m: nat)
    requires Mappable(space, free, dir, v, n) && m <= n
    ensures Mappable(space, free, dir, v, m)
  {
    LackingGrows(dir, v, m, n);
  }

  /** Nothing about a call is left open: its result, the pages and the free frames follow from the state before. */
  lemma Determined(s: Snapshot, c: MmapCall, r: int, s1: Snapshot, q: int, s2: Snapshot)
    requires Step(s, c, r, s1) && Step(s, c, q, s2)
    ensures r == q && s1.space == s2.space && s1.free == s2.free
  {
    if c.DoMmap? {
      var len := RoundUp(c.length);
      var at: nat, i: nat :| MmapStep(s, c.addr, len, c.prot, c.flags, r, s1, at, i);
      var bt: nat, j: nat :| MmapStep(s, c.addr, len, c.prot, c.flags, q, s2, bt, j);
      SameAttempt(s, c.addr, len, c.flags, at, i, bt, j);
    }
  }

  lemma SameAttempt(s: Snapshot, addr: nat, len: nat, flags: nat, at: nat, i: nat, bt: nat, j: nat)
    requires Attempted(s.areas, s.space, s.free, s.dir, addr, len, flags, at, i)
    requires Attempted(s.areas, s.space, s.free, s.dir, addr, len, flags, bt, j)
    ensures at == bt && i == j
  {
    hide Mappable, Fits;
    if i < j {
      MappableLess(s.space, s.free, s.dir, bt / 4096, j, i + 1);
    }
    if j < i {
      MappableLess(s.space, s.free, s.dir, at / 4096, i, j + 1);
    }
  }

  /** Every run is explained call by call; the recorded areas stay disjoint and fully mapped, and no other address
      space changes. */
  method RunCalls(t: MmapTask, calls: seq<MmapCall>) returns (rs: seq<int>, ghost snaps: seq<Snapshot>)
    requires t.Valid() && forall k :: 0 <= k < |calls| ==> Allowed(calls[k])
    modifies t.m, t.list, t.list.vmas
    ensures t.Valid() && Recorded(t.list.Areas(), t.Mine())
    ensures History(snaps, calls, rs) && snaps[0] == old(Now(t)) && snaps[|calls|] == Now(t)
    ensures t.m.View() == old(t.m.View())[t.pdir := t.Mine()]
  {
    hide PageTables.Spaces, PageTables.Inv, Accounted, Step, FreeFrames;
    MyDir(t.m.used, t.m.mem, t.m.own, t.m.kernel, t.pdir);
    rs, snaps := [], [Now(t)];
    for k := 0 to |calls|
      invariant t.Valid() && t.m.View() == old(t.m.View())[t.pdir := t.Mine()]
      invariant History(snaps, calls[..k], rs) && snaps[0] == old(Now(t)) && snaps[k] == Now(t)
    {
      assert Allowed(calls[k]);
      var r := PerformCall(t, calls[k]);
      OneMore(snaps, calls, k, rs, r, Now(t));
      rs, snaps := rs + [r], snaps + [Now(t)];
    }
    assert calls[..|calls|] == calls;
  }

  lemma OneMore(snaps: seq<Snapshot>, calls: seq<MmapCall>, k: nat, rs: seq<int>, r: int, s: Snapshot)
    requires k < |calls| && History(snaps, calls[..k], rs) && Step(snaps[k], calls[k], r, s)
    ensures History(snaps + [s], calls[..k + 1], rs + [r])
  {
    hide Step;
    assert calls[..k + 1] == calls[..k] + [calls[k]];
  }

  method PerformCall(t: MmapTask, c: MmapCall) returns (r: int)
    requires t.Valid() && Allowed(c)
    modifies t.m, t.list, t.list.vmas
    ensures t.Valid() && t.m.View() == old(t.m.View())[t.pdir := t.Mine()]
    ensures Step(old(Now(t)), c, r, Now(t))
  {
    hide PageTables.Spaces, PageTables.Inv, Accounted, FreeFrames, Recorded, Range, Lacking, Tabled, Mappable, Chosen,
      Without, Reflag, Survivors;
    MyDir(t.m.used, t.m.mem, t.m.own, t.m.kernel, t.pdir);
    match c
    case DoMmap(addr, length, prot, flags) =>
      ghost var at, i;
      r, at, i := t.Mmap2(addr, length, prot, flags);
      assert MmapStep(old(Now(t)), addr, RoundUp(length), prot, flags, r, Now(t), at, i);
    case DoMunmap(addr, length) =>
      var kept := t.Munmap(addr, length);
      r := 0;
    case DoMprotect(addr, length, prot) =>
      t.Mprotect(addr, length, prot);
      r := 0;
  }
}
