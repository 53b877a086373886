/** The physical memory manager: the frame bitmap, mapping and unmapping of single
    pages, and the fork-time deep copy of a page directory with its rollbacks. */
module PhysicalMemory {
  import opened PageTables
  import opened DirectoryClone
  import opened FrameCosts

  class FrameMemory {
    /** One flag per frame: the frame bitmap. */
    var used: seq<bool>
    var mem: Memory
    /** The place that refers to each frame owned by an address space. */
    ghost var own: map<nat, Owner>
    /** The kernel's own directory entries, copied into every directory. */
    const kernel: seq<Word>
    /** Frames that no address space may ever use, fixed at boot. */
    ghost const reserved: set<nat>

    ghost predicate Valid()
      reads this
    {
      Inv(used, mem, own, kernel)
    }

    /** No frame is allocated without a use. */
    ghost predicate Balanced()
      reads this
    {
      Accounted(used, own, reserved)
    }

    /** The address spaces a user sees. */
    ghost function View(): map<nat, Space>
      requires Valid()
      reads this
    {
      Spaces(mem, own)
    }

    /** The user entries of each directory that have a table. */
    ghost function Tables(): map<nat, set<nat>>
      reads this
    {
      TableSets(own)
    }

    ghost predicate IsDir(d: nat)
      reads this
    {
      d in own && own[d].Dir?
    }

    /** Boot: frames below the kernel's end and frames not reported as available are taken;
        the kernel's directory, itself below that end, maps no user page yet. */
    constructor (available: seq<bool>, kernelEnd: nat, kernelDir: nat, pdes: seq<Word>, contents: Memory)
      requires |available| == FRAMES && 0 < kernelDir < kernelEnd <= FRAMES
      requires |pdes| == KERNEL_PDES && Shape(contents)
      requires contents[kernelDir] == pdes + ZeroPage()[KERNEL_PDES..]
      ensures Valid() && IsDir(kernelDir) && View() == map[kernelDir := map[]]
      ensures forall f :: 0 <= f < FRAMES ==> (used[f] <==> f < kernelEnd || !available[f])
      ensures Balanced() && reserved == set f | 0 <= f < FRAMES && f != kernelDir && (f < kernelEnd || !available[f])
    {
      used := seq(FRAMES, f requires 0 <= f < FRAMES => f < kernelEnd || !available[f]);
      mem := contents;
      own := map[kernelDir := Dir];
      kernel := pdes;
      reserved := set f | 0 <= f < FRAMES && f != kernelDir && (f < kernelEnd || !available[f]);
      new;
      assert forall i :: KERNEL_PDES <= i < WORDS ==> mem[kernelDir][i] == 0;
      forall v: nat | UserPage(v) ensures !Mapped(mem, kernelDir, v) {}
      assert SpaceOf(mem, kernelDir) == map[];
    }

    // -------------------------------------------------------------- frames

    method FrameAlloc() returns (f: nat)
      requires |used| == FRAMES && used[0]
      modifies this`used
      ensures |used| == FRAMES && used[0]
      ensures f == 0 ==> used == old(used) && FreeFrames(used) == 0
      ensures f != 0 ==> f < FRAMES && !old(used[f]) && used == old(used)[f := true]
      ensures f != 0 ==> FreeFrames(old(used)) == FreeFrames(used) + 1
      ensures f != 0 ==> forall g :: 0 <= g < f ==> old(used[g])
    {
      var i := 0;
      while i < FRAMES
        invariant 0 <= i <= FRAMES && used == old(used)
        invariant forall g :: 0 <= g < i ==> used[g]
      {
        if !used[i] {
          FreeAfterTake(used, i);
          used := used[i := true];
          return i;
        }
        i := i + 1;
      }
      NoneFree(used);
      f := 0;
    }

    method FrameFree(f: nat)
      requires |used| == FRAMES
      modifies this`used
      ensures used == if f < FRAMES then old(used)[f := false] else old(used)
    {
      if f < FRAMES {
        used := used[f := false];
      }
    }

    // -------------------------------------------------------------- single pages

    /** Maps the allocated, unowned frame `f` at `va`, adding a table if there is none. */
    method MapAt(d: nat, va: nat, f: nat, flags: nat) returns (ok: bool)
      requires Valid() && IsDir(d) && UserPage(va / 4096)
      requires 0 < f < FRAMES && used[f] && f !in own && flags < 4096 && Present(flags)
      modifies this
      ensures Valid() && IsDir(d)
      ensures mem[f] == old(mem[f])
      ensures ok <==> va / 4096 !in old(View())[d] && (Present(old(mem)[d][va / 4194304]) || FreeFrames(old(used)) >= 1)
      ensures ok ==> View() == WithPage(old(View()), d, va / 4096, Page(flags, old(mem[f])))
      ensures ok ==> Holds(own, f, d, va / 4096)
      ensures forall g :: g in old(own) ==> g in own && own[g] == old(own)[g]
      ensures ok ==> FreeFrames(old(used)) == FreeFrames(used) + if Present(old(mem)[d][va / 4194304]) then 0 else 1
      ensures LeafFrames(own) == if ok then LeafFrames(old(own)) + {f} else LeafFrames(old(own))
      ensures ok ==> Grown(old(used), old(own)[f := own[f]], used, own)
      ensures ok ==> forall g :: g in own && own[g].Dir? ==> g in old(own)
      ensures ok ==> TablesFor(old(mem)[d], mem[d], va / 4194304)
      ensures ok ==> TableGiven(old(own), own, d, va / 4194304)
      ensures !ok ==> used == old(used) && own == old(own) && View() == old(View()) && f !in own
      ensures !ok ==> mem[d] == old(mem)[d]
    {
      hide Referenced, Closed, Spaces, SpaceOf, LeafFrames, WithPage, Holds, Grown, TablesFor, TablesOf, TableSets;
      var i := va / 4194304;
      assert i == va / 4096 / 1024;
      InSpace(used, mem, own, kernel, d, va / 4096);
      ghost var made;
      ok, made := TableFor(d, i);
      if !ok {
        return;
      }
      ghost var own1 := own;
      ok := MapInTable(d, va, f, flags);
      if ok {
        LeafAside(own1, own, f);
        GrownBy(old(used), old(own), used, made, f, own[f]);
      }
    }

    /** The table of directory entry `i`, a fresh one if there is none. */
    method TableFor(d: nat, i: nat) returns (ok: bool, ghost made: map<nat, Owner>)
      requires Valid() && IsDir(d) && KERNEL_PDES <= i < WORDS
      modifies this
      ensures Valid() && View() == old(View()) && own == old(own) + made && LeafFrames(own) == LeafFrames(old(own))
      ensures ok <==> Present(old(mem)[d][i]) || FreeFrames(old(used)) >= 1
      ensures !ok ==> used == old(used) && own == old(own) && mem == old(mem)
      ensures ok ==> Present(mem[d][i]) && TablesFor(old(mem)[d], mem[d], i) && TableGiven(old(own), own, d, i)
      ensures ok ==> FreeFrames(old(used)) == FreeFrames(used) + if Present(old(mem)[d][i]) then 0 else 1
      ensures ok && Present(old(mem)[d][i]) ==> made == map[] && unchanged(this)
      ensures forall t :: t in made ==> t < FRAMES && !old(used[t]) && t !in old(own) && made[t] == Table(d, i)
      ensures |used| == old(|used|) && forall g :: 0 <= g < |used| ==> (used[g] <==> old(used[g]) || g in made)
      ensures forall f :: 0 <= f < FRAMES && old(used[f]) && f != d ==> mem[f] == old(mem[f])
    {
      hide Referenced, Closed, Spaces, SpaceOf, LeafFrames, TablesFor, TablesOf, TableSets;
      made, ok := map[], true;
      TableSeen(used, mem, own, kernel, d, i);
      if Present(mem[d][i]) {
        SameTables(mem[d], i);
        TableThere(own, d, i);
      } else {
        var t := AddTable(d, i);
        ok := t != 0;
        if ok {
          made := map[t := Table(d, i)];
          TableAdded(old(own), d, i, t);
        }
      }
    }

    method MapInTable(d: nat, va: nat, f: nat, flags: nat) returns (ok: bool)
      requires Valid() && IsDir(d) && UserPage(va / 4096) && Present(mem[d][va / 4194304])
      requires 0 < f < FRAMES && used[f] && f !in own && flags < 4096 && Present(flags)
      modifies this`mem, this`own
      ensures Valid() && IsDir(d)
      ensures ok <==> va / 4096 !in old(View())[d]
      ensures ok ==> View() == WithPage(old(View()), d, va / 4096, Page(flags, old(mem[f])))
      ensures ok ==> mem[f] == old(mem[f]) && Holds(own, f, d, va / 4096)
      ensures ok ==> LeafFrames(own) == LeafFrames(old(own)) + {f}
      ensures forall g :: g in old(own) ==> g in own && own[g] == old(own)[g]
      ensures ok ==> f in own && own == old(own)[f := own[f]] && own[f].Leaf? && mem[d] == old(mem)[d]
      ensures !ok ==> mem == old(mem) && own == old(own)
    {
      hide Referenced, Closed, SpaceOf;
      var i, j := va / 4194304, va / 4096 % 1024;
      assert i == va / 4096 / 1024;
      InSpace(used, mem, own, kernel, d, va / 4096);
      Walk(used, mem, own, kernel, d, va / 4096);
      var t := FrameOf(mem[d][i]);
      if Present(mem[t][j]) {
        return false;
      }
      InstallLeaf(used, mem, own, kernel, d, va / 4096, t, f, flags);
      mem := Poke(mem, t, j, Entry(f, flags));
      own := own[f := Leaf(t, j)];
      return true;
    }

    /** Hangs a fresh zeroed table on an absent directory entry. */
    method AddTable(d: nat, i: nat) returns (t: nat)
      requires Valid() && IsDir(d) && KERNEL_PDES <= i < WORDS && !Present(mem[d][i])
      modifies this
      ensures Valid() && View() == old(View())
      ensures t == 0 ==> used == old(used) && mem == old(mem) && own == old(own) && FreeFrames(used) == 0
      ensures t != 0 ==> t < FRAMES && !old(used[t]) && FreeFrames(old(used)) == FreeFrames(used) + 1
      ensures t != 0 ==> used == old(used)[t := true] && own == old(own)[t := Table(d, i)]
      ensures LeafFrames(own) == LeafFrames(old(own))
      ensures t != 0 ==> Present(mem[d][i]) && FrameOf(mem[d][i]) == t && forall j :: 0 <= j < WORDS ==> mem[t][j] == 0
      ensures t != 0 ==> TablesFor(old(mem)[d], mem[d], i)
      ensures forall f :: 0 <= f < FRAMES && f != t && f != d ==> mem[f] == old(mem[f])
    {
      t := ZeroFrame();
      if t == 0 {
        return;
      }
      InstallTable(used, mem, own, kernel, d, i, t);
      EntryParts(t, 7);
      mem := Poke(mem, d, i, Entry(t, 7));
      own := own[t := Table(d, i)];
    }

    /** A fresh zeroed page at `va`.  It fails, changing nothing, exactly when a page is there
        already or too few frames are free. */
    method AllocAt(d: nat, va: nat, flags: nat) returns (r: nat, ghost f: nat)
      requires Valid() && IsDir(d) && UserPage(va / 4096) && flags < 4096 && Present(flags)
      modifies this
      ensures Valid() && IsDir(d)
      ensures r == va || r == 0
      ensures r != 0 <==> va / 4096 !in old(View())[d]
                          && FreeFrames(old(used)) >= if Present(old(mem)[d][va / 4194304]) then 1 else 2
      ensures r != 0 ==> View() == WithPage(old(View()), d, va / 4096, Page(flags, ZeroPage()))
      ensures r != 0 ==> 0 < f < FRAMES && !old(used[f]) && LeafFrames(own) == LeafFrames(old(own)) + {f}
      ensures r != 0 ==> Holds(own, f, d, va / 4096)
      ensures r != 0 ==> FreeFrames(old(used)) == FreeFrames(used) + if Present(old(mem)[d][va / 4194304]) then 1 else 2
      ensures r != 0 ==> TablesFor(old(mem)[d], mem[d], va / 4194304)
      ensures r != 0 ==> TableGiven(old(own), own, d, va / 4194304)
      ensures Grown(old(used), old(own), used, own) && forall g :: g in own && own[g].Dir? ==> g in old(own)
      ensures old(Balanced()) ==> Balanced()
      ensures r == 0 ==> used == old(used) && own == old(own) && View() == old(View()) && mem[d] == old(mem)[d]
    {
      var g := ZeroFrame();
      f := g;
      if g == 0 {
        return 0, 0;
      }
      var ok := MapAt(d, va, g, flags);
      if !ok {
        TakeAndFree(old(used), g);
        FreeUnowned(g);
        return 0, 0;
      }
      PageGrown(old(used), old(own), used, own, g);
      if old(Balanced()) {
        GrownAccounted(old(used), old(own), used, own, reserved);
      }
      return va, g;
    }

    method FreeUnowned(f: nat)
      requires Valid() && f < FRAMES && f != 0 && f !in own
      modifies this`used
      ensures Valid() && View() == old(View()) && used == old(used)[f := false]
    {
      FrameFree(f);
    }

    /** A freshly allocated frame, filled with zeros, that no space refers to. */
    method ZeroFrame() returns (f: nat)
      requires Valid()
      modifies this`used, this`mem
      ensures Valid() && View() == old(View())
      ensures f == 0 ==> used == old(used) && mem == old(mem) && FreeFrames(used) == 0
      ensures f != 0 ==> f < FRAMES && !old(used[f]) && used == old(used)[f := true] && f !in own
      ensures f != 0 ==> FreeFrames(old(used)) == FreeFrames(used) + 1
      ensures f != 0 ==> mem == old(mem)[f := ZeroPage()]
    {
      f := FrameAlloc();
      if f != 0 {
        WriteUnowned(used, mem, own, kernel, f, ZeroPage());
        mem := mem[f := ZeroPage()];
      }
    }

    /** Removes the page at `va` and frees its frame; fails exactly when there is none. */
    method UnmapAt(d: nat, va: nat) returns (ok: bool, ghost f: nat)
      requires Valid() && IsDir(d) && UserPage(va / 4096)
      modifies this
      ensures Valid() && IsDir(d)
      ensures ok <==> va / 4096 in old(View())[d]
      ensures ok ==> View() == WithoutPage(old(View()), d, va / 4096)
      ensures ok ==> f in old(own) && used == old(used)[f := false] && own == old(own) - {f}
      ensures ok ==> Holds(old(own), f, d, va / 4096) && LeafFrames(own) == LeafFrames(old(own)) - {f}
      ensures ok ==> FreeFrames(used) == FreeFrames(old(used)) + 1 && Tables() == old(Tables()) && mem[d] == old(mem)[d]
      ensures !ok ==> used == old(used) && mem == old(mem) && own == old(own)
      ensures old(Balanced()) ==> Balanced()
    {
      hide Referenced, Closed, Spaces, SpaceOf, TableSets, WithoutPage, Holds, LeafFrames, FreeFrames;
      var i, j := va / 4194304, va / 4096 % 1024;
      assert i == va / 4096 / 1024;
      InSpace(used, mem, own, kernel, d, va / 4096);
      if !Present(mem[d][i]) {
        return false, 0;
      }
      var t := FrameOf(mem[d][i]);
      if !Present(mem[t][j]) {
        return false, 0;
      }
      Walk(used, mem, own, kernel, d, va / 4096);
      f := FrameOf(mem[t][j]);
      DropPage(d, va, t, FrameOf(mem[t][j]));
      FreeAfterTake(used, f);
      assert used[f := true] == old(used);
      LeafAside(own, old(own), f);
      if old(Balanced()) {
        ShrunkAccounted(old(used), old(own), reserved, f);
      }
      return true, f;
    }

    method DropPage(d: nat, va: nat, t: nat, f: nat)
      requires Valid() && IsDir(d) && UserPage(va / 4096)
      requires Present(mem[d][va / 4194304]) && FrameOf(mem[d][va / 4194304]) == t < FRAMES
      requires Present(mem[t][va / 4096 % 1024]) && FrameOf(mem[t][va / 4096 % 1024]) == f
      modifies this
      ensures Valid() && IsDir(d) && View() == WithoutPage(old(View()), d, va / 4096)
      ensures f in old(own) && used == old(used)[f := false] && own == old(own) - {f}
      ensures Holds(old(own), f, d, va / 4096) && LeafFrames(own) == LeafFrames(old(own)) - {f} && mem[d] == old(mem)[d]
    {
      assert va / 4194304 == va / 4096 / 1024;
      Walk(used, mem, own, kernel, d, va / 4096);
      RemoveLeaf(used, mem, own, kernel, d, va / 4096, t, f);
      LeafGone(own, f);
      FrameFree(f);
      mem := Poke(mem, t, va / 4096 % 1024, 0);
      own := own - {f};
    }

    /** The entry for `va`, or 0 when there is no table. */
    method GetPte(d: nat, va: nat) returns (w: Word)
      requires Valid() && IsDir(d) && UserPage(va / 4096)
      ensures Present(w) <==> va / 4096 in View()[d]
      ensures Present(w) ==> FlagsOf(w) == View()[d][va / 4096].flags
      ensures Present(w) ==> FrameOf(w) < FRAMES && mem[FrameOf(w)] == View()[d][va / 4096].words
      ensures Present(w) ==> Mapped(mem, d, va / 4096) && w == PteAt(mem, d, va / 4096)
    {
      var i, j := va / 4194304, va / 4096 % 1024;
      assert i == va / 4096 / 1024;
      InSpace(used, mem, own, kernel, d, va / 4096);
      if !Present(mem[d][i]) {
        return 0;
      }
      return mem[FrameOf(mem[d][i])][j];
    }

    /** The page step of mprotect: a mapped page keeps its frame and contents and gets new flags. */
    method ProtectAt(d: nat, va: nat, flags: nat)
      requires Valid() && IsDir(d) && UserPage(va / 4096) && flags < 4096 && Present(flags)
      modifies this`mem
      ensures Valid()
      ensures View() == if va / 4096 in old(View())[d]
                        then WithPage(old(View()), d, va / 4096, old(View())[d][va / 4096].(flags := flags))
                        else old(View())
      ensures mem[d] == old(mem)[d]
    {
      var i, j := va / 4194304, va / 4096 % 1024;
      assert i == va / 4096 / 1024;
      var w := GetPte(d, va);
      if Present(w) {
        Walk(used, mem, own, kernel, d, va / 4096);
        var t := FrameOf(mem[d][i]);
        SetFlags(used, mem, own, kernel, d, va / 4096, t, FrameOf(w), flags);
        mem := Poke(mem, t, j, Entry(FrameOf(w), flags));
      }
    }

    /** A user program stores a word through its address space; faults when nothing is mapped. */
    method Store(d: nat, va: nat, x: Word) returns (ok: bool)
      requires Valid() && IsDir(d) && UserPage(va / 4096)
      modifies this`mem
      ensures Valid()
      ensures ok <==> va / 4096 in old(View())[d]
      ensures ok ==> var p := old(View())[d][va / 4096];
                     View() == WithPage(old(View()), d, va / 4096, Page(p.flags, SetWord(p.words, va % 4096 / 4, x)))
      ensures !ok ==> mem == old(mem)
    {
      var w := GetPte(d, va);
      if !Present(w) {
        return false;
      }
      Walk(used, mem, own, kernel, d, va / 4096);
      var f := FrameOf(w);
      StoreWord(used, mem, own, kernel, d, va / 4096, FrameOf(mem[d][va / 4096 / 1024]), f, va % 4096 / 4, x);
      mem := Poke(mem, f, va % 4096 / 4, x);
      return true;
    }

    /** The empty directory that exec starts from: no user page, the kernel's entries shared. */
    method NewDir() returns (n: nat)
      requires Valid()
      modifies this
      ensures Valid()
      ensures n == 0 <==> FreeFrames(old(used)) == 0
      ensures n == 0 ==> used == old(used) && own == old(own) && View() == old(View())
      ensures n != 0 ==> n < FRAMES && n !in old(own) && View() == old(View())[n := map[]]
      ensures n != 0 ==> !old(used[n]) && used == old(used)[n := true] && own == old(own)[n := Dir]
      ensures n != 0 ==> FreeFrames(old(used)) == FreeFrames(used) + 1 && Tables() == old(Tables())[n := {}]
      ensures old(Balanced()) ==> Balanced()
    {
      hide Referenced, Closed, SpaceOf, TableSets, FreeFrames;
      n := FrameAlloc();
      if n == 0 {
        return;
      }
      var ws := kernel + ZeroPage()[KERNEL_PDES..];
      WriteUnowned(used, mem, own, kernel, n, ws);
      mem := mem[n := ws];
      AddDir(used, mem, own, kernel, n);
      DirAdded(used, mem, own, kernel, n);
      own := own[n := Dir];
    }

    // -------------------------------------------------------------- fork

    /** Copies entry `j` of table `p` into table `t`: a present page into a fresh frame,
        an absent entry as it stands. */
    method CopyEntry(p: nat, t: nat, j: nat, ghost made: map<nat, Owner>,
                     ghost used0: seq<bool>, ghost mem0: Memory, ghost n: nat, ghost i: nat)
      returns (ok: bool, ghost more: map<nat, Owner>)
      requires HalfTable(used0, mem0, used, mem, made, n, i, p, t, j) && j < WORDS && used[0]
      modifies this`used, this`mem
      ensures |used| == FRAMES && used[0]
      ensures !ok ==> used == old(used) && mem == old(mem) && more == made && FreeFrames(used) == 0
      ensures !ok ==> Present(mem[p][j])
      ensures ok ==> HalfTable(used0, mem0, used, mem, more, n, i, p, t, j + 1)
      ensures ok ==> FreeFrames(old(used)) == FreeFrames(used) + if Present(old(mem)[p][j]) then 1 else 0
    {
      var w := mem[p][j];
      more := made;
      if Present(w) {
        var g := FrameAlloc();
        if g == 0 {
          return false, made;
        }
        CopyLeaf(used0, mem0, old(used), mem, made, n, i, p, t, j, g);
        mem := mem[g := mem[FrameOf(w)]];
        mem := Poke(mem, t, j, Entry(g, FlagsOf(w)));
        more := made[g := Leaf(t, j)];
      } else {
        CopyAbsent(used0, mem0, used, mem, made, n, i, p, t, j);
        mem := Poke(mem, t, j, w);
      }
      ok := true;
    }

    /** Copies one table and all its pages, or nothing. */
    method CloneTable(pde: Word, ghost n: nat, ghost i: nat)
      returns (ok: bool, newPde: Word, ghost made: map<nat, Owner>)
      requires Shape(mem) && |used| == FRAMES && used[0]
      requires FrameOf(pde) < FRAMES && used[FrameOf(pde)]
      requires forall j :: 0 <= j < WORDS && Present(mem[FrameOf(pde)][j]) ==>
                 FrameOf(mem[FrameOf(pde)][j]) < FRAMES && used[FrameOf(mem[FrameOf(pde)][j])]
      modifies this`used, this`mem
      ensures Kept(old(used), old(mem), mem) && |used| == FRAMES && used[0]
      ensures !ok ==> used == old(used)
      ensures ok ==> FreeFrames(old(used)) == FreeFrames(used) + 1 + PresentBelow(old(mem)[FrameOf(pde)], WORDS)
      ensures !ok ==> FreeFrames(old(used)) < 1 + PresentBelow(old(mem)[FrameOf(pde)], WORDS)
      ensures ok ==> FlagsOf(newPde) == FlagsOf(pde) && FrameOf(newPde) < FRAMES
      ensures ok ==> Taken(old(used), used, made) && TableMade(mem, made, n, i, FrameOf(newPde), WORDS)
      ensures ok ==> forall j :: 0 <= j < WORDS ==> LeafCopied(mem, made, FrameOf(pde), FrameOf(newPde), j)
    {
      var p := FrameOf(pde);
      made, newPde := map[], 0;
      var t := FrameAlloc();
      if t == 0 {
        return false, newPde, made;
      }
      made := map[t := Table(n, i)];
      StartTable(old(used), old(mem), n, i, p, t);
      var j := 0;
      while j < WORDS
        invariant 0 <= j <= WORDS && |used| == FRAMES && used[0]
        invariant HalfTable(old(used), old(mem), used, mem, made, n, i, p, t, j)
        invariant FreeFrames(old(used)) == FreeFrames(used) + 1 + PresentBelow(old(mem)[p], j)
      {
        ok, made := CopyEntry(p, t, j, made, old(used), old(mem), n, i);
        if !ok {
          PresentGrows(old(mem)[p], j + 1, WORDS);
          UndoTable(t, j, made, old(used), n, i, p);
          return false, newPde, made;
        }
        j := j + 1;
      }
      newPde := Entry(t, FlagsOf(pde));
      EntryParts(t, FlagsOf(pde));
      return true, newPde, made;
    }

    /** The inner rollback: frees the pages copied so far, then the table. */
    method UndoTable(t: nat, j: nat, ghost made: map<nat, Owner>, ghost used0: seq<bool>, ghost n: nat, ghost i: nat,
                     ghost p: nat)
      requires Shape(mem) && p < FRAMES && t < FRAMES && j <= WORDS
      requires Taken(used0, used, made) && TableMade(mem, made, n, i, t, j)
      requires forall k :: 0 <= k < j ==> LeafCopied(mem, made, p, t, k)
      modifies this`used
      ensures used == used0
    {
      var k := 0;
      while k < j
        invariant 0 <= k <= j && |used| == FRAMES
        invariant forall f :: 0 <= f < FRAMES ==>
                    (used[f] <==> used0[f] || f == t || (f in made && f != t && made[f].pte >= k))
      {
        assert LeafCopied(mem, made, p, t, k);
        if Present(mem[t][k]) {
          FrameFree(FrameOf(mem[t][k]));
        }
        k := k + 1;
      }
      FrameFree(t);
    }

    /** Frees the pages of one copied table. */
    method FreePages(t: nat, ghost made: map<nat, Owner>)
      requires Shape(mem) && |used| == FRAMES && t < FRAMES
      requires forall j :: 0 <= j < WORDS && Present(mem[t][j]) ==>
                 FrameOf(mem[t][j]) in made && made[FrameOf(mem[t][j])] == Leaf(t, j)
      requires forall f :: f in made && made[f].Leaf? && made[f].table == t ==>
                 made[f].pte < WORDS && Present(mem[t][made[f].pte]) && FrameOf(mem[t][made[f].pte]) == f
      modifies this`used
      ensures |used| == FRAMES
      ensures forall f :: 0 <= f < FRAMES ==>
                (used[f] <==> old(used[f]) && !(f in made && made[f].Leaf? && made[f].table == t))
    {
      var j := 0;
      while j < WORDS
        invariant 0 <= j <= WORDS && |used| == FRAMES
        invariant forall f :: 0 <= f < FRAMES ==>
                    (used[f] <==> old(used[f]) && !(f in made && made[f].Leaf? && made[f].table == t
                                                    && made[f].pte < j))
      {
        if Present(mem[t][j]) {
          FrameFree(FrameOf(mem[t][j]));
        }
        j := j + 1;
      }
    }

    /** The outer rollback: frees every table and page below entries `start` to `end`. */
    method FreeClonedRange(n: nat, start: nat, end: nat, ghost made: map<nat, Owner>,
                           ghost used0: seq<bool>, ghost mem0: Memory, ghost d: nat)
      requires start == KERNEL_PDES <= end && HalfDir(used0, mem0, used, mem, made, d, n, end)
      modifies this`used
      ensures |used| == FRAMES
      ensures forall f :: 0 <= f < FRAMES ==> (used[f] <==> used0[f] || f == n)
    {
      var i := start;
      while i < end
        invariant start <= i <= end && |used| == FRAMES
        invariant forall f :: 0 <= f < FRAMES ==>
                    (used[f] <==> used0[f] || f == n || (f in made && f != n && EntryOf(made, f) >= i))
      {
        assert TableCopied(mem, made, d, n, i);
        if Present(mem[n][i]) {
          var t := FrameOf(mem[n][i]);
          MadeTable(mem, made, d, n, end, i);
          FreePages(t, made);
          FrameFree(t);
        }
        EntriesAt(mem, made, n, end, i);
        i := i + 1;
      }
      EntriesAt(mem, made, n, end, end);
    }

    method UndoDir(n: nat, i: nat, ghost made: map<nat, Owner>, ghost used0: seq<bool>, ghost mem0: Memory,
                   ghost d: nat)
      requires KERNEL_PDES <= i && HalfDir(used0, mem0, used, mem, made, d, n, i)
      modifies this`used
      ensures used == used0 && Kept(used0, mem0, mem)
    {
      FreeClonedRange(n, KERNEL_PDES, i, made, used0, mem0, d);
      FrameFree(n);
    }

    /** Copies entry `i` of directory `d` into directory `n`. */
    method CloneEntry(d: nat, n: nat, i: nat, ghost made: map<nat, Owner>, ghost used0: seq<bool>, ghost mem0: Memory)
      returns (ok: bool, ghost all: map<nat, Owner>)
      requires Inv(used0, mem0, own, kernel) && IsDir(d) && KERNEL_PDES <= i < WORDS
      requires HalfDir(used0, mem0, used, mem, made, d, n, i) && used[0]
      modifies this`used, this`mem
      ensures |used| == FRAMES && used[0]
      ensures !ok ==> used == old(used) && all == made && HalfDir(used0, mem0, used, mem, made, d, n, i)
      ensures !ok ==> FreeFrames(used) < EntryCost(mem0, d, i)
      ensures ok ==> HalfDir(used0, mem0, used, mem, all, d, n, i + 1)
      ensures ok ==> FreeFrames(old(used)) == FreeFrames(used) + EntryCost(mem0, d, i)
    {
      var w := mem[d][i];
      all := made;
      SourceOk(used0, mem0, own, kernel, mem, d, i);
      if Present(w) {
        var pde;
        ghost var more;
        ok, pde, more := CloneTable(w, n, i);
        HalfDirKept(used0, mem0, old(used), old(mem), made, d, n, i, mem);
        if !ok {
          return;
        }
        SourceOk(used0, mem0, own, kernel, mem, d, i);
        CopyTable(used0, mem0, old(used), mem, made, d, n, i, used, more, pde);
        mem := Poke(mem, n, i, pde);
        all := made + more;
      } else {
        CopyAbsentTable(used0, mem0, used, mem, made, d, n, i);
        mem := Poke(mem, n, i, w);
        ok := true;
      }
    }

    /** Copies all user entries of directory `d` into `n`, undoing everything if frames run out. */
    method CloneEntries(d: nat, n: nat, ghost start: map<nat, Owner>, ghost used0: seq<bool>, ghost mem0: Memory)
      returns (ok: bool, ghost made: map<nat, Owner>)
      requires Inv(used0, mem0, own, kernel) && IsDir(d)
      requires HalfDir(used0, mem0, used, mem, start, d, n, KERNEL_PDES) && used[0]
      requires FreeFrames(used0) == FreeFrames(used) + 1
      modifies this`used, this`mem
      ensures ok ==> HalfDir(used0, mem0, used, mem, made, d, n, WORDS)
      ensures !ok ==> used == used0 && Kept(used0, mem0, mem)
      ensures ok <==> FreeFrames(used0) >= CloneCost(mem0, d, WORDS)
      ensures ok ==> FreeFrames(used0) == FreeFrames(used) + CloneCost(mem0, d, WORDS)
    {
      hide HalfDir, Inv, CloneCost, EntryCost, FreeFrames, Kept;
      HalfShape(used0, mem0, used, mem, start, d, n, KERNEL_PDES);
      made := start;
      KernelShared(mem0, d);
      var i := KERNEL_PDES;
      while i < WORDS
        invariant KERNEL_PDES <= i <= WORDS && |used| == FRAMES && used[0]
        invariant HalfDir(used0, mem0, used, mem, made, d, n, i)
        invariant FreeFrames(used0) == FreeFrames(used) + CloneCost(mem0, d, i)
      {
        CostStep(mem0, d, i);
        ok, made := CloneEntry(d, n, i, made, used0, mem0);
        if !ok {
          UndoDir(n, i, made, used0, mem0, d);
          return;
        }
        i := i + 1;
      }
      ok := true;
    }

    /** Fork: a deep copy of directory `d`, or nothing.  It fails exactly when fewer frames
        are free than the copy needs, and then the frame bitmap is what it was. */
    method ClonePdir(d: nat) returns (n: nat)
      requires Valid() && IsDir(d)
      modifies this
      ensures Valid() && Kept(old(used), old(mem), mem)
      ensures n != 0 <==> FreeFrames(old(used)) >= CloneCost(old(mem), d, WORDS)
      ensures n == 0 ==> used == old(used) && own == old(own) && View() == old(View())
      ensures n != 0 ==> n !in old(own) && View() == old(View())[n := old(View())[d]]
      ensures n != 0 ==> FreeFrames(old(used)) == FreeFrames(used) + CloneCost(old(mem), d, WORDS)
      ensures n != 0 ==> Tables() == old(Tables())[n := old(Tables())[d]]
      ensures n != 0 ==> Grown(old(used), old(own), used, own)
      ensures old(Balanced()) ==> Balanced()
    {
      n := FrameAlloc();
      KernelShared(old(mem), d);
      if n == 0 {
        CostGrows(old(mem), d, KERNEL_PDES, WORDS);
        return;
      }
      StartDir(old(used), mem, own, kernel, d, n);
      mem := mem[n := mem[d][..KERNEL_PDES] + mem[n][KERNEL_PDES..]];
      ghost var made: map<nat, Owner> := map[n := Dir];
      var ok;
      ok, made := CloneEntries(d, n, made, old(used), old(mem));
      if !ok {
        CloneUndone(old(used), old(mem), own, kernel, mem);
        return 0;
      }
      CloneDone(old(used), old(mem), own, kernel, used, mem, made, d, n);
      TablesCloned(old(used), old(mem), own, kernel, used, mem, made, d, n);
      own := own + made;
      if old(Balanced()) {
        GrownAccounted(old(used), old(own), used, own, reserved);
      }
    }
  }

  /** After this change directory `ws` has a table for entry `i` as well as for those it had one for. */
  predicate TablesFor(ws: seq<Word>, ws': seq<Word>, i: nat) {
    |ws| == |ws'| && forall j :: 0 <= j < |ws| ==> (Present(ws'[j]) <==> Present(ws[j]) || j == i)
  }

  lemma SameTables(ws: seq<Word>, i: nat)
    requires i < |ws| && Present(ws[i])
    ensures TablesFor(ws, ws, i)
  {}

  /** Beside the page's own frame `f`, at most one table has been taken. */
  lemma GrownBy(used0: seq<bool>, own0: map<nat, Owner>, used: seq<bool>, made: map<nat, Owner>, f: nat, leaf: Owner)
    requires |used| == |used0| && f !in own0 && leaf.Leaf?
    requires forall t :: t in made ==> t < |used0| && !used0[t] && t !in own0 && t != f
    requires forall t :: t in made ==> made[t].Table?
    requires forall g :: 0 <= g < |used0| ==> (used[g] <==> used0[g] || g in made)
    ensures Grown(used0, own0[f := leaf], used, (own0 + made)[f := leaf])
    ensures forall g :: g in (own0 + made)[f := leaf] && (own0 + made)[f := leaf][g].Dir? ==> g in own0
  {}

  /** A frame taken for a page, and what mapping it took, were free before. */
  lemma PageGrown(used0: seq<bool>, own0: map<nat, Owner>, used: seq<bool>, own: map<nat, Owner>, f: nat)
    requires f < |used0| && !used0[f] && f !in own0 && f in own && Grown(used0[f := true], own0[f := own[f]], used, own)
    ensures Grown(used0, own0, used, own)
  {}
}
