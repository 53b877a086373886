/** What exec does to the frame bitmap around the new address space: the buffer it reads the program file into,
    and the release of a half-built space. */
module Exec {
  import opened PageTables
  import opened DirectoryClone
  import opened FrameCosts
  import opened PhysicalMemory

  // ------------------------------------------------------------------ the file buffer

  // The frames of the buffer are taken one by one, yet it is used and released as one stretch of memory.

  /** A frame of the stretch of `n` frames that starts at `base`. */
  predicate InStretch(base: nat, n: nat, f: int) { base <= f < base + n && f < FRAMES }

  /** The stretch was free when the buffer was taken. */
  ghost predicate StretchFree(used: seq<bool>, base: nat, n: nat)
    requires |used| == FRAMES
  {
    forall f :: InStretch(base, n, f) ==> !used[f]
  }

  /** `got` lists, in order, the lowest free frames of `was`, and `now` has them taken as well. */
  ghost predicate LowestTaken(was: seq<bool>, now: seq<bool>, got: seq<nat>) {
    && |was| == |now| == FRAMES
    && (forall i :: 0 <= i < |got| ==> 0 < got[i] < FRAMES && !was[got[i]])
    && (forall i, j :: 0 <= i < j < |got| ==> got[i] < got[j])
    && (forall f :: 0 <= f < FRAMES ==> (now[f] <==> was[f] || f in got))
    && (got != [] ==> forall f :: 0 <= f <= got[|got| - 1] ==> now[f])
  }

  /** Takes `n` frames, or all there are; the buffer starts at the first. */
  method AllocBuffer(m: FrameMemory, n: nat) returns (ok: bool, base: nat, ghost got: seq<nat>)
    requires m.Valid()
    modifies m`used
    ensures m.Valid() && m.View() == old(m.View()) && LowestTaken(old(m.used), m.used, got)
    ensures base == if got == [] then 0 else got[0]
    ensures if ok then |got| == n else |got| < n && forall f :: 0 <= f < FRAMES ==> m.used[f]
    ensures ok <==> FreeFrames(old(m.used)) >= n
  {
    hide Referenced, Closed, SpaceOf, FreeFrames;
    base, got := 0, [];
    var i := 0;
    while i < n
      invariant m.Valid() && |got| == i <= n && LowestTaken(old(m.used), m.used, got)
      invariant base == if got == [] then 0 else got[0]
      invariant FreeFrames(old(m.used)) == FreeFrames(m.used) + i
    {
      ghost var before := m.used;
      var page := m.FrameAlloc();
      if page == 0 {
        AllUsed(m.used);
        return false, base, got;
      }
      OneMoreTaken(old(m.used), before, got, page);
      if i == 0 {
        base := page;
      }
      got := got + [page];
      i := i + 1;
    }
    ok := true;
  }

  lemma OneMoreTaken(was: seq<bool>, now: seq<bool>, got: seq<nat>, f: nat)
    requires LowestTaken(was, now, got) && 0 < f < FRAMES && !now[f] && forall g :: 0 <= g < f ==> now[g]
    ensures LowestTaken(was, now[f := true], got + [f])
  {
    forall i | 0 <= i < |got| ensures got[i] < f {
      assert got[i] <= got[|got| - 1];
    }
  }

  lemma {:induction false} AllUsed(used: seq<bool>)
    requires FreeFrames(used) == 0
    ensures forall f :: 0 <= f < |used| ==> used[f]
  {
    if used != [] {
      AllUsed(used[..|used| - 1]);
      forall f | 0 <= f < |used| ensures used[f] {
        if f < |used| - 1 {
          assert used[f] == used[..|used| - 1][f];
        }
      }
    }
  }

  /** Frees the stretch, whatever the frames in it are used for. */
  method FreeBuffer(m: FrameMemory, base: nat, n: nat)
    requires |m.used| == FRAMES
    modifies m`used
    ensures |m.used| == FRAMES
    ensures forall f :: 0 <= f < FRAMES ==> (m.used[f] <==> old(m.used[f]) && !(base != 0 && InStretch(base, n, f)))
  {
    if base == 0 {
      return;
    }
    var i := 0;
    while i < n
      invariant 0 <= i <= n && |m.used| == FRAMES
      invariant forall f :: 0 <= f < FRAMES ==> (m.used[f] <==> old(m.used[f]) && !InStretch(base, i, f))
    {
      m.FrameFree(base + i);
      i := i + 1;
    }
  }

  /** No free frame is passed over. */
  lemma NoneBetween(was: seq<bool>, now: seq<bool>, got: seq<nat>, i: nat, f: nat)
    requires LowestTaken(was, now, got) && 0 < i < |got| && got[i - 1] < f < FRAMES && !was[f]
    ensures got[i] <= f
  {
    if f <= got[|got| - 1] {
      var j :| 0 <= j < |got| && got[j] == f;
      assert i <= j;
    }
  }

  /** If the stretch was free the frames of the buffer are consecutive. */
  lemma {:induction false} Consecutive(was: seq<bool>, now: seq<bool>, got: seq<nat>, n: nat, i: nat)
    requires LowestTaken(was, now, got) && i < |got| <= n && StretchFree(was, got[0], n)
    ensures got[i] == got[0] + i
  {
    if i > 0 {
      Consecutive(was, now, got, n, i - 1);
      assert InStretch(got[0], n, got[0] + i);
      NoneBetween(was, now, got, i, got[0] + i);
    }
  }

  /** The frames written and released as the buffer are the frames taken for it exactly if the stretch was free. */
  lemma BufferIsStretch(was: seq<bool>, now: seq<bool>, got: seq<nat>, n: nat)
    requires LowestTaken(was, now, got) && got != [] && |got| <= n
    requires |got| < n ==> forall f :: 0 <= f < FRAMES ==> now[f]
    ensures StretchFree(was, got[0], n) <==> forall f :: f in got <==> InStretch(got[0], n, f)
  {
    if StretchFree(was, got[0], n) {
      forall i | 0 <= i < |got| ensures got[i] == got[0] + i {
        Consecutive(was, now, got, n, i);
      }
      forall f | InStretch(got[0], n, f) ensures f in got {
        if |got| == n {
          assert got[f - got[0]] == f;
        } else {
          assert now[f] && !was[f];
        }
      }
    }
  }

  /** Exec that fails before it has allocated anything else gives back the frame bitmap it found exactly if the
      stretch was free. */
  lemma Restored(was: seq<bool>, now: seq<bool>, got: seq<nat>, n: nat, after: seq<bool>)
    requires LowestTaken(was, now, got) && got != [] && |got| <= n && |after| == FRAMES
    requires |got| < n ==> forall f :: 0 <= f < FRAMES ==> now[f]
    requires forall f :: 0 <= f < FRAMES ==> (after[f] <==> now[f] && !InStretch(got[0], n, f))
    ensures after == was <==> StretchFree(was, got[0], n)
  {
    BufferIsStretch(was, now, got, n);
    if !StretchFree(was, got[0], n) {
      var f :| InStretch(got[0], n, f) && was[f];
      assert !after[f];
    }
  }

  /** Frames 1 and 3 are free and nothing else is. */
  function Gap(): (used: seq<bool>)
    ensures |used| == FRAMES && forall f :: 0 <= f < FRAMES ==> (used[f] <==> f != 1 && f != 3)
  {
    seq(FRAMES, f => f != 1 && f != 3)
  }

  /** It is not always free: a buffer of two frames taken from `Gap` starts at frame 1, so frame 2 is released
      although it was in use before, and frame 3 never is. */
  lemma GapMissed(after: seq<bool>)
    requires |after| == FRAMES
    requires forall f :: 0 <= f < FRAMES ==> (after[f] <==> Gap()[1 := true][3 := true][f] && !InStretch(1, 2, f))
    ensures LowestTaken(Gap(), Gap()[1 := true][3 := true], [1, 3])
    ensures Gap()[2] && !after[2] && !Gap()[3] && after[3]
  {
    assert InStretch(1, 2, 2) && !InStretch(1, 2, 3);
    assert [1, 3][1] == 3 && [1, 3][0] == 1;
  }

  /** Released later, when `now` may hold more frames but has lost none, the buffer and nothing else is freed
      exactly if the stretch was free. */
  lemma ReleasedAlone(was: seq<bool>, taken: seq<bool>, got: seq<nat>, n: nat, now: seq<bool>, after: seq<bool>)
    requires LowestTaken(was, taken, got) && got != [] && |got| == n && |now| == |after| == FRAMES
    requires forall f :: 0 <= f < FRAMES && taken[f] ==> now[f]
    requires forall f :: 0 <= f < FRAMES ==> (after[f] <==> now[f] && !InStretch(got[0], n, f))
    ensures StretchFree(was, got[0], n) <==> forall f :: 0 <= f < FRAMES ==> (after[f] <==> now[f] && f !in got)
  {
    BufferIsStretch(was, taken, got, n);
    if !StretchFree(was, got[0], n) {
      var f :| InStretch(got[0], n, f) && was[f];
      assert taken[f] && now[f] && !after[f] && f !in got;
    }
  }

  /** Releasing the stretch keeps the ownership invariant exactly if no address space uses a frame of it. */
  lemma StillOwned(used: seq<bool>, mem: Memory, own: map<nat, Owner>, kernel: seq<Word>, base: nat, n: nat,
                   after: seq<bool>)
    requires Inv(used, mem, own, kernel) && base > 0 && |after| == FRAMES
    requires forall f :: 0 <= f < FRAMES ==> (after[f] <==> used[f] && !InStretch(base, n, f))
    ensures Inv(after, mem, own, kernel) <==> forall f :: InStretch(base, n, f) ==> f !in own
  {
    if f :| InStretch(base, n, f) && f in own {
      assert !after[f];
    }
  }

  // ------------------------------------------------------------------ a half-built space

  /** Frame `f` belongs to the address space of directory `n`. */
  ghost predicate Part(own: map<nat, Owner>, n: nat, f: nat) {
    f in own &&
    match own[f]
    case Dir => f == n
    case Table(d, _) => d == n
    case Leaf(t, _) => t in own && own[t].Table? && own[t].dir == n
  }

  /** The places of the other address spaces. */
  ghost function Without(own: map<nat, Owner>, n: nat): map<nat, Owner> {
    map f | f in own && !Part(own, n, f) :: own[f]
  }

  lemma OthersInv(used: seq<bool>, mem: Memory, own: map<nat, Owner>, kernel: seq<Word>, n: nat)
    requires Inv(used, mem, own, kernel) && n in own && own[n].Dir?
    ensures Inv(used[n := false], mem, Without(own, n), kernel)
    ensures Spaces(mem, Without(own, n)) == Spaces(mem, own) - {n}
  {
    hide SpaceOf, Referenced, Closed;
    var own' := Without(own, n);
    forall f | f in own' ensures Referenced(mem, own', f) && Closed(mem, own', f) {
      OtherStands(used, mem, own, kernel, n, f);
    }
  }

  lemma OtherStands(used: seq<bool>, mem: Memory, own: map<nat, Owner>, kernel: seq<Word>, n: nat, f: nat)
    requires Inv(used, mem, own, kernel) && f in own && !Part(own, n, f)
    ensures Referenced(mem, Without(own, n), f) && Closed(mem, Without(own, n), f)
  {
    assert Referenced(mem, own, f) && Closed(mem, own, f);
  }

  lemma LeftBehind(used: seq<bool>, mem: Memory, own: map<nat, Owner>, kernel: seq<Word>, n: nat, reserved: set<nat>)
    requires Inv(used, mem, own, kernel) && Accounted(used, own, reserved) && n in own && own[n].Dir?
    ensures Accounted(used[n := false], Without(own, n), reserved) <==> TablesOf(own, n) == {}
  {
    hide Closed;
    forall f | f in own && Part(own, n, f) && f != n ensures TablesOf(own, n) != {} {
      var t := if own[f].Leaf? then own[f].table else f;
      assert Referenced(mem, own, t) && own[t].pde in TablesOf(own, n);
    }
    if i :| i in TablesOf(own, n) {
      var t :| t in own && own[t] == Table(n, i);
      assert used[n := false][t] && t !in Without(own, n) && t !in reserved;
    }
  }

  /** Gives up a half-built space by freeing the frame of its directory, as exec does when a segment or the stack
      cannot be mapped.  The other spaces stay as they are; nothing leaks exactly if no table had been made yet. */
  method DropSpace(m: FrameMemory, n: nat)
    requires m.Valid() && m.Balanced() && m.IsDir(n)
    modifies m`used, m`own
    ensures m.Valid() && m.View() == old(m.View()) - {n}
    ensures m.used == old(m.used)[n := false]
    ensures m.Balanced() <==> n in old(m.Tables()) && old(m.Tables())[n] == {}
  {
    OthersInv(m.used, m.mem, m.own, m.kernel, n);
    LeftBehind(m.used, m.mem, m.own, m.kernel, n, m.reserved);
    hide Inv, Accounted, Spaces, Without, TablesOf;
    m.FrameFree(n);
    m.own := Without(m.own, n);
  }

  lemma Unseen(mem: Memory, own: map<nat, Owner>, n: nat, v: nat, p: Page)
    requires Shape(mem) && (forall f :: f in own ==> f < FRAMES) && n !in own
    ensures WithPage(Spaces(mem, own)[n := map[]], n, v, p) - {n} == Spaces(mem, own)
  {
    hide SpaceOf;
  }

  /** So it does leak: a space given up after its first page has been mapped leaves frames that nothing refers to. */
  method GiveUpAfterOnePage(m: FrameMemory, va: nat, flags: nat)
    requires m.Valid() && m.Balanced() && FreeFrames(m.used) >= 3
    requires UserPage(va / 4096) && flags < 4096 && Present(flags)
    modifies m
    ensures m.Valid() && m.View() == old(m.View()) && !m.Balanced()
  {
    hide Referenced, Closed, Accounted, Spaces, WithPage, TableSets, FreeFrames;
    var n := m.NewDir();
    Unseen(old(m.mem), old(m.own), n, va / 4096, Page(flags, ZeroPage()));
    var r, _ := m.AllocAt(n, va, flags);
    DropSpace(m, n);
  }
}
