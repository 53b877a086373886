/** A task's list of recorded memory areas: an unordered array with a count. */
module VmAreas {

  const MMAP_BASE: nat := 0x40000000
  const MAX_VMA: nat := 16
  const TWO32: nat := 0x1_0000_0000

  datatype VmArea = VmArea(start: nat, end: nat, prot: nat, flags: nat)

  /** The kernel's overlap test for the range from `c` to `e`. */
  predicate Meets(c: nat, e: nat, a: VmArea) {
    c < a.end && e > a.start
  }

  /** `c` is a start whose range does not wrap and meets no area. */
  predicate Fits(areas: seq<VmArea>, c: nat, length: nat) {
    c + length < TWO32 && forall i :: 0 <= i < |areas| ==> !Meets(c, c + length, areas[i])
  }

  /** Address `x` is in area `a`. */
  predicate Inside(a: VmArea, x: int) { a.start <= x < a.end }

  /** The test is right: a range and an area, neither of them empty, meet exactly if they have an address in common. */
  lemma MeetsIff(c: nat, e: nat, a: VmArea)
    requires c < e && a.start < a.end
    ensures Meets(c, e, a) <==> exists x :: c <= x < e && Inside(a, x)
  {
    if Meets(c, e, a) {
      assert Inside(a, if c < a.start then a.start else c);
    }
  }

  /** A range fits exactly if it does not wrap and none of its addresses is in an area. */
  lemma FitsIff(areas: seq<VmArea>, c: nat, length: nat)
    requires length > 0 && forall i :: 0 <= i < |areas| ==> areas[i].start < areas[i].end
    ensures Fits(areas, c, length) <==>
              && c + length < TWO32
              && forall i, x :: 0 <= i < |areas| && c <= x < c + length ==> !Inside(areas[i], x)
  {
    forall i | 0 <= i < |areas|
      ensures Meets(c, c + length, areas[i]) <==> exists x :: c <= x < c + length && Inside(areas[i], x)
    {
      MeetsIff(c, c + length, areas[i]);
    }
  }

  predicate Disjoint(areas: seq<VmArea>) {
    forall i, j :: 0 <= i < |areas| && 0 <= j < |areas| && i != j ==>
      areas[i].end <= areas[j].start || areas[j].end <= areas[i].start
  }

  /** Areas are disjoint exactly if no address is in two of them. */
  lemma DisjointIff(areas: seq<VmArea>)
    requires forall i :: 0 <= i < |areas| ==> areas[i].start < areas[i].end
    ensures Disjoint(areas) <==>
              forall i, j, x :: 0 <= i < |areas| && 0 <= j < |areas| && i != j ==>
                !(Inside(areas[i], x) && Inside(areas[j], x))
  {
    if !Disjoint(areas) {
      var i, j :| 0 <= i < |areas| && 0 <= j < |areas| && i != j
                  && !(areas[i].end <= areas[j].start || areas[j].end <= areas[i].start);
      var x := if areas[i].start < areas[j].start then areas[j].start else areas[i].start;
      assert Inside(areas[i], x) && Inside(areas[j], x);
    }
  }

  /** `kept` lists, without repetition, exactly the indexes of the areas that do not meet the range. */
  ghost predicate Survivors(before: seq<VmArea>, after: seq<VmArea>, kept: seq<nat>, start: nat, end: nat) {
    && |kept| == |after|
    && (forall k :: 0 <= k < |kept| ==>
          kept[k] < |before| && after[k] == before[kept[k]] && !Meets(start, end, before[kept[k]]))
    && (forall k, l :: 0 <= k < l < |kept| ==> kept[k] != kept[l])
    && (forall i :: 0 <= i < |before| && !Meets(start, end, before[i]) ==> i in kept)
  }

  /** As many areas survive as do not meet the range, and they are those. */
  lemma SurvivorsAre(before: seq<VmArea>, after: seq<VmArea>, kept: seq<nat>, start: nat, end: nat)
    requires Survivors(before, after, kept, start, end)
    ensures |after| == |set i | 0 <= i < |before| && !Meets(start, end, before[i])|
    ensures forall a :: a in after <==> a in before && !Meets(start, end, a)
  {
    var spared := set i | 0 <= i < |before| && !Meets(start, end, before[i]);
    var places := set k | 0 <= k < |kept| :: kept[k];
    assert spared == places;
    Injective(kept);
    forall a | a in before && !Meets(start, end, a) ensures a in after {
      var i :| 0 <= i < |before| && before[i] == a;
      assert i in kept;
      var k :| 0 <= k < |kept| && kept[k] == i;
      assert after[k] == a;
    }
  }

  lemma {:induction false} Injective(s: seq<nat>)
    requires forall k, l :: 0 <= k < l < |s| ==> s[k] != s[l]
    ensures |set k | 0 <= k < |s| :: s[k]| == |s|
    decreases |s|
  {
    var all := set k | 0 <= k < |s| :: s[k];
    if s == [] {
      assert all == {};
    } else {
      var n := |s| - 1;
      Injective(s[..n]);
      var init := set k | 0 <= k < n :: s[..n][k];
      assert s[n] !in init;
      forall x ensures x in all <==> x in init + {s[n]} {
        if x in all {
          var k :| 0 <= k < |s| && s[k] == x;
          assert k < n ==> s[..n][k] == x;
        }
        if x in init {
          var k :| 0 <= k < n && s[..n][k] == x;
          assert s[k] == x;
        }
      }
      assert all == init + {s[n]};
    }
  }

  /** The state of the downward sweep: areas from index `i` on have been looked at and kept,
      those below are still where they were. */
  ghost predicate Sweep(before: seq<VmArea>, now: seq<VmArea>, kept: seq<nat>, i: nat, start: nat, end: nat) {
    && i <= |now| == |kept|
    && (forall k :: 0 <= k < |kept| ==> kept[k] < |before| && now[k] == before[kept[k]])
    && (forall k :: 0 <= k < i ==> kept[k] == k)
    && (forall k :: i <= k < |now| ==> !Meets(start, end, now[k]))
    && (forall k, l :: 0 <= k < l < |kept| ==> kept[k] != kept[l])
    && (forall k :: 0 <= k < |before| && !Meets(start, end, before[k]) ==> k in kept)
  }

  lemma SweepStart(before: seq<VmArea>, start: nat, end: nat)
    ensures Sweep(before, before, seq(|before|, k => k), |before|, start, end)
  {
    var kept := seq(|before|, k => k);
    forall k | 0 <= k < |before| ensures k in kept {
      assert kept[k] == k;
    }
  }

  lemma SweepPast(before: seq<VmArea>, now: seq<VmArea>, kept: seq<nat>, i: nat, start: nat, end: nat)
    requires i < |now| && Sweep(before, now, kept, i + 1, start, end) && !Meets(start, end, now[i])
    ensures Sweep(before, now, kept, i, start, end)
  {}

  /** Overwriting a met area with the last one and dropping the last one loses only the met area. */
  lemma SweepOut(before: seq<VmArea>, now: seq<VmArea>, kept: seq<nat>, i: nat, start: nat, end: nat)
    requires i < |now| && Sweep(before, now, kept, i + 1, start, end) && Meets(start, end, now[i])
    ensures var last := |now| - 1;
            Sweep(before, now[i := now[last]][..last], kept[i := kept[last]][..last], i, start, end)
  {
    var last := |now| - 1;
    var kept' := kept[i := kept[last]][..last];
    forall k | 0 <= k < |before| && !Meets(start, end, before[k]) ensures k in kept' {
      var l :| 0 <= l < |kept| && kept[l] == k;
      assert kept'[if l == last then i else l] == k;
    }
  }

  class AreaList {
    const vmas: array<VmArea>
    var count: nat

    ghost predicate Ok()
      reads this, vmas
    {
      vmas.Length == MAX_VMA && count <= MAX_VMA && forall i :: 0 <= i < count ==> vmas[i].end < TWO32
    }

    ghost function Areas(): seq<VmArea>
      requires Ok()
      reads this, vmas
    {
      vmas[..count]
    }

    constructor ()
      ensures Ok() && Areas() == [] && fresh(vmas)
    {
      vmas := new VmArea[MAX_VMA](_ => VmArea(0, 0, 0, 0));
      count := 0;
    }

    /** The lowest start at or above MMAP_BASE that fits, or 0 exactly when none does. */
    method FindGap(length: nat) returns (r: nat)
      requires Ok() && length < TWO32
      ensures r != 0 ==> MMAP_BASE <= r && Fits(Areas(), r, length)
      ensures r != 0 ==> forall c :: MMAP_BASE <= c < r ==> !Fits(Areas(), c, length)
      ensures r == 0 ==> forall c :: MMAP_BASE <= c ==> !Fits(Areas(), c, length)
      ensures r == 0 || r == MMAP_BASE || exists i :: 0 <= i < count && r == vmas[i].end
    {
      var candidate := MMAP_BASE;
      while true
        invariant MMAP_BASE <= candidate < TWO32
        invariant candidate == MMAP_BASE || exists i :: 0 <= i < count && candidate == vmas[i].end
        invariant forall c :: MMAP_BASE <= c < candidate ==> !Fits(Areas(), c, length)
        decreases TWO32 - candidate
      {
        var end := (candidate + length) % TWO32;
        if end < candidate {
          return 0;
        }
        var i := 0;
        while i < count && !Meets(candidate, end, vmas[i])
          invariant 0 <= i <= count
          invariant forall k :: 0 <= k < i ==> !Meets(candidate, end, vmas[k])
        {
          i := i + 1;
        }
        if i == count {
          return candidate;
        }
        assert Areas()[i] == vmas[i];
        candidate := vmas[i].end;
        if (candidate + length) % TWO32 < candidate {
          return 0;
        }
      }
    }

    method Add(start: nat, end: nat, prot: nat, flags: nat) returns (ok: bool)
      requires Ok() && end < TWO32
      modifies this, vmas
      ensures Ok()
      ensures ok <==> old(count) < MAX_VMA
      ensures Areas() == if ok then old(Areas()) + [VmArea(start, end, prot, flags)] else old(Areas())
    {
      if count >= MAX_VMA {
        return false;
      }
      vmas[count] := VmArea(start, end, prot, flags);
      count := count + 1;
      return true;
    }

    /** Removes the areas that meet the range, filling each hole with the last area; what is
        left is exactly the areas that do not meet it. */
    method Remove(start: nat, end: nat) returns (ghost kept: seq<nat>)
      requires Ok()
      modifies this, vmas
      ensures Ok() && Survivors(old(Areas()), Areas(), kept, start, end)
    {
      kept := seq(count, k => k);
      SweepStart(Areas(), start, end);
      var i: nat := count;
      while i > 0
        invariant Ok() && Sweep(old(Areas()), Areas(), kept, i, start, end)
      {
        i := i - 1;
        kept := RemoveIfMet(i, start, end, old(Areas()), kept);
      }
    }

    method RemoveIfMet(i: nat, start: nat, end: nat, ghost before: seq<VmArea>, ghost was: seq<nat>)
      returns (ghost kept: seq<nat>)
      requires Ok() && i < count && Sweep(before, Areas(), was, i + 1, start, end)
      modifies this, vmas
      ensures Ok() && Sweep(before, Areas(), kept, i, start, end)
    {
      var v := vmas[i];
      kept := was;
      if start >= v.end || end <= v.start {
        SweepPast(before, Areas(), kept, i, start, end);
        return;
      }
      ghost var now := Areas();
      SweepOut(before, now, kept, i, start, end);
      RemoveAt(i);
      kept := kept[i := kept[|now| - 1]][..|now| - 1];
      assert Areas() == now[i := now[|now| - 1]][..|now| - 1];
    }

    /** Clears slot `i` and moves the last area into it. */
    method RemoveAt(i: nat)
      requires Ok() && i < count
      modifies this, vmas
      ensures Ok() && Areas() == old(Areas())[i := old(vmas[count - 1])][..old(count) - 1]
    {
      vmas[i] := VmArea(0, 0, 0, 0);
      vmas[i] := vmas[count - 1];
      count := count - 1;
    }

    method UpdateProt(start: nat, end: nat, prot: nat)
      requires Ok()
      modifies vmas
      ensures Ok() && count == old(count)
      ensures forall i :: 0 <= i < count ==>
                vmas[i] == if Meets(start, end, old(vmas[i])) then old(vmas[i]).(prot := prot) else old(vmas[i])
    {
      for i := 0 to count
        invariant Ok() && count == old(count)
        invariant forall k :: 0 <= k < i ==>
                    vmas[k] == if Meets(start, end, old(vmas[k])) then old(vmas[k]).(prot := prot) else old(vmas[k])
        invariant forall k :: i <= k < count ==> vmas[k] == old(vmas[k])
      {
        if start < vmas[i].end && end > vmas[i].start {
          vmas[i] := vmas[i].(prot := prot);
        }
      }
    }
  }

  /** Adding an area where one fits, and removing areas, keep the list disjoint. */
  lemma AddKeepsDisjoint(areas: seq<VmArea>, a: VmArea)
    requires Disjoint(areas) && a.start < a.end
    requires forall i :: 0 <= i < |areas| ==> areas[i].start < areas[i].end && !Meets(a.start, a.end, areas[i])
    ensures Disjoint(areas + [a])
  {}

  lemma RemoveKeepsDisjoint(before: seq<VmArea>, after: seq<VmArea>, kept: seq<nat>, start: nat, end: nat)
    requires Disjoint(before) && Survivors(before, after, kept, start, end)
    ensures Disjoint(after)
  {
    forall i, j | 0 <= i < |after| && 0 <= j < |after| && i != j
      ensures after[i].end <= after[j].start || after[j].end <= after[i].start
    {
      assert kept[i] != kept[j];
    }
  }
}
