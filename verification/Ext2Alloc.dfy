/** The ext2 block allocator: one bitmap and one free count per group on a device whose
    operations may fail, and a free count in the superblock. */
module Ext2Alloc {
  import opened Division

  /** What the device does with one operation: carries it out, refuses it, or reports a
      failure after the sectors that matter have already been written. */
  datatype Fate = Done | Refused | Torn

  /** The fate of operation `k` from now on. */
  function FateAt(fates: seq<Fate>, k: nat): Fate { if k < |fates| then fates[k] else Done }

  /** The fates after the next `k` operations. */
  function Left(fates: seq<Fate>, k: nat): seq<Fate> { if k <= |fates| then fates[k..] else [] }

  lemma LeftLeft(fates: seq<Fate>, m: nat, k: nat)
    ensures Left(Left(fates, m), k) == Left(fates, m + k) && FateAt(Left(fates, m), k) == FateAt(fates, m + k)
  {}

  predicate AllDone(fates: seq<Fate>, n: nat) { forall k :: 0 <= k < n ==> FateAt(fates, k) == Done }

  lemma NoFates(fates: seq<Fate>)
    requires fates == []
    ensures forall k: nat :: Left(fates, k) == [] && FateAt(fates, k) == Done
  {}

  /** The search takes a bit of a group exactly if descriptor and bitmap can be read, the count is not 0 and one of the
      first `n` bits is clear. */
  predicate Offers(bits: seq<bool>, n: nat, count: nat, fates: seq<Fate>)
    requires n <= |bits|
  {
    FateAt(fates, 0) == Done && count != 0 && FateAt(fates, 1) == Done && exists k :: 0 <= k < n && !bits[k]
  }

  /** The fates left for group `g` when no earlier group has offered anything: one operation goes into a group that
      cannot be read or is counted full, two into any other. */
  function Passed(free: seq<nat>, fates: seq<Fate>, g: nat): seq<Fate>
    requires g <= |free|
  {
    if g == 0 then fates else
    var f := Passed(free, fates, g - 1);
    Left(f, if FateAt(f, 0) == Done && free[g - 1] != 0 then 2 else 1)
  }

  /** Bit `i` is the first clear one of the first `n`. */
  predicate FirstZero(bits: seq<bool>, n: nat, i: nat)
    requires n <= |bits|
  {
    i < n && !bits[i] && forall k :: 0 <= k < i ==> bits[k]
  }

  /** A device without failures to come. */
  lemma {:induction false} DoneAlways(free: seq<nat>, g: nat)
    requires g <= |free|
    ensures Passed(free, [], g) == [] && AllDone(Left([], 2), 3) && FateAt(Left([], 2), 0) == Done
  {
    if g > 0 {
      DoneAlways(free, g - 1);
    }
  }

  lemma OneZero(bits: seq<bool>, n: nat, i: nat, k: nat)
    requires n <= |bits| && FirstZero(bits, n, i) && FirstZero(bits, n, k)
    ensures i == k
  {}

  /** Clear bits among the first `n`. */
  ghost function Clear(bits: seq<bool>, n: nat): nat
    requires n <= |bits|
  {
    if n == 0 then 0 else Clear(bits, n - 1) + if bits[n - 1] then 0 else 1
  }

  lemma {:induction false} ClearSet(bits: seq<bool>, n: nat, i: nat)
    requires n <= |bits| && i < |bits| && !bits[i]
    ensures Clear(bits, n) == Clear(bits[i := true], n) + if i < n then 1 else 0
  {
    if n > 0 {
      ClearSet(bits, n - 1, i);
    }
  }

  lemma {:induction false} ClearZero(bits: seq<bool>, n: nat)
    requires n <= |bits|
    ensures Clear(bits, n) == 0 <==> forall i :: 0 <= i < n ==> bits[i]
    ensures Clear(bits, n) <= n
  {
    if n > 0 {
      ClearZero(bits, n - 1);
    }
  }

  /** Sum of the free counts of the first `n` groups. */
  ghost function Sum(counts: seq<nat>, n: nat): nat
    requires n <= |counts|
  {
    if n == 0 then 0 else Sum(counts, n - 1) + counts[n - 1]
  }

  lemma {:induction false} SumChange(counts: seq<nat>, n: nat, g: nat, c: nat)
    requires n <= |counts| && g < |counts|
    ensures Sum(counts[g := c], n) == Sum(counts, n) + if g < n then c - counts[g] else 0
  {
    if n > 0 {
      SumChange(counts, n - 1, g, c);
    }
  }

  lemma {:induction false} SumAtLeast(counts: seq<nat>, n: nat, g: nat)
    requires g < n <= |counts|
    ensures counts[g] <= Sum(counts, n)
  {
    if g < n - 1 {
      SumAtLeast(counts, n - 1, g);
    }
  }

  /** Each group's free count is the number of clear bits that stand for blocks. */
  ghost predicate Agree(maps: seq<seq<bool>>, limits: seq<nat>, counts: seq<nat>) {
    && |maps| == |limits| == |counts|
    && forall g :: 0 <= g < |maps| ==> limits[g] <= |maps[g]| && counts[g] == Clear(maps[g], limits[g])
  }

  /** Marking a clear bit lowers its group's count by one, and so the sum. */
  lemma AgreeTake(maps: seq<seq<bool>>, limits: seq<nat>, counts: seq<nat>, g: nat, i: nat)
    requires Agree(maps, limits, counts) && g < |maps| && i < limits[g] && !maps[g][i]
    ensures 0 < counts[g] <= Sum(counts, |counts|)
    ensures Agree(maps[g := maps[g][i := true]], limits, counts[g := counts[g] - 1])
    ensures Sum(counts[g := counts[g] - 1], |counts|) == Sum(counts, |counts|) - 1
  {
    hide Clear;
    hide Sum;
    ClearSet(maps[g], limits[g], i);
    SumChange(counts, |counts|, g, counts[g] - 1);
    SumAtLeast(counts, |counts|, g);
  }

  lemma AgreeFree(maps: seq<seq<bool>>, limits: seq<nat>, counts: seq<nat>, g: nat, i: nat)
    requires Agree(maps, limits, counts) && g < |maps| && i < limits[g] && maps[g][i]
    ensures counts[g] < limits[g]
    ensures Agree(maps[g := maps[g][i := false]], limits, counts[g := counts[g] + 1])
    ensures Sum(counts[g := counts[g] + 1], |counts|) == Sum(counts, |counts|) + 1
  {
    hide Clear;
    hide Sum;
    ClearUnset(maps[g], limits[g], i);
    SumChange(counts, |counts|, g, counts[g] + 1);
  }

  /** Clearing a clear bit and changing its group's count puts them out of step. */
  lemma FreedTwice(maps: seq<seq<bool>>, limits: seq<nat>, counts: seq<nat>, g: nat, i: nat, c: nat)
    requires Agree(maps, limits, counts) && g < |maps| && i < limits[g] && !maps[g][i] && c != counts[g]
    ensures !Agree(maps[g := maps[g][i := false]], limits, counts[g := c])
  {
    assert maps[g][i := false] == maps[g];
  }

  lemma ClearUnset(bits: seq<bool>, n: nat, i: nat)
    requires i < n <= |bits| && bits[i]
    ensures Clear(bits[i := false], n) == Clear(bits, n) + 1 <= n
  {
    assert bits[i := false][i := true] == bits;
    ClearSet(bits[i := false], n, i);
    ClearZero(bits[i := false], n);
  }

  lemma {:induction false} AgreeSum(maps: seq<seq<bool>>, limits: seq<nat>, counts: seq<nat>, n: nat)
    requires Agree(maps, limits, counts) && n <= |counts|
    ensures Sum(counts, n) <= Sum(limits, n)
  {
    if n > 0 {
      ClearZero(maps[n - 1], limits[n - 1]);
      AgreeSum(maps, limits, counts, n - 1);
    }
  }

  /** The first clear bit among the first `n`, or `n`. */
  method FirstClear(bits: seq<bool>, n: nat) returns (i: nat)
    requires n <= |bits|
    ensures i <= n && (i < n ==> !bits[i]) && forall k :: 0 <= k < i ==> bits[k]
  {
    i := 0;
    while i < n
      invariant i <= n && forall k :: 0 <= k < i ==> bits[k]
    {
      if !bits[i] {
        return;
      }
      i := i + 1;
    }
  }

  function GroupCount(blocks: nat, perGroup: nat): int
    requires perGroup > 0
  {
    (blocks + perGroup - 1) / perGroup
  }

  /** The bit of block `b` is there and set. */
  predicate BitSet(maps: seq<seq<bool>>, perGroup: nat, b: nat)
    requires perGroup > 0
  {
    var g, i := b / perGroup, b % perGroup;
    0 <= g < |maps| && 0 <= i < |maps[g]| && maps[g][i]
  }

  class Allocator {
    const perGroup: nat          // blocks in a group
    const total: nat             // blocks on the device
    const groups: nat            // number of groups
    var bitmaps: seq<seq<bool>>  // on the device: the block bitmap of each group
    var free: seq<nat>           // on the device: the free count of each group, 16 bits
    var sbFree: nat              // in memory: the superblock's free count, 32 bits
    var fates: seq<Fate>         // what the next operations will do; afterwards all succeed
    ghost var held: set<nat>     // blocks handed out and not yet freed

    /** Mounting an image: `inUse` are the blocks that files on it already hold. */
    constructor (blocksPerGroup: nat, blocks: nat, maps: seq<seq<bool>>, counts: seq<nat>, sbCount: nat,
                 outcomes: seq<Fate>, ghost inUse: set<nat>)
      requires 0 < blocksPerGroup <= 32768 && 0 < blocks < 0x1_0000_0000
      requires |maps| == |counts| == GroupCount(blocks, blocksPerGroup) && sbCount < 0x1_0000_0000
      requires forall g :: 0 <= g < |maps| ==> |maps[g]| == blocksPerGroup && counts[g] < 65536
      requires forall b :: b in inUse ==> 0 < b < blocks && BitSet(maps, blocksPerGroup, b)
      ensures Valid() && held == inUse && bitmaps == maps && free == counts && sbFree == sbCount && fates == outcomes
      ensures perGroup == blocksPerGroup && total == blocks
    {
      perGroup, total := blocksPerGroup, blocks;
      groups := GroupCount(blocks, blocksPerGroup);
      bitmaps, free, sbFree, fates, held := maps, counts, sbCount, outcomes, inUse;
      new;
      RoundedUp(perGroup, total);
    }

    ghost predicate Sized() {
      && 0 < perGroup <= 32768 && 0 < total < 0x1_0000_0000
      && 0 < groups && (groups - 1) * perGroup < total <= groups * perGroup
    }

    /** How many bits of group `g` stand for blocks. */
    function Bits(g: nat): (n: nat)
      requires Sized() && g < groups
      ensures n <= perGroup && g * perGroup + n <= total
    {
      if g == groups - 1 then
        assert groups * perGroup == (groups - 1) * perGroup + perGroup;
        total - g * perGroup
      else
        MulMono(g + 1, groups - 1, perGroup);
        assert (g + 1) * perGroup == g * perGroup + perGroup;
        perGroup
    }

    ghost function Limits(): (ls: seq<nat>)
      requires Sized()
      ensures |ls| == groups && forall g :: 0 <= g < groups ==> ls[g] == Bits(g)
    {
      seq(groups, g requires 0 <= g < groups => Bits(g))
    }

    lemma {:induction false} LimitSum(n: nat)
      requires Sized() && n <= groups
      ensures Sum(Limits(), n) == if n == groups then total else n * perGroup
    {
      if n > 0 {
        LimitSum(n - 1);
        assert n * perGroup == (n - 1) * perGroup + perGroup;
      }
    }

    lemma Locate(n: nat)
      requires Sized() && n < total
      ensures 0 <= n / perGroup < groups && 0 <= n % perGroup < Bits(n / perGroup)
      ensures n / perGroup * perGroup + n % perGroup == n
    {
      DivModBack(perGroup, n);
      DivBelow(perGroup, groups - 1, n);
    }

    lemma InRange(n: nat)
      requires Sized() && n < total
      ensures 0 <= n / perGroup < groups && 0 <= n % perGroup < Bits(n / perGroup)
    {
      hide Allocator.Bits;
      hide Allocator.Sized;
      Locate(n);
    }

    lemma Number(g: nat, i: nat)
      requires Sized() && g < groups && i < Bits(g)
      ensures g * perGroup + i < total
      ensures (g * perGroup + i) / perGroup == g && (g * perGroup + i) % perGroup == i
    {
      DivMod(perGroup, g, i);
    }

    /** The bit of block `n`. */
    ghost predicate Used(n: nat)
      requires Shape()
      reads this
    {
      BitAt(bitmaps, n)
    }

    /** The blocks that are not free. */
    ghost function UsedSet(): set<nat>
      requires Shape()
      reads this
    {
      set n | 0 <= n < total && Used(n)
    }

    /** The blocks that could still be handed out. */
    ghost function FreeSet(): set<nat>
      requires Shape()
      reads this
    {
      set n | 0 <= n < total && !Used(n)
    }

    ghost predicate BitAt(maps: seq<seq<bool>>, n: nat)
      requires Sized() && Maps(maps)
    {
      n / perGroup < groups && maps[n / perGroup][n % perGroup]
    }

    ghost predicate Maps(maps: seq<seq<bool>>) {
      |maps| == groups && forall g :: 0 <= g < groups ==> |maps[g]| == perGroup
    }

    /** Setting a bit is seen at its block number and nowhere else. */
    lemma Marked(was: seq<seq<bool>>, g: nat, i: nat, n: nat)
      requires Sized() && Maps(was) && g < groups && i < Bits(g)
      ensures g * perGroup + i < total
      ensures BitAt(was, g * perGroup + i) == was[g][i]
      ensures BitAt(was[g := was[g][i := true]], n) <==> BitAt(was, n) || n == g * perGroup + i
    {
      Number(g, i);
      DivModBack(perGroup, n);
    }

    lemma MarkedAll(maps: seq<seq<bool>>, g: nat, i: nat)
      requires Sized() && Maps(maps) && g < groups && i < Bits(g)
      ensures g * perGroup + i < total && BitAt(maps, g * perGroup + i) == maps[g][i]
      ensures forall n: nat :: BitAt(maps[g := maps[g][i := true]], n) <==> BitAt(maps, n) || n == g * perGroup + i
    {
      forall n: nat {
        Marked(maps, g, i, n);
      }
      Marked(maps, g, i, 0);
    }

    lemma LowestAll(maps: seq<seq<bool>>, g: nat, i: nat)
      requires Sized() && Maps(maps) && g < groups && i < Bits(g)
      requires forall h, k :: 0 <= h < g && 0 <= k < Bits(h) ==> maps[h][k]
      requires forall k :: 0 <= k < i ==> maps[g][k]
      ensures forall n :: 0 <= n < g * perGroup + i ==> BitAt(maps, n)
    {
      forall n | 0 <= n < g * perGroup + i ensures BitAt(maps, n) {
        Lowest(maps, g, i, n);
      }
    }

    lemma AllUsed(maps: seq<seq<bool>>)
      requires Sized() && Maps(maps)
      requires forall h, k :: 0 <= h < groups && 0 <= k < Bits(h) ==> maps[h][k]
      ensures forall n :: 0 <= n < total ==> BitAt(maps, n)
    {
      forall n | 0 <= n < total ensures BitAt(maps, n) {
        Locate(n);
      }
    }

    /** If every earlier bit is set, every lower block is used. */
    lemma Lowest(was: seq<seq<bool>>, g: nat, i: nat, n: nat)
      requires Sized() && Maps(was) && g < groups && i < Bits(g) && n < g * perGroup + i
      requires forall h, k :: 0 <= h < g && 0 <= k < Bits(h) ==> was[h][k]
      requires forall k :: 0 <= k < i ==> was[g][k]
      ensures BitAt(was, n)
    {
      Number(g, i);
      Locate(n);
      BelowPair(perGroup, g, i, n);
    }

    ghost predicate Shape()
      reads this
    {
      && Sized()
      && Maps(bitmaps) && |free| == groups
      && (forall g :: 0 <= g < groups ==> free[g] < 65536)
      && sbFree < 0x1_0000_0000
    }

    /** Every block handed out has its bit set, whatever the device did. */
    ghost predicate Valid()
      reads this
    {
      Shape() && forall n :: n in held ==> 0 < n < total && Used(n)
    }

    /** The redundant counters agree with the bitmaps. */
    ghost predicate Consistent()
      requires Shape()
      reads this
    {
      Agree(bitmaps, Limits(), free) && sbFree == Sum(free, groups)
    }

    /** The device works and the file system on it is in order. */
    ghost predicate Healthy()
      requires Shape()
      reads this
    {
      fates == [] && Consistent() && Used(0)
    }

    // -------------------------------------------------------------- device

    method NextFate() returns (f: Fate)
      modifies this`fates
      ensures f == FateAt(old(fates), 0) && fates == Left(old(fates), 1)
    {
      f := Done;
      if fates != [] {
        f := fates[0];
        fates := fates[1..];
      }
    }

    method Read() returns (ok: bool)
      modifies this`fates
      ensures (ok <==> FateAt(old(fates), 0) == Done) && fates == Left(old(fates), 1)
    {
      var f := NextFate();
      ok := f == Done;
    }

    method WriteBitmap(g: nat, bits: seq<bool>) returns (ok: bool)
      requires Shape() && g < groups && |bits| == perGroup
      modifies this`fates, this`bitmaps
      ensures Shape() && (ok <==> FateAt(old(fates), 0) == Done) && fates == Left(old(fates), 1)
      ensures bitmaps == if FateAt(old(fates), 0).Refused? then old(bitmaps) else old(bitmaps)[g := bits]
    {
      var f := NextFate();
      ok := f == Done;
      if !f.Refused? {
        bitmaps := bitmaps[g := bits];
      }
    }

    /** Read, patch and write back the descriptor of group `g`. */
    method WriteFree(g: nat, c: nat) returns (ok: bool)
      requires Shape() && g < groups && c < 65536
      modifies this`fates, this`free
      ensures Shape() && (ok <==> FateAt(old(fates), 0) == Done && FateAt(old(fates), 1) == Done)
      ensures fates == Left(old(fates), if FateAt(old(fates), 0) == Done then 2 else 1)
      ensures free == if FateAt(old(fates), 0) == Done && !FateAt(old(fates), 1).Refused? then old(free)[g := c]
                      else old(free)
    {
      LeftLeft(fates, 1, 0);
      LeftLeft(fates, 1, 1);
      ok := Read();
      if ok {
        var f := NextFate();
        ok := f == Done;
        if !f.Refused? {
          free := free[g := c];
        }
      }
    }

    // -------------------------------------------------------------- allocation

    /** Marks bit `i` of group `g`, then lowers both counters; gives up at the first failure. */
    method Take(g: nat, i: nat) returns (b: nat)
      requires Valid() && g < groups && i < Bits(g) && !bitmaps[g][i] && free[g] > 0
      modifies this
      ensures Valid() && (old(fates) == [] ==> fates == [])
      ensures bitmaps == if FateAt(old(fates), 0).Refused? then old(bitmaps)
                         else old(bitmaps)[g := old(bitmaps[g])[i := true]]
      ensures held == if b == 0 then old(held) else old(held) + {b}
      ensures b == if AllDone(old(fates), 3) then g * perGroup + i else 0
      ensures sbFree == if AllDone(old(fates), 3) then (old(sbFree) + 0xFFFF_FFFF) % 0x1_0000_0000 else old(sbFree)
      ensures free == if AllDone(old(fates), 2) && !FateAt(old(fates), 2).Refused?
                      then old(free)[g := old(free[g]) - 1] else old(free)
      ensures old(fates) == [] && old(Consistent()) ==> Consistent()
    {
      hide Allocator.BitAt, Allocator.Bits, Allocator.Limits, Clear, Sum, Left, FateAt, Agree;
      MarkedAll(bitmaps, g, i);
      LeftLeft(fates, 1, 0);
      LeftLeft(fates, 1, 1);
      if fates == [] {
        NoFates(fates);
      }
      var ok := WriteBitmap(g, bitmaps[g][i := true]);
      if !ok {
        return 0;
      }
      ok := WriteFree(g, free[g] - 1);
      if !ok {
        return 0;
      }
      sbFree := (sbFree + 0xFFFF_FFFF) % 0x1_0000_0000;
      var _ := NextFate();
      b := g * perGroup + i;
      if b != 0 {
        held := held + {b};
      }
      if old(fates) == [] && old(Consistent()) {
        AgreeTake(old(bitmaps), Limits(), old(free), g, i);
      }
    }

    /** Looks for a block in group `g`.  `stop` says the search is over, with block `b` or, when
        `b` is 0, in failure. */
    method TryGroup(g: nat) returns (stop: bool, b: nat, ghost i: nat)
      requires Valid() && g < groups
      modifies this
      ensures Valid() && (old(fates) == [] ==> fates == [])
      ensures !stop ==> b == 0 && bitmaps == old(bitmaps) && free == old(free) && sbFree == old(sbFree)
      ensures !stop ==> held == old(held)
      ensures !stop && old(fates) == [] && old(Consistent()) ==> forall k :: 0 <= k < Bits(g) ==> bitmaps[g][k]
      ensures stop <==> Offers(old(bitmaps[g]), Bits(g), old(free[g]), old(fates))
      ensures !stop ==> fates == Left(old(fates), if FateAt(old(fates), 0) == Done && old(free[g]) != 0 then 2 else 1)
      ensures stop ==> FirstZero(old(bitmaps[g]), Bits(g), i)
      ensures stop ==> bitmaps == if FateAt(old(fates), 2).Refused? then old(bitmaps)
                                  else old(bitmaps)[g := old(bitmaps[g])[i := true]]
      ensures stop ==> b == if AllDone(Left(old(fates), 2), 3) then g * perGroup + i else 0
      ensures held == if b == 0 then old(held) else old(held) + {b}
      ensures stop && old(fates) == [] && old(Consistent()) ==> Consistent()
    {
      LeftLeft(fates, 1, 0);
      LeftLeft(fates, 1, 1);
      LeftLeft(fates, 2, 0);
      b, i := 0, 0;
      var ok := Read();
      if !ok {
        return false, 0, 0;
      }
      ClearZero(bitmaps[g], Bits(g));
      if free[g] == 0 {
        return false, 0, 0;
      }
      ok := Read();
      if !ok {
        return false, 0, 0;
      }
      var k := FirstClear(bitmaps[g], Bits(g));
      if k == Bits(g) {
        return false, 0, 0;
      }
      b := Take(g, k);
      return true, b, k;
    }

    /** A block that nobody holds, or 0.  On a healthy device it is the lowest free block, and
        0 means that no block is free.  Whatever the device does, it is the first clear bit of the first group that
        offers one, if the three writes that matter succeed, a block is never handed out twice and no set bit is
        cleared. */
    method AllocBlock() returns (b: nat)
      requires Valid()
      modifies this
      ensures Valid() && (old(fates) == [] ==> fates == [])
      ensures b == 0 ==> held == old(held)
      ensures b != 0 ==> b < total && b !in old(held) && !old(Used(b)) && held == old(held) + {b}
      ensures forall n :: 0 <= n < total && old(Used(n)) ==> Used(n)
      ensures old(Healthy()) ==> Healthy() && (b == 0 <==> forall n :: 0 <= n < total ==> old(Used(n)))
      ensures old(Healthy()) && b != 0 ==> forall n :: 0 <= n < b ==> old(Used(n))
      ensures old(Healthy()) ==> forall n :: 0 <= n < total ==> (Used(n) <==> old(Used(n)) || (b != 0 && n == b))
      ensures b != 0 ==> b !in old(UsedSet())
      ensures old(Healthy()) ==> (b == 0 <==> old(FreeSet()) == {}) && (b != 0 ==> b in old(FreeSet()))
      ensures old(Healthy()) ==> FreeSet() == if b != 0 then old(FreeSet()) - {b} else old(FreeSet())
      ensures old(Healthy()) ==> UsedSet() == if b != 0 then old(UsedSet()) + {b} else old(UsedSet())
      ensures Searched(old(bitmaps), old(free), old(fates), bitmaps, b)
    {
      hide Allocator.BitAt, Allocator.Bits, Allocator.Limits, Allocator.FirstOffer, Allocator.NoOffer;
      hide Allocator.Searched, Clear, Sum, Offers, Passed, Left, FateAt, AllDone;
      ghost var g, i;
      b, g, i := Search();
      FoundOnce(old(bitmaps), old(free), old(fates), bitmaps, b, g, i);
      if g < groups {
        MarkedAll(old(bitmaps), g, i);
        if old(Healthy()) {
          DoneAlways(old(free), g);
          LowestAll(old(bitmaps), g, i);
        }
      } else if old(Healthy()) {
        AllUsed(bitmaps);
      }
    }

    /** The outcome of a search, told from the bitmaps, the counts and the fates before it: the first clear bit of the
        first group that offers one is set unless the write is refused, and returned if that write and the two
        operations on the descriptor succeed; without such a group nothing happens. */
    ghost predicate Searched(maps: seq<seq<bool>>, counts: seq<nat>, fates: seq<Fate>, maps': seq<seq<bool>>, b: nat)
      requires Sized() && Maps(maps) && |counts| == groups
    {
      && (forall g: nat, i: nat ::
            g < groups && FirstOffer(maps, counts, fates, g) && FirstZero(maps[g], Bits(g), i) ==>
              var f := Left(Passed(counts, fates, g), 2);
              && b == (if AllDone(f, 3) then g * perGroup + i else 0)
              && maps' == if FateAt(f, 0).Refused? then maps else maps[g := maps[g][i := true]])
      && ((forall g: nat :: !FirstOffer(maps, counts, fates, g)) ==> b == 0 && maps' == maps)
    }

    /** Group `g` is the first to offer a bit. */
    predicate FirstOffer(maps: seq<seq<bool>>, counts: seq<nat>, fates: seq<Fate>, g: nat)
      requires Sized() && Maps(maps) && |counts| == groups
    {
      && g < groups && Offers(maps[g], Bits(g), counts[g], Passed(counts, fates, g))
      && NoOffer(maps, counts, fates, g)
    }

    /** None of the first `n` groups offers a bit. */
    predicate NoOffer(maps: seq<seq<bool>>, counts: seq<nat>, fates: seq<Fate>, n: nat)
      requires Sized() && Maps(maps) && |counts| == groups && n <= groups
    {
      forall h :: 0 <= h < n ==> !Offers(maps[h], Bits(h), counts[h], Passed(counts, fates, h))
    }

    lemma NextOffer(maps: seq<seq<bool>>, counts: seq<nat>, fates: seq<Fate>, n: nat)
      requires Sized() && Maps(maps) && |counts| == groups && n < groups && NoOffer(maps, counts, fates, n)
      ensures Offers(maps[n], Bits(n), counts[n], Passed(counts, fates, n)) ==> FirstOffer(maps, counts, fates, n)
      ensures !Offers(maps[n], Bits(n), counts[n], Passed(counts, fates, n)) ==> NoOffer(maps, counts, fates, n + 1)
      ensures var f := Passed(counts, fates, n);
              Passed(counts, fates, n + 1) == Left(f, if FateAt(f, 0) == Done && counts[n] != 0 then 2 else 1)
    {
      hide Offers;
    }

    lemma FirstPass(maps: seq<seq<bool>>, counts: seq<nat>, fates: seq<Fate>)
      requires Sized() && Maps(maps) && |counts| == groups
      ensures Passed(counts, fates, 0) == fates && NoOffer(maps, counts, fates, 0)
    {}

    lemma NoFirst(maps: seq<seq<bool>>, counts: seq<nat>, fates: seq<Fate>)
      requires Sized() && Maps(maps) && |counts| == groups && NoOffer(maps, counts, fates, groups)
      ensures forall h: nat :: !FirstOffer(maps, counts, fates, h)
    {
      hide Offers, Passed;
    }

    lemma OneOffer(maps: seq<seq<bool>>, counts: seq<nat>, fates: seq<Fate>, g: nat, h: nat)
      requires Sized() && Maps(maps) && |counts| == groups
      requires FirstOffer(maps, counts, fates, g) && FirstOffer(maps, counts, fates, h)
      ensures g == h
    {
      hide Offers, Passed;
    }

    lemma FoundOnce(maps: seq<seq<bool>>, counts: seq<nat>, fates: seq<Fate>, maps': seq<seq<bool>>, b: nat,
                    g: nat, i: nat)
      requires Sized() && Maps(maps) && |counts| == groups && g <= groups
      requires g == groups ==> maps' == maps && b == 0 && forall h: nat :: !FirstOffer(maps, counts, fates, h)
      requires g < groups ==>
                 var f := Left(Passed(counts, fates, g), 2);
                 && FirstOffer(maps, counts, fates, g) && FirstZero(maps[g], Bits(g), i)
                 && b == (if AllDone(f, 3) then g * perGroup + i else 0)
                 && maps' == if FateAt(f, 0).Refused? then maps else maps[g := maps[g][i := true]]
      ensures Searched(maps, counts, fates, maps', b)
    {
      hide Allocator.FirstOffer, Offers, FirstZero, Passed, Left, FateAt, AllDone;
      forall h: nat, k: nat | h < groups && FirstOffer(maps, counts, fates, h) && FirstZero(maps[h], Bits(h), k)
        ensures h == g && k == i
      {
        if g < groups {
          OneOffer(maps, counts, fates, g, h);
          OneZero(maps[g], Bits(g), i, k);
        }
      }
    }

    /** Goes through the groups; `g` is the one that offered bit `i`, or there is none. */
    method Search() returns (b: nat, ghost g: nat, ghost i: nat)
      requires Valid()
      modifies this
      ensures Valid() && (old(fates) == [] ==> fates == []) && g <= groups
      ensures g == groups ==> bitmaps == old(bitmaps) && free == old(free) && sbFree == old(sbFree)
      ensures g == groups ==> b == 0 && held == old(held)
      ensures g == groups ==> forall h: nat :: !FirstOffer(old(bitmaps), old(free), old(fates), h)
      ensures g < groups ==> FirstOffer(old(bitmaps), old(free), old(fates), g)
      ensures g < groups ==> FirstZero(old(bitmaps)[g], Bits(g), i)
      ensures g < groups ==>
                var f := Left(Passed(old(free), old(fates), g), 2);
                && b == (if AllDone(f, 3) then g * perGroup + i else 0)
                && bitmaps == if FateAt(f, 0).Refused? then old(bitmaps)
                              else old(bitmaps)[g := old(bitmaps)[g][i := true]]
      ensures held == if b == 0 then old(held) else old(held) + {b}
      ensures old(fates) == [] && old(Consistent()) ==> Consistent()
      ensures old(fates) == [] && old(Consistent()) ==>
                forall h, k :: 0 <= h < g && 0 <= k < Bits(h) ==> old(bitmaps)[h][k]
    {
      hide Allocator.BitAt, Allocator.Bits, Allocator.Limits, Allocator.FirstOffer, Allocator.NoOffer;
      hide Clear, Sum, Offers, FirstZero, Passed, Left, FateAt, AllDone;
      var n := 0;
      FirstPass(bitmaps, free, fates);
      while n < groups
        invariant Valid() && 0 <= n <= groups && (old(fates) == [] ==> fates == [])
        invariant bitmaps == old(bitmaps) && free == old(free) && sbFree == old(sbFree) && held == old(held)
        invariant fates == Passed(free, old(fates), n)
        invariant NoOffer(bitmaps, free, old(fates), n)
        invariant old(fates) == [] && old(Consistent()) ==>
                    forall h, k :: 0 <= h < n && 0 <= k < Bits(h) ==> bitmaps[h][k]
      {
        var stop;
        LeftLeft(fates, 2, 0);
        NextOffer(bitmaps, free, old(fates), n);
        stop, b, i := TryGroup(n);
        if stop {
          g := n;
          return;
        }
        n := n + 1;
      }
      NoFirst(bitmaps, free, old(fates));
      b, g, i := 0, groups, 0;
    }

    /** Clears the bit of a block and raises both counters, ignoring failed writes.  On a healthy device this leaves the
        counters right exactly if the block was in use and is not block 0. */
    method FreeBlock(b: nat)
      requires Valid() && b < total
      modifies this
      ensures Valid() && held == old(held) - {b} && (old(fates) == [] ==> fates == [])
      ensures forall n :: 0 <= n < total && n != b ==> (Used(n) <==> old(Used(n)))
      ensures old(Healthy()) ==> !Used(b) && UsedSet() == old(UsedSet()) - {b}
      ensures old(Healthy()) ==> (Healthy() <==> old(Used(b)) && b != 0)
      ensures !AllDone(old(fates), 2) ==> bitmaps == old(bitmaps) && free == old(free) && sbFree == old(sbFree)
      ensures AllDone(old(fates), 2) ==>
                && (Used(b) <==> old(Used(b)) && FateAt(old(fates), 2).Refused?)
                && sbFree == (old(sbFree) + 1) % 0x1_0000_0000 && 0 <= b / perGroup < |old(free)|
                && free == if FateAt(old(fates), 3) == Done && !FateAt(old(fates), 4).Refused?
                           then old(free)[b / perGroup := (old(free)[b / perGroup] + 1) % 65536] else old(free)
    {
      hide Allocator.BitAt;
      hide Allocator.Bits;
      hide Clear;
      hide Sum;
      hide Allocator.Limits;
      hide Allocator.Sized;
      InRange(b);
      LeftLeft(fates, 1, 0);
      LeftLeft(fates, 1, 1);
      LeftLeft(fates, 2, 0);
      LeftLeft(fates, 2, 1);
      LeftLeft(fates, 2, 2);
      var g, i := b / perGroup, b % perGroup;
      held := held - {b};
      var ok := Read();
      if !ok {
        return;
      }
      ok := Read();
      if !ok {
        return;
      }
      UnmarkedAll(bitmaps, b);
      ReleaseBit(b, g, i);
    }

    /** Clears bit `i` of group `g`, the bit of block `b`, and raises both counters. */
    method ReleaseBit(b: nat, g: nat, i: nat)
      requires Valid() && b !in held && b < total && g < groups && i < Bits(g) && (bitmaps[g][i] <==> Used(b))
      requires forall n: nat :: BitAt(bitmaps[g := bitmaps[g][i := false]], n) <==> BitAt(bitmaps, n) && n != b
      modifies this`bitmaps, this`free, this`sbFree, this`fates
      ensures Valid() && (old(fates) == [] ==> fates == [])
      ensures forall n :: 0 <= n < total && n != b ==> (Used(n) <==> old(Used(n)))
      ensures Used(b) <==> old(Used(b)) && FateAt(old(fates), 0).Refused?
      ensures sbFree == (old(sbFree) + 1) % 0x1_0000_0000
      ensures free == if FateAt(old(fates), 1) == Done && !FateAt(old(fates), 2).Refused?
                      then old(free)[g := (old(free)[g] + 1) % 65536] else old(free)
      ensures old(fates) == [] && old(Consistent()) ==> (Consistent() <==> old(Used(b)))
    {
      hide Allocator.BitAt;
      hide Allocator.Bits;
      hide Allocator.Sized;
      hide Clear;
      hide Sum;
      hide Allocator.Limits;
      hide Agree;
      ghost var maps := bitmaps[g := bitmaps[g][i := false]];
      LeftLeft(fates, 1, 0);
      LeftLeft(fates, 1, 1);
      var ok := WriteBitmap(g, bitmaps[g][i := false]);
      ok := WriteFree(g, (free[g] + 1) % 65536);
      sbFree := (sbFree + 1) % 0x1_0000_0000;
      var _ := NextFate();
      assert forall n: nat :: BitAt(maps, n) <==> BitAt(old(bitmaps), n) && n != b;
      assert !BitAt(maps, b);
      if old(fates) == [] && old(Consistent()) {
        assert bitmaps == maps;
        if old(bitmaps)[g][i] {
          AgreeFree(old(bitmaps), Limits(), old(free), g, i);
          FewEnough(old(free), g);
        } else {
          FreedTwice(old(bitmaps), Limits(), old(free), g, i, free[g]);
        }
      }
    }

    /** Free counts that agree with the bitmaps do not overflow their fields. */
    lemma FewEnough(was: seq<nat>, g: nat)
      requires Shape() && g < groups && |was| == groups && was[g] < Bits(g)
      requires Agree(bitmaps, Limits(), was[g := was[g] + 1])
      ensures was[g] + 1 < 65536 && Sum(was[g := was[g] + 1], groups) < 0x1_0000_0000
    {
      AgreeSum(bitmaps, Limits(), was[g := was[g] + 1], groups);
      LimitSum(groups);
    }

    lemma Unmarked(maps: seq<seq<bool>>, b: nat, n: nat)
      requires Sized() && Maps(maps) && b / perGroup < groups
      ensures BitAt(maps, b) == maps[b / perGroup][b % perGroup]
      ensures BitAt(maps[b / perGroup := maps[b / perGroup][b % perGroup := false]], n) <==> BitAt(maps, n) && n != b
    {
      DivModBack(perGroup, n);
      DivModBack(perGroup, b);
    }

    lemma UnmarkedAll(maps: seq<seq<bool>>, b: nat)
      requires Sized() && Maps(maps) && b / perGroup < groups
      ensures BitAt(maps, b) == maps[b / perGroup][b % perGroup]
      ensures forall n: nat :: BitAt(maps[b / perGroup := maps[b / perGroup][b % perGroup := false]], n) <==>
                BitAt(maps, n) && n != b
    {
      hide Allocator.BitAt;
      forall n: nat {
        Unmarked(maps, b, n);
      }
      Unmarked(maps, b, 0);
    }
  }
}
