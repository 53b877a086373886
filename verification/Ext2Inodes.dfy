/** The ext2 inode allocator: inode `n` is bit `n - 1`, and only a failed bitmap write ends an allocation. */
module Ext2Inodes {
  import opened Ext2Alloc

  class InodeAllocator {
    const bits: Allocator        // the inode bitmaps, the free counts and the device
    ghost var held: set<nat>     // inodes handed out and not yet freed

    /** Every inode handed out has its bit set, whatever the device did. */
    ghost predicate Valid()
      reads this, bits
    {
      bits.Valid() && bits.held == {} && forall n :: n in held ==> 0 < n <= bits.total && bits.Used(n - 1)
    }

    /** The device works and the counters agree with the bitmaps. */
    ghost predicate Healthy()
      requires bits.Shape()
      reads bits
    {
      bits.fates == [] && bits.Consistent()
    }

    /** Inode `n` is in use. */
    ghost predicate InUse(n: nat)
      requires bits.Shape() && n > 0
      reads bits
    {
      bits.Used(n - 1)
    }

    constructor (allocator: Allocator, ghost inUse: set<nat>)
      requires allocator.Valid() && allocator.held == {}
      requires forall n :: n in inUse ==> 0 < n <= allocator.total && allocator.Used(n - 1)
      ensures Valid() && bits == allocator && held == inUse
    {
      bits, held := allocator, inUse;
    }

    /** Lowers the counters of a group and of the device, ignoring failures. */
    method LowerCounts(g: nat)
      requires bits.Shape() && g < bits.groups && bits.free[g] > 0
      modifies bits`free, bits`sbFree, bits`fates
      ensures bits.Shape() && (old(bits.fates) == [] ==> bits.fates == [])
      ensures bits.sbFree == (old(bits.sbFree) + 0xFFFF_FFFF) % 0x1_0000_0000
      ensures bits.free == if FateAt(old(bits.fates), 0) == Done && !FateAt(old(bits.fates), 1).Refused?
                           then old(bits.free)[g := old(bits.free[g]) - 1] else old(bits.free)
    {
      var _ := bits.WriteFree(g, bits.free[g] - 1);
      bits.sbFree := (bits.sbFree + 0xFFFF_FFFF) % 0x1_0000_0000;
      var _ := bits.NextFate();
    }

    /** Marks bit `i` of group `g`, then lowers both counters; a failed counter write is ignored. */
    method Take(g: nat, i: nat) returns (n: nat)
      requires Valid() && g < bits.groups && i < bits.Bits(g) && !bits.bitmaps[g][i] && bits.free[g] > 0
      modifies this, bits
      ensures Valid() && (old(bits.fates) == [] ==> bits.fates == [])
      ensures bits.bitmaps == if FateAt(old(bits.fates), 0).Refused? then old(bits.bitmaps)
                              else old(bits.bitmaps)[g := old(bits.bitmaps[g])[i := true]]
      ensures n == if FateAt(old(bits.fates), 0) == Done then g * bits.perGroup + i + 1 else 0
      ensures held == if n == 0 then old(held) else old(held) + {n}
      ensures bits.sbFree == if n == 0 then old(bits.sbFree) else (old(bits.sbFree) + 0xFFFF_FFFF) % 0x1_0000_0000
      ensures bits.free == if AllDone(old(bits.fates), 2) && !FateAt(old(bits.fates), 2).Refused?
                           then old(bits.free)[g := old(bits.free[g]) - 1] else old(bits.free)
      ensures old(Healthy()) ==> Healthy()
    {
      hide Allocator.BitAt, Allocator.Bits, Allocator.Limits, Clear, Sum, Left, FateAt, Agree;
      bits.MarkedAll(bits.bitmaps, g, i);
      LeftLeft(bits.fates, 1, 0);
      LeftLeft(bits.fates, 1, 1);
      if bits.fates == [] {
        NoFates(bits.fates);
      }
      var ok := bits.WriteBitmap(g, bits.bitmaps[g][i := true]);
      if !ok {
        return 0;
      }
      LowerCounts(g);
      n := g * bits.perGroup + i + 1;
      held := held + {n};
      if old(Healthy()) {
        AgreeTake(old(bits.bitmaps), bits.Limits(), old(bits.free), g, i);
      }
    }

    /** Looks for an inode in group `g`; `stop` says the search is over. */
    method TryGroup(g: nat) returns (stop: bool, n: nat, ghost i: nat)
      requires Valid() && g < bits.groups
      modifies this, bits
      ensures Valid() && (old(bits.fates) == [] ==> bits.fates == [])
      ensures !stop ==> n == 0 && bits.bitmaps == old(bits.bitmaps) && bits.free == old(bits.free)
      ensures !stop ==> bits.sbFree == old(bits.sbFree)
      ensures !stop ==> held == old(held)
      ensures !stop && old(Healthy()) ==> forall k :: 0 <= k < bits.Bits(g) ==> bits.bitmaps[g][k]
      ensures stop <==> Offers(old(bits.bitmaps[g]), bits.Bits(g), old(bits.free[g]), old(bits.fates))
      ensures !stop ==>
                var read := FateAt(old(bits.fates), 0) == Done;
                bits.fates == Left(old(bits.fates), if read && old(bits.free[g]) != 0 then 2 else 1)
      ensures stop ==> FirstZero(old(bits.bitmaps[g]), bits.Bits(g), i)
      ensures stop ==> bits.bitmaps == if FateAt(old(bits.fates), 2).Refused? then old(bits.bitmaps)
                                       else old(bits.bitmaps)[g := old(bits.bitmaps[g])[i := true]]
      ensures stop ==> n == if FateAt(old(bits.fates), 2) == Done then g * bits.perGroup + i + 1 else 0
      ensures held == if n == 0 then old(held) else old(held) + {n}
      ensures stop && old(Healthy()) ==> Healthy()
    {
      hide Allocator.BitAt, Sum;
      LeftLeft(bits.fates, 1, 0);
      LeftLeft(bits.fates, 1, 1);
      LeftLeft(bits.fates, 2, 0);
      n, i := 0, 0;
      var ok := bits.Read();
      if !ok {
        return false, 0, 0;
      }
      ClearZero(bits.bitmaps[g], bits.Bits(g));
      if bits.free[g] == 0 {
        return false, 0, 0;
      }
      ok := bits.Read();
      if !ok {
        return false, 0, 0;
      }
      var k := FirstClear(bits.bitmaps[g], bits.Bits(g));
      if k == bits.Bits(g) {
        return false, 0, 0;
      }
      n := Take(g, k);
      return true, n, k;
    }

    /** The outcome of a search, told from the bitmaps, the counts and the fates before it: the first clear bit of the
        first group that offers one is set unless the write is refused, and returned if it succeeds, whatever happens
        to the counters; without such a group nothing happens. */
    ghost predicate Searched(maps: seq<seq<bool>>, counts: seq<nat>, fates: seq<Fate>, maps': seq<seq<bool>>, n: nat)
      requires bits.Sized() && bits.Maps(maps) && |counts| == bits.groups
    {
      && (forall g: nat, i: nat ::
            g < bits.groups && bits.FirstOffer(maps, counts, fates, g) && FirstZero(maps[g], bits.Bits(g), i) ==>
              var f := FateAt(Left(Passed(counts, fates, g), 2), 0);
              && n == (if f == Done then g * bits.perGroup + i + 1 else 0)
              && maps' == if f.Refused? then maps else maps[g := maps[g][i := true]])
      && ((forall g: nat :: !bits.FirstOffer(maps, counts, fates, g)) ==> n == 0 && maps' == maps)
    }

    /** Goes through the groups; `g` is the one that offered bit `i`, or there is none. */
    method Search() returns (n: nat, ghost g: nat, ghost i: nat)
      requires Valid()
      modifies this, bits
      ensures Valid() && (old(bits.fates) == [] ==> bits.fates == []) && g <= bits.groups
      ensures g == bits.groups ==> bits.bitmaps == old(bits.bitmaps) && n == 0
      ensures g == bits.groups ==>
                forall h: nat :: !bits.FirstOffer(old(bits.bitmaps), old(bits.free), old(bits.fates), h)
      ensures g < bits.groups ==> bits.FirstOffer(old(bits.bitmaps), old(bits.free), old(bits.fates), g)
      ensures g < bits.groups ==> FirstZero(old(bits.bitmaps)[g], bits.Bits(g), i)
      ensures g < bits.groups ==>
                var f := FateAt(Left(Passed(old(bits.free), old(bits.fates), g), 2), 0);
                && n == (if f == Done then g * bits.perGroup + i + 1 else 0)
                && bits.bitmaps == if f.Refused? then old(bits.bitmaps)
                                   else old(bits.bitmaps)[g := old(bits.bitmaps)[g][i := true]]
      ensures held == if n == 0 then old(held) else old(held) + {n}
      ensures old(Healthy()) ==> Healthy()
      ensures old(Healthy()) ==> forall h, k :: 0 <= h < g && 0 <= k < bits.Bits(h) ==> old(bits.bitmaps)[h][k]
    {
      hide Allocator.BitAt, Allocator.Bits, Allocator.Limits, Allocator.FirstOffer, Allocator.NoOffer;
      hide Clear, Sum, Offers, FirstZero, Passed, Left, FateAt;
      var h := 0;
      bits.FirstPass(bits.bitmaps, bits.free, bits.fates);
      while h < bits.groups
        invariant Valid() && 0 <= h <= bits.groups && (old(bits.fates) == [] ==> bits.fates == [])
        invariant bits.bitmaps == old(bits.bitmaps) && bits.free == old(bits.free) && bits.sbFree == old(bits.sbFree)
        invariant held == old(held) && bits.fates == Passed(bits.free, old(bits.fates), h)
        invariant bits.NoOffer(bits.bitmaps, bits.free, old(bits.fates), h)
        invariant old(Healthy()) ==> forall g, k :: 0 <= g < h && 0 <= k < bits.Bits(g) ==> bits.bitmaps[g][k]
      {
        var stop;
        LeftLeft(bits.fates, 2, 0);
        bits.NextOffer(bits.bitmaps, bits.free, old(bits.fates), h);
        stop, n, i := TryGroup(h);
        if stop {
          g := h;
          return;
        }
        h := h + 1;
      }
      bits.NoFirst(bits.bitmaps, bits.free, old(bits.fates));
      n, g, i := 0, bits.groups, 0;
    }

    /** An inode that nobody holds, or 0.  On a healthy device it is the lowest free inode, and 0 means that none is
        free; whatever the device does, an inode is never handed out twice. */
    method AllocInode() returns (n: nat)
      requires Valid()
      modifies this, bits
      ensures Valid() && (old(bits.fates) == [] ==> bits.fates == [])
      ensures n == 0 ==> held == old(held)
      ensures n != 0 ==> n <= bits.total && n !in old(held) && !old(InUse(n)) && held == old(held) + {n}
      ensures forall m :: 0 < m <= bits.total && old(InUse(m)) ==> InUse(m)
      ensures old(Healthy()) ==> Healthy() && (n == 0 <==> forall m :: 0 < m <= bits.total ==> old(InUse(m)))
      ensures old(Healthy()) && n != 0 ==> forall m :: 0 < m < n ==> old(InUse(m))
      ensures old(Healthy()) ==> forall m :: 0 < m <= bits.total ==> (InUse(m) <==> old(InUse(m)) || m == n)
      ensures Searched(old(bits.bitmaps), old(bits.free), old(bits.fates), bits.bitmaps, n)
    {
      hide Allocator.BitAt, Allocator.Bits, Allocator.Limits, Allocator.FirstOffer, Allocator.NoOffer;
      hide Clear, Sum, Offers, Passed, Left, FateAt, Searched;
      ghost var g, i;
      n, g, i := Search();
      FoundOnce(old(bits.bitmaps), old(bits.free), old(bits.fates), bits.bitmaps, n, g, i);
      if g < bits.groups {
        bits.MarkedAll(old(bits.bitmaps), g, i);
        if old(Healthy()) {
          DoneAlways(old(bits.free), g);
          bits.LowestAll(old(bits.bitmaps), g, i);
        }
      } else if old(Healthy()) {
        bits.AllUsed(bits.bitmaps);
      }
    }

    lemma FoundOnce(maps: seq<seq<bool>>, counts: seq<nat>, fates: seq<Fate>, maps': seq<seq<bool>>, n: nat,
                    g: nat, i: nat)
      requires bits.Sized() && bits.Maps(maps) && |counts| == bits.groups && g <= bits.groups
      requires g == bits.groups ==>
                 maps' == maps && n == 0 && forall h: nat :: !bits.FirstOffer(maps, counts, fates, h)
      requires g < bits.groups ==>
                 var f := FateAt(Left(Passed(counts, fates, g), 2), 0);
                 && bits.FirstOffer(maps, counts, fates, g) && FirstZero(maps[g], bits.Bits(g), i)
                 && n == (if f == Done then g * bits.perGroup + i + 1 else 0)
                 && maps' == if f.Refused? then maps else maps[g := maps[g][i := true]]
      ensures Searched(maps, counts, fates, maps', n)
    {
      hide Allocator.FirstOffer, Offers, FirstZero, Passed, Left, FateAt;
      forall h: nat, k: nat
        | h < bits.groups && bits.FirstOffer(maps, counts, fates, h) && FirstZero(maps[h], bits.Bits(h), k)
        ensures h == g && k == i
      {
        if g < bits.groups {
          bits.OneOffer(maps, counts, fates, g, h);
          OneZero(maps[g], bits.Bits(g), i, k);
        }
      }
    }

    /** Clears the bit of an inode and raises both counters, ignoring failed writes; number 0 is ignored.  On a healthy
        device this leaves the counters right exactly if the inode was in use. */
    method FreeInode(n: nat)
      requires Valid() && n <= bits.total
      modifies this, bits
      ensures Valid() && held == old(held) - {n} && (old(bits.fates) == [] ==> bits.fates == [])
      ensures forall m :: 0 < m <= bits.total && m != n ==> (InUse(m) <==> old(InUse(m)))
      ensures n == 0 ==> unchanged(this, bits)
      ensures n != 0 && old(Healthy()) ==> !InUse(n) && (Healthy() <==> old(InUse(n)))
      ensures !AllDone(old(bits.fates), 2) ==>
                bits.bitmaps == old(bits.bitmaps) && bits.free == old(bits.free) && bits.sbFree == old(bits.sbFree)
      ensures n != 0 && AllDone(old(bits.fates), 2) ==>
                var g := (n - 1) / bits.perGroup;
                && (InUse(n) <==> old(InUse(n)) && FateAt(old(bits.fates), 2).Refused?)
                && bits.sbFree == (old(bits.sbFree) + 1) % 0x1_0000_0000 && 0 <= g < |old(bits.free)|
                && bits.free == if FateAt(old(bits.fates), 3) == Done && !FateAt(old(bits.fates), 4).Refused?
                                then old(bits.free)[g := (old(bits.free)[g] + 1) % 65536] else old(bits.free)
    {
      hide Allocator.BitAt, Allocator.Bits, Allocator.Limits, Allocator.Sized, Clear, Sum, Left, FateAt, Agree;
      if n == 0 {
        return;
      }
      LeftLeft(bits.fates, 1, 0);
      LeftLeft(bits.fates, 1, 1);
      LeftLeft(bits.fates, 2, 0);
      LeftLeft(bits.fates, 2, 1);
      LeftLeft(bits.fates, 2, 2);
      if bits.fates == [] {
        NoFates(bits.fates);
      }
      bits.InRange(n - 1);
      var g, i := (n - 1) / bits.perGroup, (n - 1) % bits.perGroup;
      held := held - {n};
      var ok := bits.Read();
      if !ok {
        return;
      }
      ok := bits.Read();
      if !ok {
        return;
      }
      bits.UnmarkedAll(bits.bitmaps, n - 1);
      bits.ReleaseBit(n - 1, g, i);
    }
  }
}
