/** Files of an ext2 file system: inodes, data blocks and the allocator together. */
module Ext2Fs {
  import opened Division
  import opened Ext2Dirent
  import opened Ext2FileBytes
  import opened Ext2Alloc
  import Bmap = Ext2Bmap

  /** The fields of an inode that say where its bytes are. */
  datatype Inode = Inode(size: nat, block: seq<nat>)

  /** Block pointer `index` of inode `ino`. */
  datatype Place = Place(ino: nat, index: nat)

  /** Every direct pointer is recorded as the one owner of its block. */
  ghost predicate Owned(nodes: map<nat, Inode>, own: map<nat, Place>) {
    forall i :: i in nodes ==> OwnedInode(i, nodes[i], own)
  }

  ghost predicate OwnedInode(i: nat, node: Inode, own: map<nat, Place>) {
    && |node.block| == 15
    && forall k :: 0 <= k < DIRECT && node.block[k] != 0 ==> node.block[k] in own && own[node.block[k]] == Place(i, k)
  }

  /** Every recorded place holds its block, and a block is in use exactly if it has a place or is set aside: no block
      leaks. */
  ghost predicate Exact(nodes: map<nat, Inode>, own: map<nat, Place>, used: set<nat>, reserved: set<nat>) {
    && own.Keys !! reserved && used == own.Keys + reserved
    && forall b :: b in own ==> Points(nodes, own[b], b)
  }

  predicate Points(nodes: map<nat, Inode>, place: Place, b: nat) {
    place.ino in nodes && place.index < DIRECT && |nodes[place.ino].block| == 15
      && nodes[place.ino].block[place.index] == b
  }

  lemma ExactTake(nodes: map<nat, Inode>, own: map<nat, Place>, used: set<nat>, reserved: set<nat>, ino: nat,
                  raw: Inode, k: nat, b: nat, size: nat)
    requires Exact(nodes[ino := raw], own, used, reserved) && k < DIRECT && |raw.block| == 15 && raw.block[k] == 0
    requires 0 !in own && b !in used
    ensures Exact(nodes[ino := Inode(size, raw.block[k := b])], own[b := Place(ino, k)], used + {b}, reserved)
  {}

  lemma ExactDrop(nodes: map<nat, Inode>, own: map<nat, Place>, used: set<nat>, reserved: set<nat>, ino: nat,
                  raw: Inode, k: nat)
    requires Exact(nodes[ino := raw], own, used, reserved) && k < DIRECT && |raw.block| == 15
    requires raw.block[k] in own && own[raw.block[k]] == Place(ino, k)
    ensures Exact(nodes[ino := raw.(block := raw.block[k := 0])], own - {raw.block[k]}, used - {raw.block[k]}, reserved)
  {}

  lemma ExactSize(nodes: map<nat, Inode>, own: map<nat, Place>, used: set<nat>, reserved: set<nat>, ino: nat,
                  raw: Inode, size: nat)
    requires Exact(nodes[ino := raw], own, used, reserved)
    ensures Exact(nodes[ino := raw.(size := size)], own, used, reserved)
  {}

  /** Every inode there was but `ino` is as it was, and so are the blocks of its direct pointers. */
  ghost predicate SameElsewhere(nodes0: map<nat, Inode>, blocks0: seq<Block>, nodes: map<nat, Inode>,
                                blocks: seq<Block>, ino: nat)
  {
    && nodes0.Keys <= nodes.Keys && |blocks| == |blocks0|
    && forall j :: j in nodes0 && j != ino ==> nodes[j] == nodes0[j] && SameBlocks(nodes0[j].block, blocks0, blocks)
  }

  predicate SameBlocks(ptrs: seq<nat>, blocks0: seq<Block>, blocks: seq<Block>) {
    && |ptrs| >= DIRECT && |blocks| == |blocks0|
    && forall k :: 0 <= k < DIRECT && ptrs[k] != 0 ==> ptrs[k] < |blocks| && blocks[ptrs[k]] == blocks0[ptrs[k]]
  }

  class FileSystem {
    const bs: nat                   // block size
    const alloc: Allocator
    var blocks: seq<Block>          // the device
    var inodes: map<nat, Inode>     // the inode table
    ghost var own: map<nat, Place>  // which pointer refers to each data block
    ghost const reserved: set<nat>  // blocks that no direct pointer may refer to

    constructor (blockSize: nat, allocator: Allocator, device: seq<Block>, table: map<nat, Inode>,
                 ghost places: map<nat, Place>,
                 ghost aside: set<nat>)
      requires blockSize == 1024 || blockSize == 2048 || blockSize == 4096
      requires allocator.Valid() && allocator.Healthy()
      requires Device(device, blockSize) && |device| == allocator.total
      requires Owned(table, places) && places.Keys <= allocator.held && Exact(table, places, allocator.UsedSet(), aside)
      ensures Valid() && bs == blockSize && alloc == allocator && blocks == device && inodes == table && own == places
      ensures reserved == aside
    {
      bs, alloc, blocks, inodes, own, reserved := blockSize, allocator, device, table, places, aside;
    }

    /** Everything in order, with `raw` in place of inode `ino`. */
    ghost predicate ValidWith(ino: nat, raw: Inode)
      reads this, alloc
    {
      && (bs == 1024 || bs == 2048 || bs == 4096)
      && alloc.Valid() && alloc.Healthy()
      && Device(blocks, bs) && |blocks| == alloc.total
      && (forall i :: i in inodes && i != ino ==> OwnedInode(i, inodes[i], own))
      && OwnedInode(ino, raw, own)
      && own.Keys <= alloc.held && Exact(inodes[ino := raw], own, alloc.UsedSet(), reserved)
    }

    ghost predicate Valid()
      reads this, alloc
    {
      && (bs == 1024 || bs == 2048 || bs == 4096)
      && alloc.Valid() && alloc.Healthy()
      && Device(blocks, bs) && |blocks| == alloc.total
      && Owned(inodes, own)
      && own.Keys <= alloc.held && Exact(inodes, own, alloc.UsedSet(), reserved)
    }

    lemma PointersOk(i: nat, raw: Inode)
      requires alloc.Valid() && |blocks| == alloc.total && own.Keys <= alloc.held && OwnedInode(i, raw, own)
      ensures Pointers(raw.block, |blocks|)
      ensures forall k :: 0 <= k < DIRECT && raw.block[k] != 0 ==> raw.block[k] in alloc.held
    {
      hide Allocator.Used;
      forall k | 0 <= k < DIRECT ensures raw.block[k] < |blocks| && (raw.block[k] != 0 ==> raw.block[k] in alloc.held) {
        if raw.block[k] != 0 {
          assert raw.block[k] in own.Keys;
        }
      }
    }

    /** Blocks that belong to somebody else are as they were. */
    twostate predicate OthersKept(ino: nat)
      reads this, alloc
    {
      && |blocks| == old(|blocks|)
      && forall b :: 0 <= b < |blocks| && b in old(alloc.held) && !(b in old(own) && old(own)[b].ino == ino) ==>
           blocks[b] == old(blocks[b])
    }

    // -------------------------------------------------------------- whole blocks

    /** Rewrites the block of index `k` of an inode and records a size. */
    method PutBlock(ino: nat, k: nat, c: Block, size: nat)
      requires Valid() && ino in inodes && k < DIRECT && inodes[ino].block[k] != 0 && |c| == bs
      modifies this`blocks, this`inodes
      ensures Valid() && OthersKept(ino) && |blocks| == |old(blocks)|
      ensures old(inodes[ino].block[k]) < |blocks| && blocks == old(blocks)[old(inodes[ino].block[k]) := c]
      ensures inodes == old(inodes)[ino := old(inodes[ino]).(size := size)]
    {
      hide Allocator.Used, Allocator.Shape, Allocator.Consistent, Allocator.UsedSet, Exact;
      var raw := inodes[ino];
      PointersOk(ino, raw);
      assert inodes[ino := raw] == inodes;
      ExactSize(inodes, own, alloc.UsedSet(), reserved, ino, raw, size);
      assert raw.block[k] in own && own[raw.block[k]].ino == ino;
      blocks := blocks[raw.block[k] := c];
      inodes := inodes[ino := raw.(size := size)];
    }

    /** Allocates a block with contents `c` for the unmapped index `k` of an inode and records a size; 0 and no change
        exactly when no block is free. */
    method NewBlock(ino: nat, k: nat, c: Block, size: nat) returns (b: nat)
      requires Valid() && ino in inodes && k < DIRECT && inodes[ino].block[k] == 0 && |c| == bs
      modifies this, alloc
      ensures Valid() && OthersKept(ino) && (b == 0 <==> old(alloc.FreeSet()) == {})
      ensures b == 0 ==> blocks == old(blocks) && inodes == old(inodes) && own == old(own) && alloc.FreeSet() == {}
      ensures b != 0 ==> b < |blocks| && blocks == old(blocks)[b := c] && b in old(alloc.FreeSet())
      ensures b != 0 ==> alloc.FreeSet() == old(alloc.FreeSet()) - {b}
      ensures b != 0 ==> inodes == old(inodes)[ino := Inode(size, old(inodes[ino].block)[k := b])]
      ensures b != 0 ==> forall i :: 0 <= i < DIRECT ==> old(inodes[ino].block)[i] != b
    {
      hide Allocator.Shape, Allocator.Used, Allocator.Consistent, Allocator.UsedSet, Allocator.FreeSet, Exact;
      hide Allocator.Searched;
      var raw := inodes[ino];
      PointersOk(ino, raw);
      ZeroUnowned();
      assert inodes[ino := raw] == inodes;
      b := alloc.AllocBlock();
      if b == 0 {
        return;
      }
      ExactTake(inodes, own, old(alloc.UsedSet()), reserved, ino, raw, k, b, size);
      blocks := blocks[b := c];
      own := own[b := Place(ino, k)];
      inodes := inodes[ino := Inode(size, raw.block[k := b])];
    }

    lemma ZeroUnowned()
      requires alloc.Valid() && own.Keys <= alloc.held
      ensures 0 !in own
    {}

    // -------------------------------------------------------------- writing

    /** The block that holds byte `pos`, allocated and mapped if it is not there yet; fails when
        no block is free. */
    method MapFor(ino: nat, raw: Inode, pos: nat, ghost w: seq<Byte>) returns (ok: bool, now: Inode)
      requires ValidWith(ino, raw) && Pointers(raw.block, |blocks|) && Reads(blocks, raw.block, bs, w)
                 && pos / bs < DIRECT
      modifies this`own, alloc
      ensures ValidWith(ino, now) && now.size == raw.size && Pointers(now.block, |blocks|)
      ensures Reads(blocks, now.block, bs, w)
      ensures !ok ==> now == raw && own == old(own) && alloc.held == old(alloc.held)
      ensures !ok ==> forall n :: 0 <= n < alloc.total ==> alloc.Used(n)
      ensures ok ==> now.block[pos / bs] != 0
      ensures old(alloc.held) <= alloc.held
      ensures forall b :: b in old(own) ==> b in own && own[b] == old(own)[b]
      ensures forall b :: b in own && b !in old(own) ==> b !in old(alloc.held) && own[b].ino == ino
    {
      hide Allocator.Used;
      hide Allocator.Shape;
      hide Allocator.Consistent;
      hide Reads, Exact;
      hide Allocator.UsedSet, Allocator.Searched;
      ZeroUnowned();
      var k := pos / bs;
      now := raw;
      if raw.block[k] != 0 {
        return true, raw;
      }
      var b := alloc.AllocBlock();
      if b == 0 {
        return false, raw;
      }
      PointersOk(ino, raw);
      MappedReads(blocks, raw.block, bs, w, k, b);
      ExactTake(inodes, own, old(alloc.UsedSet()), reserved, ino, raw, k, b, raw.size);
      own := own[b := Place(ino, k)];
      now := raw.(block := raw.block[k := b]);
      return true, now;
    }

    /** One turn of the write loop: stores as much of `src` as fits the block at `pos`. */
    method WriteChunk(ino: nat, raw: Inode, pos: nat, src: seq<Byte>, ghost w: seq<Byte>) returns (n: nat, now: Inode)
      requires ValidWith(ino, raw) && Pointers(raw.block, |blocks|) && Reads(blocks, raw.block, bs, w)
      requires pos <= |w| && src != [] && pos / bs < DIRECT
      modifies this`blocks, this`own, alloc
      ensures ValidWith(ino, now) && now.size == raw.size && Pointers(now.block, |blocks|) && n <= |src|
      ensures n == 0 ==> now == raw && blocks == old(blocks) && own == old(own)
      ensures n == 0 ==> forall m :: 0 <= m < alloc.total ==> alloc.Used(m)
      ensures Reads(blocks, now.block, bs, Overwrite(w, pos, src[..n]))
      ensures OthersKept(ino)
      ensures old(alloc.held) <= alloc.held
      ensures forall b :: b in old(own) ==> b in own && own[b] == old(own)[b]
      ensures forall b :: b in own && b !in old(own) ==> b !in old(alloc.held) && own[b].ino == ino
    {
      hide Allocator.Used;
      hide Allocator.Shape;
      hide Allocator.Consistent;
      hide Reads, Exact;
      hide Allocator.UsedSet;
      var ok;
      ok, now := MapFor(ino, raw, pos, w);
      if !ok {
        assert Overwrite(w, pos, src[..0]) == w;
        return 0, now;
      }
      var o := pos % bs;
      var b := now.block[pos / bs];
      if o == 0 && |src| >= bs {
        n := bs;
        blocks := blocks[b := src[..bs]];
        assert src[..bs] == Splice(old(blocks)[b], o, src[..n]);
      } else {
        n := if bs - o > |src| then |src| else bs - o;
        blocks := blocks[b := Splice(blocks[b], o, src[..n])];
      }
      StoredReads(old(blocks), now.block, bs, w, pos, src[..n]);
      assert b in own && own[b] == Place(ino, pos / bs);
    }

    /** Inode `ino` is a file whose bytes are all in mapped direct blocks. */
    ghost predicate File(ino: nat)
      reads this, alloc
    {
      && bs > 0 && ino in inodes && |inodes[ino].block| == 15
      && Device(blocks, bs) && Pointers(inodes[ino].block, |blocks|)
      && NoHole(inodes[ino].block, bs, inodes[ino].size)
    }

    ghost function Contents(ino: nat): seq<Byte>
      requires File(ino)
      reads this, alloc
    {
      Bytes(blocks, inodes[ino].block, bs, inodes[ino].size)
    }

    /** The write loop, on a private copy of the inode. */
    method WriteLoop(ino: nat, raw: Inode, offset: nat, data: seq<Byte>, ghost c: seq<Byte>)
      returns (w: nat, now: Inode)
      requires ValidWith(ino, raw) && Pointers(raw.block, |blocks|) && Reads(blocks, raw.block, bs, c)
      requires offset <= |c| && offset + |data| <= DIRECT * bs
      modifies this`blocks, this`own, alloc
      ensures ValidWith(ino, now) && now.size == raw.size && Pointers(now.block, |blocks|) && w <= |data|
      ensures w == 0 ==> now == raw && blocks == old(blocks) && own == old(own)
      ensures w < |data| ==> forall m :: 0 <= m < alloc.total ==> alloc.Used(m)
      ensures Reads(blocks, now.block, bs, Overwrite(c, offset, data[..w]))
      ensures OthersKept(ino) && old(alloc.held) <= alloc.held
    {
      hide Allocator.Used;
      hide Allocator.Shape;
      hide Allocator.Consistent;
      hide Reads, Exact;
      hide Allocator.UsedSet;
      w, now := 0, raw;
      assert Overwrite(c, offset, data[..0]) == c;
      while w < |data|
        invariant ValidWith(ino, now) && now.size == raw.size && Pointers(now.block, |blocks|) && w <= |data|
        invariant w == 0 ==> now == raw && blocks == old(blocks) && own == old(own)
        invariant Reads(blocks, now.block, bs, Overwrite(c, offset, data[..w]))
        invariant OthersKept(ino) && old(alloc.held) <= alloc.held
        invariant forall b :: b in old(own) ==> b in own && own[b] == old(own)[b]
        invariant forall b :: b in own && b !in old(own) ==> b !in old(alloc.held) && own[b].ino == ino
      {
        InDirect(bs, offset + w);
        var n;
        n, now := WriteChunk(ino, now, offset + w, data[w..], Overwrite(c, offset, data[..w]));
        if n == 0 {
          return;
        }
        OverwriteTwice(c, offset, data[..w], data[w..][..n]);
        assert data[..w] + data[w..][..n] == data[..w + n];
        w := w + n;
      }
    }

    /** The other files still read as before. */
    twostate lemma OthersRead(ino: nat)
      requires old(Valid()) && Valid() && OthersKept(ino)
      requires forall j :: j in old(inodes) && j != ino ==> j in inodes && inodes[j] == old(inodes[j])
      ensures forall j :: j != ino && old(File(j)) ==> File(j) && Contents(j) == old(Contents(j))
    {
      hide Allocator.Used;
      hide Allocator.Shape;
      hide Allocator.Consistent;
      hide Reads;
      forall j | j != ino && old(File(j)) ensures File(j) && Contents(j) == old(Contents(j)) {
        var ptrs := inodes[j].block;
        assert OwnedInode(j, old(inodes[j]), old(own));
        assert forall k :: 0 <= k < DIRECT && ptrs[k] != 0 ==> ptrs[k] in old(own).Keys;
        OtherReads(old(blocks), blocks, ptrs, bs, old(Contents(j)));
        BytesAre(blocks, ptrs, bs, old(Contents(j)));
      }
    }

    /** What belongs to others is as it was. */
    twostate lemma ElsewhereSame(ino: nat)
      requires old(Valid()) && OthersKept(ino) && inodes.Keys == old(inodes.Keys)
      requires forall j :: j in old(inodes) && j != ino ==> inodes[j] == old(inodes[j])
      ensures SameElsewhere(old(inodes), old(blocks), inodes, blocks, ino)
    {
      hide Allocator.Used, Allocator.Shape, Allocator.Consistent, Allocator.UsedSet, Exact;
      forall j | j in old(inodes) && j != ino ensures SameBlocks(inodes[j].block, old(blocks), blocks) {
        assert OwnedInode(j, old(inodes[j]), old(own));
        forall k | 0 <= k < DIRECT && inodes[j].block[k] != 0
          ensures inodes[j].block[k] < |blocks| && blocks[inodes[j].block[k]] == old(blocks)[inodes[j].block[k]]
        {
          assert inodes[j].block[k] in old(own).Keys;
        }
      }
    }

    /** So the other files read as before. */
    twostate lemma OtherContents(ino: nat)
      requires SameElsewhere(old(inodes), old(blocks), inodes, blocks, ino) && Device(blocks, bs)
      ensures forall j :: j != ino && old(File(j)) ==> File(j) && Contents(j) == old(Contents(j))
    {
      hide Reads;
      forall j | j != ino && old(File(j)) ensures File(j) && Contents(j) == old(Contents(j)) {
        assert SameBlocks(old(inodes[j]).block, old(blocks), blocks);
        OtherReads(old(blocks), blocks, inodes[j].block, bs, old(Contents(j)));
        BytesAre(blocks, inodes[j].block, bs, old(Contents(j)));
      }
    }

    // -------------------------------------------------------------- truncation

    lemma InUse(b: nat)
      requires alloc.Valid() && b in alloc.held
      ensures 0 < b < alloc.total && alloc.Used(b)
    {}

    /** Frees one block of a private copy of the inode. */
    method FreePointer(ino: nat, raw: Inode, k: nat) returns (now: Inode)
      requires ValidWith(ino, raw) && k < DIRECT
      modifies this`own, alloc
      ensures ValidWith(ino, now) && now == raw.(block := raw.block[k := 0])
      ensures forall b :: b in own ==> b in old(own) && own[b] == old(own)[b]
      ensures alloc.UsedSet() == old(alloc.UsedSet()) - if raw.block[k] == 0 then {} else {raw.block[k]}
    {
      hide Allocator.Used;
      hide Allocator.Shape;
      hide Allocator.Consistent;
      hide Allocator.UsedSet, Exact;
      now := raw.(block := raw.block[k := 0]);
      var b := raw.block[k];
      if b != 0 {
        PointersOk(ino, raw);
        ExactDrop(inodes, own, alloc.UsedSet(), reserved, ino, raw, k);
        InUse(b);
        alloc.FreeBlock(b);
        own := own - {b};
        assert forall i :: i in inodes && i != ino ==> OwnedInode(i, inodes[i], own);
      } else {
        assert now == raw;
      }
    }

    /** The pointers of indexes `lo` up to `hi` that are set. */
    ghost function Dropped(ptrs: seq<nat>, lo: nat, hi: nat): (r: set<nat>)
      requires hi <= |ptrs|
      ensures 0 !in r && (forall k :: lo <= k < hi ==> ptrs[k] == 0 || ptrs[k] in r)
      ensures forall b :: b in r ==> exists k :: lo <= k < hi && ptrs[k] == b
    {
      set k | lo <= k < hi && ptrs[k] != 0 :: ptrs[k]
    }

    lemma DroppedOne(ptrs: seq<nat>, lo: nat, hi: nat)
      requires lo <= hi < |ptrs|
      ensures Dropped(ptrs, lo, hi + 1) == Dropped(ptrs, lo, hi) + if ptrs[hi] == 0 then {} else {ptrs[hi]}
    {
      forall b | b in Dropped(ptrs, lo, hi + 1) && b != ptrs[hi] ensures b in Dropped(ptrs, lo, hi) {}
    }

    /** Sets the size of a file.  Shrunk, it reads as the beginning of what was there, and exactly the blocks past the
        new end become free; grown, only its recorded size changes. */
    method Truncate(ino: nat, length: nat)
      requires Valid() && File(ino)
      modifies this, alloc
      ensures Valid() && blocks == old(blocks) && inodes.Keys == old(inodes.Keys)
      ensures forall j :: j in old(inodes) && j != ino ==> inodes[j] == old(inodes[j])
      ensures length <= old(inodes[ino].size) ==> File(ino) && Contents(ino) == old(Contents(ino))[..length]
      ensures length <= old(inodes[ino].size) ==>
                var first, last := (length + bs - 1) / bs, (old(inodes[ino].size) + bs - 1) / bs;
                && 0 <= first <= last <= DIRECT
                && alloc.UsedSet() == old(alloc.UsedSet()) - Dropped(old(inodes[ino].block), first, last)
      ensures length > old(inodes[ino].size) ==>
                inodes == old(inodes)[ino := old(inodes[ino]).(size := length)]
                  && alloc.UsedSet() == old(alloc.UsedSet())
    {
      hide Allocator.Used;
      hide Allocator.Shape;
      hide Allocator.Consistent;
      hide Allocator.UsedSet;
      hide Reads, NoHole, Exact;
      hide FileSystem.Dropped;
      var raw := inodes[ino];
      if length >= raw.size {
        Grow(ino, length);
        return;
      }
      FewBlocks(raw.block, bs, raw.size, length);
      assert inodes[ino := raw] == inodes;
      var now := DropFrom(ino, raw, (length + bs - 1) / bs, (raw.size + bs - 1) / bs);
      ExactSize(inodes, own, alloc.UsedSet(), reserved, ino, now, length);
      inodes := inodes[ino := Inode(length, now.block)];
      PointersOk(ino, now);
      ShrunkReads(blocks, raw.block, now.block, bs, old(Contents(ino)), (length + bs - 1) / bs, length);
      BytesAre(blocks, now.block, bs, old(Contents(ino))[..length]);
    }

    method Grow(ino: nat, length: nat)
      requires Valid() && File(ino) && length >= inodes[ino].size
      modifies this`inodes
      ensures Valid() && inodes == old(inodes)[ino := old(inodes[ino]).(size := length)]
      ensures length == old(inodes[ino].size) ==> File(ino) && Contents(ino) == old(Contents(ino))[..length]
      ensures length == old(inodes[ino].size) ==>
                var first := (length + bs - 1) / bs;
                0 <= first <= DIRECT && Dropped(old(inodes[ino].block), first, first) == {}
    {
      hide Allocator.Used, Allocator.Shape, Allocator.Consistent, Allocator.UsedSet, Reads, NoHole, Exact;
      var raw := inodes[ino];
      assert inodes[ino := raw] == inodes;
      ExactSize(inodes, own, alloc.UsedSet(), reserved, ino, raw, length);
      if length == raw.size {
        FewBlocks(raw.block, bs, raw.size, raw.size);
        assert raw.(size := length) == raw && Contents(ino)[..length] == Contents(ino);
        DroppedNone(raw.block, (length + bs - 1) / bs);
      }
      inodes := inodes[ino := raw.(size := length)];
    }

    /** Frees the blocks of indexes `first` up to `last` of a private copy of the inode. */
    method DropFrom(ino: nat, raw: Inode, first: nat, last: nat) returns (now: Inode)
      requires ValidWith(ino, raw) && first <= last <= DIRECT
      modifies this`own, alloc
      ensures ValidWith(ino, now) && now.size == raw.size && |now.block| == 15
      ensures forall k :: 0 <= k < first && k < DIRECT ==> now.block[k] == raw.block[k]
      ensures forall k :: 0 <= k < DIRECT ==> now.block[k] == 0 || now.block[k] == raw.block[k]
      ensures alloc.UsedSet() == old(alloc.UsedSet()) - Dropped(raw.block, first, last)
    {
      hide Allocator.Used, Allocator.Shape, Allocator.Healthy, Allocator.UsedSet, Exact;
      hide FileSystem.Dropped;
      now := raw;
      var i := first;
      DroppedNone(raw.block, first);
      while i < last
        modifies this`own, alloc
        invariant first <= i <= last && ValidWith(ino, now) && now.size == raw.size && |now.block| == 15
        invariant forall k :: 0 <= k < first && k < DIRECT ==> now.block[k] == raw.block[k]
        invariant forall k :: 0 <= k < DIRECT ==> now.block[k] == 0 || now.block[k] == raw.block[k]
        invariant forall k :: i <= k < DIRECT ==> now.block[k] == raw.block[k]
        invariant alloc.UsedSet() == old(alloc.UsedSet()) - Dropped(raw.block, first, i)
      {
        DroppedOne(raw.block, first, i);
        now := FreePointer(ino, now, i);
        i := i + 1;
      }
    }

    lemma DroppedNone(ptrs: seq<nat>, lo: nat)
      requires lo <= |ptrs|
      ensures Dropped(ptrs, lo, lo) == {}
    {}

    /** Writes `data` at `offset`, no further than the end of the file.  The file then reads as
        the old contents with the first `w` bytes of `data` spliced in, except that a write of
        nothing at offset 0 empties it.  `w` falls short only when no block is free. */
    method WriteFile(ino: nat, offset: nat, data: seq<Byte>) returns (w: nat)
      requires Valid() && File(ino) && offset <= inodes[ino].size && offset + |data| <= DIRECT * bs
      modifies this, alloc
      ensures Valid() && File(ino) && w <= |data|
      ensures offset == 0 && data == [] ==> Contents(ino) == []
      ensures offset != 0 || data != [] ==> Contents(ino) == Overwrite(old(Contents(ino)), offset, data[..w])
      ensures Contents(ino) == Overwrite(old(Contents(ino)), offset, data[..w]) <==>
                offset != 0 || data != [] || old(Contents(ino)) == []
      ensures w < |data| ==> forall m :: 0 <= m < alloc.total ==> alloc.Used(m)
      ensures OthersKept(ino) && inodes.Keys == old(inodes.Keys)
      ensures forall j :: j in old(inodes) && j != ino ==> inodes[j] == old(inodes[j])
      ensures forall j :: j != ino && old(File(j)) ==> File(j) && Contents(j) == old(Contents(j))
    {
      hide Allocator.Used;
      hide Allocator.Shape;
      hide Allocator.Consistent;
      hide Reads, Exact, NoHole;
      hide Allocator.UsedSet;
      var raw := inodes[ino];
      if offset == 0 && data == [] {
        Truncate(ino, 0);
        return 0;
      }
      ghost var c := Contents(ino);
      assert inodes[ino := raw] == inodes;
      var now;
      w, now := WriteLoop(ino, raw, offset, data, c);
      var pos := offset + w;
      if w > 0 {
        ExactSize(inodes, own, alloc.UsedSet(), reserved, ino, now, if pos > raw.size then pos else raw.size);
        inodes := inodes[ino := now.(size := if pos > raw.size then pos else raw.size)];
      }
      BytesAre(blocks, now.block, bs, Overwrite(c, offset, data[..w]));
      OthersRead(ino);
    }

    // -------------------------------------------------------------- reading

    /** The block that index `k` of an inode is mapped to, through up to three levels of pointers; 0 for a hole. */
    ghost function Phys(node: Inode, k: nat): nat
      requires (bs == 1024 || bs == 2048 || bs == 4096) && Device(blocks, bs) && |node.block| == 15
      reads this
    {
      var list := Bmap.BlockList(blocks, node.block, bs / 4);
      if k < |list| then list[k] else 0
    }

    /** Byte `p` of a file is `x`; a hole reads as 0. */
    ghost predicate ByteReads(node: Inode, p: nat, x: Byte)
      requires (bs == 1024 || bs == 2048 || bs == 4096) && Device(blocks, bs) && |node.block| == 15
      reads this
    {
      var b := Phys(node, p / bs);
      b < |blocks| && x == if b == 0 then 0 else blocks[b][p % bs]
    }

    /** Reads up to `size` bytes from `offset`, stopping at the end of the file, or early only at a pointer to no
        block. */
    method ReadFile(ino: nat, offset: nat, size: nat) returns (data: seq<Byte>)
      requires Valid() && ino in inodes && offset + size < 0x1_0000_0000
      ensures |data| <= size && (data != [] ==> offset + |data| <= inodes[ino].size)
      ensures forall i :: 0 <= i < |data| ==> ByteReads(inodes[ino], offset + i, data[i])
      ensures |data| < size && offset + |data| < inodes[ino].size ==>
                Phys(inodes[ino], (offset + |data|) / bs) >= |blocks|
      ensures File(ino) && offset <= inodes[ino].size ==>
                && offset + |data| == (if offset + size > |Contents(ino)| then |Contents(ino)| else offset + size)
                && data == Contents(ino)[offset..offset + |data|]
    {
      hide Allocator.Valid, Allocator.Healthy, Exact, Reads, NoHole, Contents, FileSystem.ByteReads, FileSystem.Phys,
        Bmap.BlockList;
      var raw := inodes[ino];
      PointersOk(ino, raw);
      data := [];
      if offset < raw.size {
        data := ReadLoop(raw, offset, if offset + size > raw.size then raw.size - offset else size);
      }
      if File(ino) && offset <= raw.size {
        if |data| < size && offset + |data| < raw.size {
          InFile(ino, offset + |data|);
          assert false;
        }
        ReadIsContents(ino, offset, data);
      }
    }

    /** The read loop: up to `n` bytes, fewer only at a pointer to no block. */
    method ReadLoop(raw: Inode, offset: nat, n: nat) returns (data: seq<Byte>)
      requires (bs == 1024 || bs == 2048 || bs == 4096) && Device(blocks, bs) && |raw.block| == 15
      ensures |data| <= n && forall i :: 0 <= i < |data| ==> ByteReads(raw, offset + i, data[i])
      ensures |data| < n ==> Phys(raw, (offset + |data|) / bs) >= |blocks|
    {
      hide FileSystem.ByteReads, FileSystem.Phys;
      data := [];
      var pos := offset;
      while pos < offset + n
        invariant offset <= pos <= offset + n && |data| == pos - offset
        invariant forall i :: 0 <= i < |data| ==> ByteReads(raw, offset + i, data[i])
      {
        var chunk := ReadChunk(raw, pos, offset + n - pos);
        if chunk == [] {
          break;
        }
        data := data + chunk;
        pos := pos + |chunk|;
      }
    }

    /** A block number is the entry of the list for its index, 0 past the end. */
    lemma PhysIs(node: Inode, k: nat)
      requires (bs == 1024 || bs == 2048 || bs == 4096) && Device(blocks, bs) && |node.block| == 15
      ensures var list := Bmap.BlockList(blocks, node.block, bs / 4);
              Phys(node, k) == if k < |list| then list[k] else 0
    {
      hide Bmap.BlockList;
    }

    /** What a byte reads as, in terms of the list of the file's blocks. */
    lemma ByteReadsIs(node: Inode, p: nat, x: Byte)
      requires (bs == 1024 || bs == 2048 || bs == 4096) && Device(blocks, bs) && |node.block| == 15
      ensures var list := Bmap.BlockList(blocks, node.block, bs / 4);
              var b := if p / bs < |list| then list[p / bs] else 0;
              ByteReads(node, p, x) <==> b < |blocks| && x == if b == 0 then 0 else blocks[b][p % bs]
    {
      hide Bmap.BlockList;
    }

    /** One turn of the read loop: bytes of one block, or none when its pointer leads nowhere. */
    method ReadChunk(raw: Inode, pos: nat, left: nat) returns (chunk: seq<Byte>)
      requires (bs == 1024 || bs == 2048 || bs == 4096) && Device(blocks, bs) && |raw.block| == 15 && left > 0
      ensures |chunk| <= left && (chunk == [] <==> Phys(raw, pos / bs) >= |blocks|)
      ensures forall i :: 0 <= i < |chunk| ==> ByteReads(raw, pos + i, chunk[i])
    {
      hide FileSystem.Phys, FileSystem.ByteReads, Device;
      chunk := ReadAt(raw, pos / bs, pos % bs, left);
      if chunk != [] {
        ChunkReads(raw, pos, chunk);
      }
    }

    /** Up to `left` bytes from `o` on of the block of index `k`. */
    method ReadAt(raw: Inode, k: nat, o: nat, left: nat) returns (chunk: seq<Byte>)
      requires (bs == 1024 || bs == 2048 || bs == 4096) && Device(blocks, bs) && |raw.block| == 15 && left > 0 && o < bs
      ensures |chunk| <= left && (chunk == [] <==> Phys(raw, k) >= |blocks|)
      ensures chunk != [] ==> o + |chunk| <= bs && chunk == BlockBytes(Phys(raw, k))[o..o + |chunk|]
    {
      hide Bmap.PathOf, Bmap.Follow, Bmap.BlockList;
      var b := Bmap.Bmap(blocks, raw.block, bs / 4, k);
      assert b == Phys(raw, k);
      hide FileSystem.Phys;
      if b >= |blocks| {
        return [];
      }
      var buf := if b == 0 then seq(bs, _ => 0) else blocks[b];
      var n := if bs - o > left then left else bs - o;
      chunk := buf[o..o + n];
    }

    /** What a block reads as; block 0 stands for a hole. */
    ghost function BlockBytes(b: nat): (c: Block)
      requires Device(blocks, bs) && b < |blocks|
      reads this
      ensures |c| == bs
    {
      if b == 0 then seq(bs, _ => 0) else blocks[b]
    }

    lemma ChunkReads(raw: Inode, pos: nat, chunk: seq<Byte>)
      requires (bs == 1024 || bs == 2048 || bs == 4096) && Device(blocks, bs) && |raw.block| == 15
      requires Phys(raw, pos / bs) < |blocks| && pos % bs + |chunk| <= bs
      requires chunk == BlockBytes(Phys(raw, pos / bs))[pos % bs..pos % bs + |chunk|]
      ensures forall i :: 0 <= i < |chunk| ==> ByteReads(raw, pos + i, chunk[i])
    {
      hide FileSystem.Phys;
      forall i | 0 <= i < |chunk| ensures ByteReads(raw, pos + i, chunk[i]) {
        SameBlock(bs, pos, i);
      }
    }

    /** A byte of a file without holes is in a mapped direct block. */
    lemma InFile(ino: nat, p: nat)
      requires Valid() && File(ino) && p < inodes[ino].size
      ensures p / bs < DIRECT && Phys(inodes[ino], p / bs) == inodes[ino].block[p / bs]
                && 0 < inodes[ino].block[p / bs] < |blocks|
    {
      BytesAre(blocks, inodes[ino].block, bs, Contents(ino));
      assert ByteIs(blocks, inodes[ino].block, bs, p, Contents(ino)[p]);
    }

    lemma ReadIsContents(ino: nat, offset: nat, data: seq<Byte>)
      requires Valid() && File(ino) && offset + |data| <= inodes[ino].size
      requires forall i :: 0 <= i < |data| ==> ByteReads(inodes[ino], offset + i, data[i])
      ensures |Contents(ino)| == inodes[ino].size && data == Contents(ino)[offset..offset + |data|]
    {
      hide Allocator.Valid, Allocator.Healthy, Exact;
      var c := Contents(ino);
      forall i | 0 <= i < |data| ensures data[i] == c[offset + i] {
        InFile(ino, offset + i);
        assert ByteIs(blocks, inodes[ino].block, bs, offset + i, c[offset + i]);
        assert ByteReads(inodes[ino], offset + i, data[i]);
      }
    }
  }
}
