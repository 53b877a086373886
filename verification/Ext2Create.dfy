/** Creating a file: an inode is taken first, then the entry that names it is added. */
module Ext2Create {
  import opened Ext2DirBlock
  import opened Ext2Dirent
  import opened Ext2FileBytes
  import opened Ext2Alloc
  import opened Ext2Inodes
  import opened Ext2Fs
  import opened Ext2Dir

  /** The two allocators are separate, every inode of the table is in use, and inode numbers fit a directory record. */
  ghost predicate Paired(fs: FileSystem, ia: InodeAllocator)
    reads fs, ia, ia.bits
  {
    && ia.bits != fs.alloc && ia.Valid() && ia.Healthy() && ia.bits.total < 0x1_0000_0000
    && fs.inodes.Keys <= ia.held
  }

  const BLANK := Inode(0, [0, 0, 0, 0, 0, 0, 0, 0, 0, 0, 0, 0, 0, 0, 0])

  /** Takes the lowest free inode; `stored` says whether writing it out and the bookkeeping of the open inode succeed,
      and if they do not the inode is freed again. */
  method TakeInode(ia: InodeAllocator, stored: bool) returns (n: nat)
    requires ia.Valid() && ia.Healthy()
    modifies ia, ia.bits
    ensures ia.Valid() && ia.Healthy() && ia.held == if n == 0 then old(ia.held) else old(ia.held) + {n}
    ensures n == 0 <==> !stored || forall m :: 0 < m <= ia.bits.total ==> old(ia.InUse(m))
    ensures n != 0 ==> n <= ia.bits.total && n !in old(ia.held) && forall m :: 0 < m < n ==> old(ia.InUse(m))
    ensures forall m :: 0 < m <= ia.bits.total ==> (ia.InUse(m) <==> old(ia.InUse(m)) || m == n)
    ensures n != 0 ==> !old(ia.InUse(n))
  {
    hide Allocator.Consistent, Allocator.Used;
    n := ia.AllocInode();
    if n != 0 && !stored {
      assert ia.InUse(n);
      ia.FreeInode(n);
      n := 0;
    }
  }

  /** Writes an empty inode into the table. */
  method WriteBlank(fs: FileSystem, ghost d: nat, n: nat)
    requires IsDir(fs, d) && n !in fs.inodes
    modifies fs`inodes
    ensures IsDir(fs, d) && Entries(fs, d) == old(Entries(fs, d)) && fs.inodes == old(fs.inodes)[n := BLANK]
    ensures forall name :: RoomIn(fs, d, name) == old(RoomIn(fs, d, name))
    ensures SameElsewhere(old(fs.inodes), old(fs.blocks), fs.inodes, fs.blocks, d)
  {
    hide EntriesIn, Tiled, Allocator.Valid, Allocator.Healthy, Allocator.UsedSet, Exact, Owned;
    Joined(fs, n);
    NothingElsewhere(fs, d);
    fs.inodes := fs.inodes[n := BLANK];
  }

  /** An empty inode owns no block. */
  lemma Joined(fs: FileSystem, n: nat)
    requires fs.Valid() && n !in fs.inodes
    ensures Owned(fs.inodes[n := BLANK], fs.own)
    ensures Exact(fs.inodes[n := BLANK], fs.own, fs.alloc.UsedSet(), fs.reserved)
  {}

  /** Creates a file under `name`.  This succeeds exactly if an inode is free and stored and the directory has room or a
      block is free; the file is then empty, under the lowest free inode.  A failure leaves the directory and the free
      blocks as they were, but when it is only the block that is missing the inode taken stays in use. */
  method CreateEntry(fs: FileSystem, ia: InodeAllocator, d: nat, name: seq<Byte>, stored: bool)
    returns (ok: bool, n: nat, ghost at: nat)
    requires IsDir(fs, d) && fs.inodes[d].size < DIRECT * fs.bs && |name| < 256 && Paired(fs, ia)
    modifies fs, fs.alloc, ia, ia.bits
    ensures IsDir(fs, d) && Paired(fs, ia)
    ensures ok <==> stored && !(forall m :: 0 < m <= ia.bits.total ==> old(ia.InUse(m)))
                    && (old(RoomIn(fs, d, name)) || old(fs.alloc.FreeSet()) != {})
    ensures n != 0 <==> stored && !(forall m :: 0 < m <= ia.bits.total ==> old(ia.InUse(m)))
    ensures n != 0 ==> n !in old(fs.inodes) && n in fs.inodes && forall m :: 0 < m < n ==> old(ia.InUse(m))
    ensures forall m :: 0 < m <= ia.bits.total ==> (ia.InUse(m) <==> old(ia.InUse(m)) || m == n)
    ensures ok ==> at <= |old(Entries(fs, d))|
                   && Entries(fs, d) == old(Entries(fs, d))[..at] + [Entry(name, n, 1)] + old(Entries(fs, d))[at..]
    ensures old(RoomIn(fs, d, name)) ==> fs.alloc.FreeSet() == old(fs.alloc.FreeSet())
    ensures ok && !old(RoomIn(fs, d, name)) ==> OneTaken(old(fs.alloc.FreeSet()), fs.alloc.FreeSet())
    ensures n != 0 ==> fs.File(n) && fs.Contents(n) == []
    ensures !ok ==> Entries(fs, d) == old(Entries(fs, d)) && fs.blocks == old(fs.blocks)
    ensures !ok ==> fs.alloc.FreeSet() == old(fs.alloc.FreeSet())
    ensures SameElsewhere(old(fs.inodes), old(fs.blocks), fs.inodes, fs.blocks, d) && OthersUntouched(fs, d)
  {
    hide FileSystem.Valid, FileSystem.File, FileSystem.Contents, FileSystem.OthersKept, InodeAllocator.Valid,
      InodeAllocator.Healthy, InodeAllocator.InUse, Allocator.FreeSet, IsDir, EntriesIn, Inserted, RoomIn,
      SameElsewhere, OthersUntouched;
    IsListed(fs, d);
    NothingElsewhere(fs, d);
    n := TakeInode(ia, stored);
    ok, at := false, 0;
    if n != 0 {
      WriteBlank(fs, d, n);
      IsListed(fs, d);
      label L:
      ghost var nodes1, blocks1 := fs.inodes, fs.blocks;
      ghost var k, o;
      ok, at, k, o := AddEntry(fs, d, name, n);
      IsListed(fs, d);
      fs.ElsewhereSame@L(d);
      ElsewhereTwice(old(fs.inodes), old(fs.blocks), nodes1, blocks1, fs.inodes, fs.blocks, d);
      EmptyFile(fs, n);
    }
    OthersSame(fs);
  }

  lemma EmptyFile(fs: FileSystem, n: nat)
    requires fs.Valid() && n in fs.inodes && fs.inodes[n] == BLANK
    ensures fs.File(n) && fs.Contents(n) == []
  {
    fs.PointersOk(n, BLANK);
  }
}
