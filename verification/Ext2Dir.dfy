/** Directories: entries listed block after block through the direct pointers. */
module Ext2Dir {
  import opened Division
  import opened Ext2Dirent
  import opened Ext2DirBlock
  import opened Ext2FileBytes
  import opened Ext2Alloc
  import opened Ext2Fs

  /** Every mapped direct block is tiled by records. */
  ghost predicate DirBlocks(blocks: seq<Block>, ptrs: seq<nat>) {
    |ptrs| >= DIRECT && forall k :: 0 <= k < DIRECT && ptrs[k] != 0 ==> ptrs[k] < |blocks| && Tiled(blocks[ptrs[k]], 0)
  }

  /** The live entries of block `k`, none if it is not mapped. */
  ghost function BlockEntries(blocks: seq<Block>, ptrs: seq<nat>, k: nat): seq<Entry>
    requires DirBlocks(blocks, ptrs) && k < DIRECT
  {
    if ptrs[k] == 0 then [] else Live(blocks[ptrs[k]], 0)
  }

  /** The live entries of blocks `lo` up to `hi`. */
  ghost function EntriesIn(blocks: seq<Block>, ptrs: seq<nat>, lo: nat, hi: nat): seq<Entry>
    requires DirBlocks(blocks, ptrs) && lo <= hi <= DIRECT
    decreases hi - lo
  {
    if lo == hi then [] else BlockEntries(blocks, ptrs, lo) + EntriesIn(blocks, ptrs, lo + 1, hi)
  }

  lemma {:induction false} EntriesSplit(blocks: seq<Block>, ptrs: seq<nat>, lo: nat, mid: nat, hi: nat)
    requires DirBlocks(blocks, ptrs) && lo <= mid <= hi <= DIRECT
    ensures EntriesIn(blocks, ptrs, lo, hi) == EntriesIn(blocks, ptrs, lo, mid) + EntriesIn(blocks, ptrs, mid, hi)
    decreases mid - lo
  {
    hide BlockEntries;
    if lo < mid {
      EntriesSplit(blocks, ptrs, lo + 1, mid, hi);
    }
  }

  /** One more block scanned. */
  lemma EntriesStep(blocks: seq<Block>, ptrs: seq<nat>, k: nat)
    requires DirBlocks(blocks, ptrs) && k < DIRECT
    ensures EntriesIn(blocks, ptrs, 0, k + 1) == EntriesIn(blocks, ptrs, 0, k) + BlockEntries(blocks, ptrs, k)
  {
    hide BlockEntries;
    EntriesSplit(blocks, ptrs, 0, k, k + 1);
    assert EntriesIn(blocks, ptrs, k + 1, k + 1) == [];
  }

  lemma AroundBlock(blocks: seq<Block>, ptrs: seq<nat>, k: nat)
    requires DirBlocks(blocks, ptrs) && k < DIRECT
    ensures EntriesIn(blocks, ptrs, 0, DIRECT) ==
              EntriesIn(blocks, ptrs, 0, k) + BlockEntries(blocks, ptrs, k) + EntriesIn(blocks, ptrs, k + 1, DIRECT)
  {
    hide BlockEntries;
    EntriesSplit(blocks, ptrs, 0, k, k + 1);
    EntriesStep(blocks, ptrs, k);
    EntriesSplit(blocks, ptrs, 0, k + 1, DIRECT);
  }

  lemma {:induction false} SameEntries(blocks: seq<Block>, ptrs: seq<nat>, blocks': seq<Block>, ptrs': seq<nat>,
                                       lo: nat, hi: nat)
    requires DirBlocks(blocks, ptrs) && DirBlocks(blocks', ptrs') && lo <= hi <= DIRECT
    requires forall k :: lo <= k < hi ==> ptrs'[k] == ptrs[k] && (ptrs[k] != 0 ==> blocks'[ptrs[k]] == blocks[ptrs[k]])
    ensures EntriesIn(blocks', ptrs', lo, hi) == EntriesIn(blocks, ptrs, lo, hi)
    decreases hi - lo
  {
    hide Tiled, Live;
    if lo < hi {
      SameEntries(blocks, ptrs, blocks', ptrs', lo + 1, hi);
      assert BlockEntries(blocks', ptrs', lo) == BlockEntries(blocks, ptrs, lo);
    }
  }

  lemma {:induction false} Unmapped(blocks: seq<Block>, ptrs: seq<nat>, lo: nat, hi: nat)
    requires DirBlocks(blocks, ptrs) && lo <= hi <= DIRECT && forall k :: lo <= k < hi ==> ptrs[k] == 0
    ensures EntriesIn(blocks, ptrs, lo, hi) == []
    decreases hi - lo
  {
    if lo < hi {
      Unmapped(blocks, ptrs, lo + 1, hi);
    }
  }

  lemma InsertedWithin(pre: seq<Entry>, was: seq<Entry>, now: seq<Entry>, post: seq<Entry>, at: nat, e: Entry)
    requires Inserted(was, now, at, e)
    ensures Inserted(pre + was + post, pre + now + post, |pre| + at, e)
  {
    assert (pre + was + post)[..|pre| + at] == pre + was[..at];
    assert (pre + was + post)[|pre| + at..] == was[at..] + post;
  }

  lemma RemovedWithin(pre: seq<Entry>, was: seq<Entry>, now: seq<Entry>, post: seq<Entry>, at: nat)
    requires Removed(was, now, at)
    ensures Removed(pre + was + post, pre + now + post, |pre| + at)
  {
    assert (pre + was + post)[..|pre| + at] == pre + was[..at];
    assert (pre + was + post)[|pre| + at + 1..] == was[at + 1..] + post;
  }

  lemma FirstWithin(pre: seq<Entry>, es: seq<Entry>, post: seq<Entry>, name: seq<Byte>, at: nat)
    requires NoneNamed(pre, name) && FirstNamed(es, name, at)
    ensures FirstNamed(pre + es + post, name, |pre| + at) && (pre + es + post)[|pre| + at] == es[at]
  {}

  /** Rewriting one block changes the list at that block only. */
  lemma EditBlock(blocks: seq<Block>, ptrs: seq<nat>, k: nat, c: Block)
    requires DirBlocks(blocks, ptrs) && Pointers(ptrs, |blocks|) && k < DIRECT && ptrs[k] != 0 && Tiled(c, 0)
    ensures DirBlocks(blocks[ptrs[k] := c], ptrs)
    ensures EntriesIn(blocks, ptrs, 0, DIRECT) ==
              EntriesIn(blocks, ptrs, 0, k) + Live(blocks[ptrs[k]], 0) + EntriesIn(blocks, ptrs, k + 1, DIRECT)
    ensures EntriesIn(blocks[ptrs[k] := c], ptrs, 0, DIRECT) ==
              EntriesIn(blocks, ptrs, 0, k) + Live(c, 0) + EntriesIn(blocks, ptrs, k + 1, DIRECT)
  {
    hide EntriesIn;
    hide Live;
    hide Tiled;
    var blocks' := blocks[ptrs[k] := c];
    AroundBlock(blocks, ptrs, k);
    AroundBlock(blocks', ptrs, k);
    SameEntries(blocks, ptrs, blocks', ptrs, 0, k);
    SameEntries(blocks, ptrs, blocks', ptrs, k + 1, DIRECT);
  }

  /** Mapping a new block after all mapped ones appends its entries. */
  lemma AppendBlock(blocks: seq<Block>, ptrs: seq<nat>, k: nat, b: nat, c: Block)
    requires DirBlocks(blocks, ptrs) && k < DIRECT && 0 < b < |blocks| && Tiled(c, 0)
    requires forall i :: k <= i < DIRECT ==> ptrs[i] == 0
    requires forall i :: 0 <= i < DIRECT ==> ptrs[i] != b
    ensures DirBlocks(blocks[b := c], ptrs[k := b])
    ensures EntriesIn(blocks[b := c], ptrs[k := b], 0, DIRECT) == EntriesIn(blocks, ptrs, 0, DIRECT) + Live(c, 0)
  {
    hide EntriesIn;
    hide Live;
    hide Tiled;
    var blocks', ptrs' := blocks[b := c], ptrs[k := b];
    AroundBlock(blocks', ptrs', k);
    EntriesSplit(blocks, ptrs, 0, k, DIRECT);
    SameEntries(blocks, ptrs, blocks', ptrs', 0, k);
    Unmapped(blocks, ptrs, k, DIRECT);
    Unmapped(blocks', ptrs', k + 1, DIRECT);
  }

  // ------------------------------------------------------------------ directories of a file system

  /** Mapped blocks are tiled and lie below the recorded size. */
  ghost predicate IsDir(fs: FileSystem, d: nat)
    reads fs, fs.alloc
  {
    && fs.Valid() && d in fs.inodes
    && DirBlocks(fs.blocks, fs.inodes[d].block)
    && forall k :: 0 <= k < DIRECT && fs.inodes[d].block[k] != 0 ==> (k + 1) * fs.bs <= fs.inodes[d].size
  }

  /** The directory's live entries, in the order in which it lists them. */
  ghost function Entries(fs: FileSystem, d: nat): seq<Entry>
    requires IsDir(fs, d)
    reads fs, fs.alloc
  {
    EntriesIn(fs.blocks, fs.inodes[d].block, 0, DIRECT)
  }

  ghost predicate OneTaken(was: set<nat>, now: set<nat>) {
    exists b :: b in was && now == was - {b}
  }

  /** What is listed is what the live records of the mapped blocks hold. */
  lemma ListedIff(fs: FileSystem, d: nat, e: Entry)
    requires IsDir(fs, d)
    ensures |fs.inodes[d].block| == 15 && forall i :: 0 <= i < DIRECT ==> fs.inodes[d].block[i] < |fs.blocks|
    ensures e in Entries(fs, d) <==>
              exists i: nat, q: nat ::
                && i < DIRECT && fs.inodes[d].block[i] != 0
                && Reaches(fs.blocks[fs.inodes[d].block[i]], 0, q) && q < |fs.blocks[fs.inodes[d].block[i]]|
                && EntryIn(fs.blocks[fs.inodes[d].block[i]], q, e)
  {
    hide FileSystem.Valid, EntriesIn, Live, Reaches, Tiled, EntryIn;
    DirShape(fs, d);
    var blocks, ptrs := fs.blocks, fs.inodes[d].block;
    InSomeBlock(blocks, ptrs, 0, e);
    forall i | 0 <= i < DIRECT && ptrs[i] != 0 {
      LiveIff(blocks[ptrs[i]], 0, e);
    }
  }

  lemma {:induction false} InSomeBlock(blocks: seq<Block>, ptrs: seq<nat>, lo: nat, e: Entry)
    requires DirBlocks(blocks, ptrs) && lo <= DIRECT
    ensures e in EntriesIn(blocks, ptrs, lo, DIRECT) <==>
              exists i :: lo <= i < DIRECT && ptrs[i] != 0 && e in Live(blocks[ptrs[i]], 0)
    decreases DIRECT - lo
  {
    hide Live, Tiled;
    if lo < DIRECT {
      InSomeBlock(blocks, ptrs, lo + 1, e);
    }
  }

  /** No block at or past the recorded size is mapped, so a scan up to it sees everything. */
  lemma ScanComplete(fs: FileSystem, d: nat, k: nat)
    requires IsDir(fs, d) && k <= DIRECT && k * fs.bs >= fs.inodes[d].size
    ensures Entries(fs, d) == EntriesIn(fs.blocks, fs.inodes[d].block, 0, k)
  {
    hide Allocator.Valid;
    hide Allocator.Healthy;
    var raw := fs.inodes[d];
    PastSize(raw.block, fs.bs, raw.size, k);
    EntriesSplit(fs.blocks, raw.block, 0, k, DIRECT);
    Unmapped(fs.blocks, raw.block, k, DIRECT);
  }

  /** The inode of the first entry called `name`, or 0 exactly when there is none. */
  method Lookup(fs: FileSystem, d: nat, name: seq<Byte>) returns (ino: nat, ghost at: nat)
    requires IsDir(fs, d) && fs.inodes[d].size <= DIRECT * fs.bs
    ensures ino != 0 ==> at < |Entries(fs, d)| && Entries(fs, d)[at].ino == ino && Entries(fs, d)[at].name == name
    ensures ino != 0 ==> forall i :: 0 <= i < at ==> Entries(fs, d)[i].name != name
    ensures ino == 0 <==> forall i :: 0 <= i < |Entries(fs, d)| ==> Entries(fs, d)[i].name != name
  {
    hide Allocator.Valid;
    hide Allocator.Healthy;
    hide FirstNamed;
    hide NoneNamed;
    hide EntriesIn;
    hide LiveTo;
    hide Reaches;
    hide Live;
    var raw := fs.inodes[d];
    var k := 0;
    at := 0;
    var offset := 0;
    NoEntries(fs.blocks, raw.block, name);
    while offset < raw.size
      invariant 0 <= k <= DIRECT && offset == k * fs.bs
      invariant NoneNamed(EntriesIn(fs.blocks, raw.block, 0, k), name)
      decreases DIRECT - k
    {
      BelowDirect(k, fs.bs, raw.size);
      AroundBlock(fs.blocks, raw.block, k);
      EntriesStep(fs.blocks, raw.block, k);
      if raw.block[k] != 0 {
        var b := fs.blocks[raw.block[k]];
        var off := FindInBlock(b, name);
        if off < |b| {
          at := |LiveTo(b, 0, off)|;
          FirstWithin(EntriesIn(fs.blocks, raw.block, 0, k), Live(b, 0), EntriesIn(fs.blocks, raw.block, k + 1, DIRECT),
                      name, at);
          at := |EntriesIn(fs.blocks, raw.block, 0, k)| + at;
          FirstNamedIs(Entries(fs, d), name, at);
          return Ino(b, off), at;
        }
      }
      NoneInBoth(EntriesIn(fs.blocks, raw.block, 0, k), BlockEntries(fs.blocks, raw.block, k), name);
      assert (k + 1) * fs.bs == k * fs.bs + fs.bs;
      k := k + 1;
      offset := offset + fs.bs;
    }
    ScanComplete(fs, d, k);
    NoneNamedIs(Entries(fs, d), name);
    return 0, 0;
  }

  lemma FirstNamedIs(es: seq<Entry>, name: seq<Byte>, at: nat)
    requires FirstNamed(es, name, at)
    ensures at < |es| && es[at].name == name && forall i :: 0 <= i < at ==> es[i].name != name
  {}

  lemma NoneNamedIs(es: seq<Entry>, name: seq<Byte>)
    ensures NoneNamed(es, name) <==> forall i :: 0 <= i < |es| ==> es[i].name != name
  {}

  lemma RemovedIs(was: seq<Entry>, now: seq<Entry>, at: nat)
    requires Removed(was, now, at)
    ensures at < |was| && now == was[..at] + was[at + 1..]
  {}

  lemma PastSize(ptrs: seq<nat>, bs: nat, size: nat, k: nat)
    requires bs > 0 && |ptrs| >= DIRECT && forall i :: 0 <= i < DIRECT && ptrs[i] != 0 ==> (i + 1) * bs <= size
    requires k * bs >= size
    ensures forall i :: k <= i < DIRECT ==> ptrs[i] == 0
  {
    forall i | k <= i < DIRECT ensures ptrs[i] == 0 {
      MulMono(k, i, bs);
      assert (i + 1) * bs == i * bs + bs;
    }
  }

  lemma BelowDirect(k: nat, bs: nat, size: nat)
    requires k <= DIRECT && k * bs < size <= DIRECT * bs
    ensures k < DIRECT
  {}

  lemma NoEntries(blocks: seq<Block>, ptrs: seq<nat>, name: seq<Byte>)
    requires DirBlocks(blocks, ptrs)
    ensures EntriesIn(blocks, ptrs, 0, 0) == [] && NoneNamed(EntriesIn(blocks, ptrs, 0, 0), name)
  {}

  lemma NoneInBoth(a: seq<Entry>, b: seq<Entry>, name: seq<Byte>)
    requires NoneNamed(a, name) && NoneNamed(b, name)
    ensures NoneNamed(a + b, name)
  {}

  lemma NotNone(es: seq<Entry>, name: seq<Byte>, at: nat)
    requires FirstNamed(es, name, at)
    ensures !NoneNamed(es, name)
  {}

  /** Entry number `index` of the listing: its inode, its name cut at 63 bytes, and its type;
      fails exactly past the end. */
  method ReadDir(fs: FileSystem, d: nat, index: nat) returns (ok: bool, ino: nat, name: seq<Byte>, dtype: nat)
    requires IsDir(fs, d) && fs.inodes[d].size <= DIRECT * fs.bs
    ensures ok <==> index < |Entries(fs, d)|
    ensures ok ==> var e := Entries(fs, d)[index];
                   && ino == e.ino && dtype == (if e.ftype == 2 then 4 else 8)
                   && name == if |e.name| > 63 then e.name[..63] else e.name
  {
    hide Allocator.Valid;
    hide Allocator.Healthy;
    hide EntriesIn;
    hide Reaches;
    hide Live;
    var raw := fs.inodes[d];
    var k := 0;
    var left: nat := index;
    var offset := 0;
    ino, name, dtype := 0, [], 0;
    NoEntries(fs.blocks, raw.block, []);
    while offset < raw.size
      invariant 0 <= k <= DIRECT && offset == k * fs.bs
      invariant left + |EntriesIn(fs.blocks, raw.block, 0, k)| == index
      decreases DIRECT - k
    {
      BelowDirect(k, fs.bs, raw.size);
      AroundBlock(fs.blocks, raw.block, k);
      EntriesStep(fs.blocks, raw.block, k);
      if raw.block[k] != 0 {
        var b := fs.blocks[raw.block[k]];
        var off, rest := NthInBlock(b, left);
        if off < |b| {
          var n := if NameLen(b, off) > 63 then 63 else NameLen(b, off);
          assert EntryAt(b, off) == Entries(fs, d)[index];
          return true, Ino(b, off), Name(b, off)[..n], if FileType(b, off) == 2 then 4 else 8;
        }
        left := rest;
      }
      assert (k + 1) * fs.bs == k * fs.bs + fs.bs;
      k := k + 1;
      offset := offset + fs.bs;
    }
    ScanComplete(fs, d, k);
    ok := false;
  }

  /** Kills the first entry called `name`; fails, changing nothing, exactly when there is none. */
  method RemoveEntry(fs: FileSystem, d: nat, name: seq<Byte>) returns (ok: bool, ghost at: nat)
    requires IsDir(fs, d) && fs.inodes[d].size <= DIRECT * fs.bs
    modifies fs
    ensures IsDir(fs, d) && fs.inodes == old(fs.inodes) && fs.own == old(fs.own) && fs.OthersKept(d)
    ensures ok <==> !NoneNamed(old(Entries(fs, d)), name)
    ensures ok ==> FirstNamed(old(Entries(fs, d)), name, at) && Removed(old(Entries(fs, d)), Entries(fs, d), at)
    ensures ok <==> exists i :: 0 <= i < |old(Entries(fs, d))| && old(Entries(fs, d))[i].name == name
    ensures ok ==> at < |old(Entries(fs, d))| && old(Entries(fs, d))[at].name == name
    ensures ok ==> forall i :: 0 <= i < at ==> old(Entries(fs, d))[i].name != name
    ensures ok ==> Entries(fs, d) == old(Entries(fs, d))[..at] + old(Entries(fs, d))[at + 1..]
    ensures !ok ==> fs.blocks == old(fs.blocks)
  {
    hide Allocator.Valid;
    hide Allocator.Healthy;
    hide FirstNamed;
    hide NoneNamed;
    hide Removed;
    hide EntriesIn;
    hide LiveTo;
    hide Reaches;
    hide Live;
    var raw := fs.inodes[d];
    var k := 0;
    at := 0;
    var offset := 0;
    NoEntries(fs.blocks, raw.block, name);
    while offset < raw.size
      invariant 0 <= k <= DIRECT && offset == k * fs.bs
      invariant fs.blocks == old(fs.blocks) && fs.inodes == old(fs.inodes) && fs.own == old(fs.own)
      invariant NoneNamed(EntriesIn(fs.blocks, raw.block, 0, k), name)
      decreases DIRECT - k
    {
      BelowDirect(k, fs.bs, raw.size);
      EntriesStep(fs.blocks, raw.block, k);
      if raw.block[k] != 0 {
        var b := fs.blocks[raw.block[k]];
        var off := FindInBlock(b, name);
        if off < |b| {
          at := Kill(fs, d, k, off, name);
          FirstNamedIs(old(Entries(fs, d)), name, at);
          RemovedIs(old(Entries(fs, d)), Entries(fs, d), at);
          return true, at;
        }
      }
      NoneInBoth(EntriesIn(fs.blocks, raw.block, 0, k), BlockEntries(fs.blocks, raw.block, k), name);
      assert (k + 1) * fs.bs == k * fs.bs + fs.bs;
      k := k + 1;
      offset := offset + fs.bs;
    }
    ScanComplete(fs, d, k);
    NoneNamedIs(Entries(fs, d), name);
    return false, 0;
  }

  /** Clears the inode of the record at `off` of block `k` and writes the block back. */
  method Kill(fs: FileSystem, d: nat, k: nat, off: nat, ghost name: seq<Byte>) returns (ghost at: nat)
    requires IsDir(fs, d) && k < DIRECT && fs.inodes[d].block[k] != 0
    requires var b := fs.blocks[fs.inodes[d].block[k]];
             off < |b| && Reaches(b, 0, off) && RecOk(b, off) && Ino(b, off) != 0
             && FirstNamed(Live(b, 0), name, |LiveTo(b, 0, off)|)
    requires NoneNamed(EntriesIn(fs.blocks, fs.inodes[d].block, 0, k), name)
    modifies fs`blocks, fs`inodes
    ensures IsDir(fs, d) && fs.OthersKept(d) && fs.inodes == old(fs.inodes)
    ensures FirstNamed(old(Entries(fs, d)), name, at) && Removed(old(Entries(fs, d)), Entries(fs, d), at)
    ensures !NoneNamed(old(Entries(fs, d)), name)
  {
    hide FileSystem.Valid, FirstNamed, NoneNamed, Removed, EntriesIn, LiveTo, Reaches, Live, Killed, RecOk;
    var raw := fs.inodes[d];
    DirShape(fs, d);
    var b := fs.blocks[raw.block[k]];
    var c := Killed(b, off);
    ghost var pre, post := EntriesIn(fs.blocks, raw.block, 0, k), EntriesIn(fs.blocks, raw.block, k + 1, DIRECT);
    at := |LiveTo(b, 0, off)|;
    KilledRemoves(b, off);
    EditBlock(fs.blocks, raw.block, k, c);
    FirstWithin(pre, Live(b, 0), post, name, at);
    RemovedWithin(pre, Live(b, 0), Live(c, 0), post, at);
    fs.PutBlock(d, k, c, raw.size);
    assert fs.inodes == old(fs.inodes);
    at := |pre| + at;
    NotNone(old(Entries(fs, d)), name, at);
  }

  /** Adds an entry: in the first record with room for it, or else in a new block at the index given by the recorded
      size, which is never mapped already.  Fails, changing nothing, only when no block is free.  `k` and `o` are the
      block and the offset of that record. */
  method AddEntry(fs: FileSystem, d: nat, name: seq<Byte>, ino: nat)
    returns (ok: bool, ghost at: nat, ghost k: nat, ghost o: nat)
    requires IsDir(fs, d) && fs.inodes[d].size < DIRECT * fs.bs && Fits(name, ino)
    modifies fs, fs.alloc
    ensures IsDir(fs, d) && fs.OthersKept(d) && fs.inodes.Keys == old(fs.inodes.Keys)
    ensures forall j :: j in old(fs.inodes) && j != d ==> fs.inodes[j] == old(fs.inodes[j])
    ensures ok ==> Inserted(old(Entries(fs, d)), Entries(fs, d), at, Entry(name, ino, 1))
    ensures ok ==> at <= |old(Entries(fs, d))|
                   && Entries(fs, d) == old(Entries(fs, d))[..at] + [Entry(name, ino, 1)] + old(Entries(fs, d))[at..]
    ensures old(exists i: nat, r: nat :: i < DIRECT && fs.inodes[d].block[i] != 0
                                         && Reaches(fs.blocks[fs.inodes[d].block[i]], 0, r) && r + HEADER <= fs.bs
                                         && RecLen(fs.blocks[fs.inodes[d].block[i]], r) >=
                                              Align4(HEADER + NameLen(fs.blocks[fs.inodes[d].block[i]], r))
                                              + NeedFor(name))
            <==> old(RoomIn(fs, d, name))
    ensures old(RoomIn(fs, d, name)) ==>
              var blocks, ptrs := old(fs.blocks), old(fs.inodes[d].block);
              && ok && k < DIRECT && 0 < ptrs[k] < |blocks| && RoomAt(blocks[ptrs[k]], o, NeedFor(name))
              && (forall r: nat :: RoomAt(blocks[ptrs[k]], r, NeedFor(name)) ==> o <= r)
              && (forall i, r: nat :: 0 <= i < k && 0 < ptrs[i] < |blocks| ==>
                    !RoomAt(blocks[ptrs[i]], r, NeedFor(name)))
              && at == |EntriesIn(blocks, ptrs, 0, k)| + |LiveTo(blocks[ptrs[k]], 0, o)|
                       + if Ino(blocks[ptrs[k]], o) == 0 then 0 else 1
    ensures old(RoomIn(fs, d, name)) ==>
              fs.inodes[d] == old(fs.inodes[d]).(size := old(fs.inodes[d].size) + NeedFor(name))
    ensures !old(RoomIn(fs, d, name)) && ok ==>
              fs.inodes[d].size == old(fs.inodes[d].size) + fs.bs && at == |old(Entries(fs, d))|
    ensures !ok ==> fs.blocks == old(fs.blocks) && fs.inodes == old(fs.inodes)
    ensures old(RoomIn(fs, d, name)) ==> fs.alloc.FreeSet() == old(fs.alloc.FreeSet())
    ensures !old(RoomIn(fs, d, name)) && ok ==> OneTaken(old(fs.alloc.FreeSet()), fs.alloc.FreeSet())
    ensures !ok ==> fs.alloc.FreeSet() == old(fs.alloc.FreeSet()) == {}
  {
    hide Inserted, EntriesIn, OneTaken, Allocator.FreeSet, RoomIn, RoomAt, FirstRoom, FileSystem.Valid, Tiled, NeedFor,
      LiveTo;
    RoomIs(fs, d, name);
    ok, at, k, o := InsertWithRoom(fs, d, name, ino);
    if ok {
      FirstRoomIs(old(fs.blocks), old(fs.inodes[d].block), name, k, o, at);
    } else {
      ok, at := InsertNewBlock(fs, d, name, ino);
    }
    if ok {
      InsertedIs(old(Entries(fs, d)), Entries(fs, d), at, Entry(name, ino, 1));
    }
  }

  lemma InsertedIs(was: seq<Entry>, now: seq<Entry>, at: nat, e: Entry)
    requires Inserted(was, now, at, e)
    ensures at <= |was| && now == was[..at] + [e] + was[at..]
  {}

  /** There is room exactly if some record, dead or alive, of a mapped block is long enough to be split. */
  lemma RoomIs(fs: FileSystem, d: nat, name: seq<Byte>)
    requires IsDir(fs, d)
    ensures |fs.inodes[d].block| == 15 && (forall b :: 0 <= b < |fs.blocks| ==> |fs.blocks[b]| == fs.bs)
    ensures forall i :: 0 <= i < DIRECT ==> fs.inodes[d].block[i] < |fs.blocks|
    ensures (exists i: nat, r: nat :: i < DIRECT && fs.inodes[d].block[i] != 0
                                      && Reaches(fs.blocks[fs.inodes[d].block[i]], 0, r) && r + HEADER <= fs.bs
                                      && RecLen(fs.blocks[fs.inodes[d].block[i]], r) >=
                                           Align4(HEADER + NameLen(fs.blocks[fs.inodes[d].block[i]], r))
                                           + NeedFor(name))
            <==> RoomIn(fs, d, name)
  {
    hide FileSystem.Valid, Reaches, RecLen, Align4, NeedFor, NameLen, Tiled, RoomAt;
    DirShape(fs, d);
    var blocks, ptrs, need := fs.blocks, fs.inodes[d].block, NeedFor(name);
    forall i: nat, r: nat | i < DIRECT && ptrs[i] != 0
      ensures RoomAt(blocks[ptrs[i]], r, need) <==>
                Reaches(blocks[ptrs[i]], 0, r) && r + HEADER <= fs.bs
                && RecLen(blocks[ptrs[i]], r) >= Align4(HEADER + NameLen(blocks[ptrs[i]], r)) + need
    {
      RoomAtIs(blocks[ptrs[i]], r, need);
    }
  }

  lemma RoomAtIs(b: seq<Byte>, o: nat, need: nat)
    ensures RoomAt(b, o, need) <==>
              Reaches(b, 0, o) && o + HEADER <= |b| && RecLen(b, o) >= Align4(HEADER + NameLen(b, o)) + need
  {}

  /** The record at `o` of block `k` is the first with room, and `at` is the place in the listing behind it. */
  ghost predicate FirstRoom(blocks: seq<Block>, ptrs: seq<nat>, name: seq<Byte>, k: nat, o: nat, at: nat) {
    && DirBlocks(blocks, ptrs) && k < DIRECT && ptrs[k] != 0 && RoomAt(blocks[ptrs[k]], o, NeedFor(name))
    && (forall r: nat :: RoomAt(blocks[ptrs[k]], r, NeedFor(name)) ==> o <= r)
    && (forall i, r: nat :: 0 <= i < k && ptrs[i] != 0 ==> !RoomAt(blocks[ptrs[i]], r, NeedFor(name)))
    && at == |EntriesIn(blocks, ptrs, 0, k)| + |LiveTo(blocks[ptrs[k]], 0, o)|
             + if Ino(blocks[ptrs[k]], o) == 0 then 0 else 1
  }

  lemma FirstRoomIs(blocks: seq<Block>, ptrs: seq<nat>, name: seq<Byte>, k: nat, o: nat, at: nat)
    requires FirstRoom(blocks, ptrs, name, k, o, at)
    ensures DirBlocks(blocks, ptrs) && k < DIRECT && 0 < ptrs[k] < |blocks| && RoomAt(blocks[ptrs[k]], o, NeedFor(name))
    ensures forall r: nat :: RoomAt(blocks[ptrs[k]], r, NeedFor(name)) ==> o <= r
    ensures forall i, r: nat :: 0 <= i < k && 0 < ptrs[i] < |blocks| ==> !RoomAt(blocks[ptrs[i]], r, NeedFor(name))
    ensures at == |EntriesIn(blocks, ptrs, 0, k)| + |LiveTo(blocks[ptrs[k]], 0, o)|
                  + if Ino(blocks[ptrs[k]], o) == 0 then 0 else 1
  {
    hide RoomAt;
  }

  /** Scans the mapped blocks for a record with room. */
  method InsertWithRoom(fs: FileSystem, d: nat, name: seq<Byte>, ino: nat)
    returns (ok: bool, ghost at: nat, ghost n: nat, ghost o: nat)
    requires IsDir(fs, d) && fs.inodes[d].size < DIRECT * fs.bs && Fits(name, ino)
    modifies fs`blocks, fs`inodes
    ensures IsDir(fs, d) && fs.OthersKept(d) && fs.inodes.Keys == old(fs.inodes.Keys)
    ensures forall j :: j in old(fs.inodes) && j != d ==> fs.inodes[j] == old(fs.inodes[j])
    ensures ok <==> old(RoomIn(fs, d, name))
    ensures ok ==> Inserted(old(Entries(fs, d)), Entries(fs, d), at, Entry(name, ino, 1))
    ensures ok ==> FirstRoom(old(fs.blocks), old(fs.inodes[d].block), name, n, o, at)
    ensures ok ==> fs.inodes[d] == old(fs.inodes[d]).(size := old(fs.inodes[d].size) + NeedFor(name))
    ensures !ok ==> fs.blocks == old(fs.blocks) && fs.inodes == old(fs.inodes)
  {
    hide FileSystem.Valid, Inserted, EntriesIn, RoomAt, Tiled, NeedFor;
    DirShape(fs, d);
    var raw := fs.inodes[d];
    var k := 0;
    at, n, o := 0, 0, 0;
    var offset := 0;
    while offset < raw.size
      invariant 0 <= k <= DIRECT && offset == k * fs.bs
      invariant fs.blocks == old(fs.blocks) && fs.inodes == old(fs.inodes)
      invariant forall i, r: nat :: 0 <= i < k && raw.block[i] != 0 ==>
                  !RoomAt(fs.blocks[raw.block[i]], r, NeedFor(name))
      decreases DIRECT - k
    {
      BelowDirect(k, fs.bs, raw.size);
      if raw.block[k] != 0 {
        ok, at, o := InsertAt(fs, d, k, name, ino);
        if ok {
          n := k;
          return;
        }
      }
      assert (k + 1) * fs.bs == k * fs.bs + fs.bs;
      k := k + 1;
      offset := offset + fs.bs;
    }
    PastSize(raw.block, fs.bs, raw.size, k);
    ok := false;
  }

  /** Some mapped block has a record with room for the entry. */
  ghost predicate RoomIn(fs: FileSystem, d: nat, name: seq<Byte>)
    requires IsDir(fs, d)
    reads fs, fs.alloc
  {
    exists k: nat, o: nat :: k < DIRECT && fs.inodes[d].block[k] != 0
      && RoomAt(fs.blocks[fs.inodes[d].block[k]], o, NeedFor(name))
  }

  /** Tries block `k`; on success writes the block back and records a size larger by the bytes used. */
  method InsertAt(fs: FileSystem, d: nat, k: nat, name: seq<Byte>, ino: nat)
    returns (done: bool, ghost at: nat, ghost o: nat)
    requires IsDir(fs, d) && k < DIRECT && fs.inodes[d].block[k] != 0 && Fits(name, ino)
    modifies fs`blocks, fs`inodes
    ensures IsDir(fs, d) && fs.OthersKept(d)
    ensures var b := old(fs.blocks[fs.inodes[d].block[k]]);
            if done then RoomAt(b, o, NeedFor(name)) && forall r: nat :: RoomAt(b, r, NeedFor(name)) ==> o <= r
            else forall r: nat :: !RoomAt(b, r, NeedFor(name))
    ensures done ==> Inserted(old(Entries(fs, d)), Entries(fs, d), at, Entry(name, ino, 1))
    ensures done ==>
              var b := old(fs.blocks[fs.inodes[d].block[k]]);
              at == |EntriesIn(old(fs.blocks), old(fs.inodes[d].block), 0, k)| + |LiveTo(b, 0, o)|
                    + if Ino(b, o) == 0 then 0 else 1
    ensures done ==>
              fs.inodes == old(fs.inodes)[d := old(fs.inodes[d]).(size := old(fs.inodes[d].size) + NeedFor(name))]
    ensures !done ==> fs.blocks == old(fs.blocks) && fs.inodes == old(fs.inodes)
  {
    hide FileSystem.Valid, Inserted, EntriesIn, Live, Tiled;
    var raw := fs.inodes[d];
    DirShape(fs, d);
    var b := fs.blocks[raw.block[k]];
    var c;
    done, c, at, o := InsertInBlock(b, name, ino);
    if done {
      ghost var pre, post := EntriesIn(fs.blocks, raw.block, 0, k), EntriesIn(fs.blocks, raw.block, k + 1, DIRECT);
      EditBlock(fs.blocks, raw.block, k, c);
      InsertedWithin(pre, Live(b, 0), Live(c, 0), post, at, Entry(name, ino, 1));
      fs.PutBlock(d, k, c, raw.size + NeedFor(name));
      at := |pre| + at;
    }
  }

  /** What a directory's pointers and blocks look like. */
  lemma DirShape(fs: FileSystem, d: nat)
    requires IsDir(fs, d)
    ensures (fs.bs == 1024 || fs.bs == 2048 || fs.bs == 4096) && |fs.inodes[d].block| == 15
    ensures Device(fs.blocks, fs.bs) && Pointers(fs.inodes[d].block, |fs.blocks|)
  {
    fs.PointersOk(d, fs.inodes[d]);
  }

  /** Gives the directory a new block at index size / block size. */
  method InsertNewBlock(fs: FileSystem, d: nat, name: seq<Byte>, ino: nat) returns (ok: bool, ghost at: nat)
    requires IsDir(fs, d) && fs.inodes[d].size < DIRECT * fs.bs && Fits(name, ino)
    modifies fs, fs.alloc
    ensures IsDir(fs, d) && fs.OthersKept(d)
    ensures ok ==> Inserted(old(Entries(fs, d)), Entries(fs, d), at, Entry(name, ino, 1))
    ensures ok ==> old(fs.inodes[d].block)[old(fs.inodes[d].size) / fs.bs] == 0
    ensures fs.inodes.Keys == old(fs.inodes.Keys)
    ensures forall j :: j in old(fs.inodes) && j != d ==> fs.inodes[j] == old(fs.inodes[j])
    ensures ok ==> fs.inodes[d].size == old(fs.inodes[d].size) + fs.bs && at == |old(Entries(fs, d))|
    ensures !ok ==> fs.blocks == old(fs.blocks) && fs.inodes == old(fs.inodes) && fs.own == old(fs.own)
    ensures if ok then OneTaken(old(fs.alloc.FreeSet()), fs.alloc.FreeSet())
              else fs.alloc.FreeSet() == old(fs.alloc.FreeSet()) == {}
  {
    hide FileSystem.Valid, Inserted, EntriesIn, Live, Tiled, FreshBlock;
    var raw := fs.inodes[d];
    DirShape(fs, d);
    InDirect(fs.bs, raw.size);
    var k := raw.size / fs.bs;
    AboveMapped(raw.block, fs.bs, raw.size);
    ghost var was := Entries(fs, d);
    at := |was|;
    var c := FreshBlock(fs.bs, name, ino);
    FreshLive(fs.bs, name, ino);
    var b := fs.NewBlock(d, k, c, raw.size + fs.bs);
    ok := b != 0;
    if ok {
      AppendBlock(old(fs.blocks), raw.block, k, b, c);
      Appended(was, Entry(name, ino, 1));
    }
  }

  /** Every index from size / block size on is unmapped. */
  lemma AboveMapped(ptrs: seq<nat>, bs: nat, size: nat)
    requires bs > 0 && |ptrs| >= DIRECT && forall k :: 0 <= k < DIRECT && ptrs[k] != 0 ==> (k + 1) * bs <= size
    ensures forall k :: 0 <= size / bs <= k < DIRECT ==> ptrs[k] == 0
    ensures (size / bs + 1) * bs <= size + bs
  {
    DivModBack(bs, size);
    assert (size / bs + 1) * bs == size / bs * bs + bs;
    forall k | 0 <= size / bs <= k < DIRECT ensures ptrs[k] == 0 {
      MulMono(size / bs + 1, k + 1, bs);
    }
  }

  lemma Appended(es: seq<Entry>, e: Entry)
    ensures Inserted(es, es + [e], |es|, e)
  {
    assert es[..|es|] == es && es[|es|..] == [];
  }

  // ------------------------------------------------------------------ runs

  datatype DirOp = Add(name: seq<Byte>, ino: nat) | Remove(name: seq<Byte>)

  lemma InsertedBag(was: seq<Entry>, now: seq<Entry>, at: nat, e: Entry)
    requires Inserted(was, now, at, e)
    ensures multiset(now) == multiset(was) + multiset{e}
  {
    assert was == was[..at] + was[at..];
  }

  lemma RemovedBag(was: seq<Entry>, now: seq<Entry>, at: nat)
    requires Removed(was, now, at)
    ensures multiset(now) + multiset{was[at]} == multiset(was)
  {
    assert was == was[..at] + [was[at]] + was[at + 1..];
  }

  /** What one operation does to the listing `was` and the free blocks: `ok` is its result and `at` the position it
      changes.  An insertion fails only when no block is free, a removal exactly when nothing has that name. */
  ghost predicate Explains(was: seq<Entry>, free: set<nat>, op: DirOp, ok: bool, at: nat, now: seq<Entry>,
                           left: set<nat>)
  {
    match op
    case Add(name, ino) =>
      if ok then Inserted(was, now, at, Entry(name, ino, 1)) && (left == free || OneTaken(free, left))
      else now == was && left == free == {}
    case Remove(name) =>
      && left == free
      && if ok then FirstNamed(was, name, at) && Removed(was, now, at) else NoneNamed(was, name) && now == was
  }

  method DirStep(fs: FileSystem, d: nat, op: DirOp) returns (ok: bool, ghost at: nat)
    requires IsDir(fs, d) && fs.inodes[d].size < DIRECT * fs.bs && (op.Add? ==> Fits(op.name, op.ino))
    modifies fs, fs.alloc
    ensures IsDir(fs, d)
    ensures Explains(old(Entries(fs, d)), old(fs.alloc.FreeSet()), op, ok, at, Entries(fs, d), fs.alloc.FreeSet())
    ensures SameElsewhere(old(fs.inodes), old(fs.blocks), fs.inodes, fs.blocks, d)
              && fs.inodes.Keys == old(fs.inodes.Keys)
  {
    hide FileSystem.Valid, Inserted, Removed, OneTaken, EntriesIn, SameElsewhere;
    match op
    case Add(name, ino) =>
      ghost var k, o;
      ok, at, k, o := AddEntry(fs, d, name, ino);
      if !ok {
        assert Entries(fs, d) == old(Entries(fs, d));
      }
      fs.ElsewhereSame(d);
    case Remove(name) =>
      ok, at := RemoveEntry(fs, d, name);
      if !ok {
        assert Entries(fs, d) == old(Entries(fs, d));
      }
      fs.ElsewhereSame(d);
  }

  /** Every other file reads as it did, and every other directory lists what it listed. */
  twostate predicate OthersUntouched(fs: FileSystem, d: nat)
    reads fs, fs.alloc
  {
    && (forall j :: j != d && old(fs.File(j)) ==> fs.File(j) && fs.Contents(j) == old(fs.Contents(j)))
    && (forall e :: e != d && old(IsDir(fs, e)) ==> IsDir(fs, e) && Entries(fs, e) == old(Entries(fs, e)))
  }

  /** The listings and free blocks before and after each of the operations done. */
  ghost predicate History(lists: seq<seq<Entry>>, frees: seq<set<nat>>, ops: seq<DirOp>, oks: seq<bool>,
                          places: seq<nat>)
  {
    && |oks| == |places| <= |ops| && |lists| == |frees| == |oks| + 1
    && forall k :: 0 <= k < |oks| ==>
         Explains(lists[k], frees[k], ops[k], oks[k], places[k], lists[k + 1], frees[k + 1])
  }

  lemma HistoryOne(lists: seq<seq<Entry>>, frees: seq<set<nat>>, ops: seq<DirOp>, oks: seq<bool>, places: seq<nat>,
                   ok: bool, at: nat, now: seq<Entry>, left: set<nat>)
    requires History(lists, frees, ops, oks, places) && |oks| < |ops|
    requires Explains(lists[|oks|], frees[|oks|], ops[|oks|], ok, at, now, left)
    ensures History(lists + [now], frees + [left], ops, oks + [ok], places + [at])
  {
    hide Explains;
  }

  /** Every run of insertions and removals: the listing at the end is the one at the start with each operation's
      insertion or removal done in turn.  The run ends early only when the recorded size has reached 12 blocks. */
  method RunDir(fs: FileSystem, d: nat, ops: seq<DirOp>)
    returns (oks: seq<bool>, ghost places: seq<nat>, ghost lists: seq<seq<Entry>>, ghost frees: seq<set<nat>>)
    requires IsDir(fs, d) && forall k :: 0 <= k < |ops| && ops[k].Add? ==> Fits(ops[k].name, ops[k].ino)
    modifies fs, fs.alloc
    ensures IsDir(fs, d) && History(lists, frees, ops, oks, places)
    ensures |oks| == |places| <= |ops| && |lists| == |frees| == |oks| + 1
    ensures forall i :: 0 <= i < |oks| && ops[i].Add? && oks[i] ==>
              places[i] <= |lists[i]|
              && lists[i + 1] == lists[i][..places[i]] + [Entry(ops[i].name, ops[i].ino, 1)] + lists[i][places[i]..]
    ensures forall i :: 0 <= i < |oks| && ops[i].Add? && !oks[i] ==> lists[i + 1] == lists[i] && frees[i] == {}
    ensures forall i :: 0 <= i < |oks| && ops[i].Remove? && oks[i] ==>
              && places[i] < |lists[i]| && lists[i][places[i]].name == ops[i].name
              && (forall j :: 0 <= j < places[i] ==> lists[i][j].name != ops[i].name)
              && lists[i + 1] == lists[i][..places[i]] + lists[i][places[i] + 1..]
    ensures forall i :: 0 <= i < |oks| && ops[i].Remove? && !oks[i] ==>
              lists[i + 1] == lists[i] && forall j :: 0 <= j < |lists[i]| ==> lists[i][j].name != ops[i].name
    ensures lists[0] == old(Entries(fs, d)) && lists[|oks|] == Entries(fs, d)
    ensures frees[0] == old(fs.alloc.FreeSet()) && frees[|oks|] == fs.alloc.FreeSet()
    ensures |oks| < |ops| ==> fs.inodes[d].size >= DIRECT * fs.bs
    ensures SameElsewhere(old(fs.inodes), old(fs.blocks), fs.inodes, fs.blocks, d)
              && fs.inodes.Keys == old(fs.inodes.Keys)
    ensures forall j :: j != d && old(fs.File(j)) ==> fs.File(j) && fs.Contents(j) == old(fs.Contents(j))
    ensures forall e :: e != d && old(IsDir(fs, e)) ==> IsDir(fs, e) && Entries(fs, e) == old(Entries(fs, e))
  {
    hide IsDir, Entries, Explains, SameElsewhere, FileSystem.File, FileSystem.Contents, Allocator.FreeSet;
    IsListed(fs, d);
    NothingElsewhere(fs, d);
    oks, places, lists, frees := [], [], [Entries(fs, d)], [fs.alloc.FreeSet()];
    while |oks| < |ops| && fs.inodes[d].size < DIRECT * fs.bs
      invariant IsDir(fs, d) && d in fs.inodes && fs.alloc.Shape() && History(lists, frees, ops, oks, places)
      invariant lists[0] == old(Entries(fs, d)) && lists[|oks|] == Entries(fs, d)
      invariant frees[0] == old(fs.alloc.FreeSet()) && frees[|oks|] == fs.alloc.FreeSet()
      invariant SameElsewhere(old(fs.inodes), old(fs.blocks), fs.inodes, fs.blocks, d)
      invariant fs.inodes.Keys == old(fs.inodes.Keys)
      decreases |ops| - |oks|
    {
      ghost var nodes1 := fs.inodes;
      ghost var blocks1 := fs.blocks;
      var ok, at := DirStep(fs, d, ops[|oks|]);
      IsListed(fs, d);
      ElsewhereTwice(old(fs.inodes), old(fs.blocks), nodes1, blocks1, fs.inodes, fs.blocks, d);
      HistoryOne(lists, frees, ops, oks, places, ok, at, Entries(fs, d), fs.alloc.FreeSet());
      oks, places, lists, frees := oks + [ok], places + [at], lists + [Entries(fs, d)], frees + [fs.alloc.FreeSet()];
    }
    IsListed(fs, d);
    OthersSame(fs);
    HistoryIs(lists, frees, ops, oks, places);
  }

  /** What a history says, operation by operation. */
  lemma HistoryIs(lists: seq<seq<Entry>>, frees: seq<set<nat>>, ops: seq<DirOp>, oks: seq<bool>, places: seq<nat>)
    requires History(lists, frees, ops, oks, places)
    ensures |oks| == |places| <= |ops| && |lists| == |frees| == |oks| + 1
    ensures forall i :: 0 <= i < |oks| && ops[i].Add? && oks[i] ==>
              places[i] <= |lists[i]|
              && lists[i + 1] == lists[i][..places[i]] + [Entry(ops[i].name, ops[i].ino, 1)] + lists[i][places[i]..]
    ensures forall i :: 0 <= i < |oks| && ops[i].Add? && !oks[i] ==> lists[i + 1] == lists[i] && frees[i] == {}
    ensures forall i :: 0 <= i < |oks| && ops[i].Remove? && oks[i] ==>
              && places[i] < |lists[i]| && lists[i][places[i]].name == ops[i].name
              && (forall j :: 0 <= j < places[i] ==> lists[i][j].name != ops[i].name)
              && lists[i + 1] == lists[i][..places[i]] + lists[i][places[i] + 1..]
    ensures forall i :: 0 <= i < |oks| && ops[i].Remove? && !oks[i] ==>
              lists[i + 1] == lists[i] && forall j :: 0 <= j < |lists[i]| ==> lists[i][j].name != ops[i].name
  {
    forall i | 0 <= i < |oks| {
      HistoryAt(lists, frees, ops, oks, places, i);
    }
  }

  lemma HistoryAt(lists: seq<seq<Entry>>, frees: seq<set<nat>>, ops: seq<DirOp>, oks: seq<bool>, places: seq<nat>,
                  i: nat)
    requires History(lists, frees, ops, oks, places) && i < |oks|
    ensures ops[i].Add? && oks[i] ==>
              places[i] <= |lists[i]|
              && lists[i + 1] == lists[i][..places[i]] + [Entry(ops[i].name, ops[i].ino, 1)] + lists[i][places[i]..]
    ensures ops[i].Add? && !oks[i] ==> lists[i + 1] == lists[i] && frees[i] == {}
    ensures ops[i].Remove? && oks[i] ==>
              && places[i] < |lists[i]| && lists[i][places[i]].name == ops[i].name
              && (forall j :: 0 <= j < places[i] ==> lists[i][j].name != ops[i].name)
              && lists[i + 1] == lists[i][..places[i]] + lists[i][places[i] + 1..]
    ensures ops[i].Remove? && !oks[i] ==>
              lists[i + 1] == lists[i] && forall j :: 0 <= j < |lists[i]| ==> lists[i][j].name != ops[i].name
  {
    assert Explains(lists[i], frees[i], ops[i], oks[i], places[i], lists[i + 1], frees[i + 1]);
  }

  twostate lemma OthersSame(fs: FileSystem)
    requires fs.Valid() && Device(fs.blocks, fs.bs)
    ensures forall d :: SameElsewhere(old(fs.inodes), old(fs.blocks), fs.inodes, fs.blocks, d) ==>
              OthersUntouched(fs, d)
  {
    hide FileSystem.File, FileSystem.Contents, FileSystem.Valid, Device, Tiled, EntriesIn;
    forall d | SameElsewhere(old(fs.inodes), old(fs.blocks), fs.inodes, fs.blocks, d) ensures OthersUntouched(fs, d) {
      fs.OtherContents(d);
      forall e | e != d && old(IsDir(fs, e)) ensures IsDir(fs, e) && Entries(fs, e) == old(Entries(fs, e)) {
        assert SameBlocks(old(fs.inodes[e]).block, old(fs.blocks), fs.blocks);
        SameEntries(old(fs.blocks), fs.inodes[e].block, fs.blocks, fs.inodes[e].block, 0, DIRECT);
      }
    }
  }

  lemma NothingElsewhere(fs: FileSystem, d: nat)
    requires IsDir(fs, d)
    ensures SameElsewhere(fs.inodes, fs.blocks, fs.inodes, fs.blocks, d)
  {
    forall j | j in fs.inodes ensures SameBlocks(fs.inodes[j].block, fs.blocks, fs.blocks) {
      fs.PointersOk(j, fs.inodes[j]);
    }
  }

  lemma ElsewhereTwice(nodes0: map<nat, Inode>, blocks0: seq<Block>, nodes1: map<nat, Inode>, blocks1: seq<Block>,
                       nodes: map<nat, Inode>, blocks: seq<Block>, d: nat)
    requires SameElsewhere(nodes0, blocks0, nodes1, blocks1, d) && SameElsewhere(nodes1, blocks1, nodes, blocks, d)
    ensures SameElsewhere(nodes0, blocks0, nodes, blocks, d)
  {
    forall j | j in nodes0 && j != d ensures SameBlocks(nodes0[j].block, blocks0, blocks) {
      assert SameBlocks(nodes0[j].block, blocks0, blocks1) && SameBlocks(nodes1[j].block, blocks1, blocks);
    }
  }

  /** The entries put in by the first `n` operations. */
  ghost function Added(ops: seq<DirOp>, oks: seq<bool>, n: nat): multiset<Entry>
    requires n <= |oks| <= |ops|
  {
    if n == 0 then multiset{}
    else Added(ops, oks, n - 1) +
         if oks[n - 1] && ops[n - 1].Add? then multiset{Entry(ops[n - 1].name, ops[n - 1].ino, 1)} else multiset{}
  }

  /** The entries taken out by the first `n` operations. */
  ghost function Dropped(lists: seq<seq<Entry>>, ops: seq<DirOp>, oks: seq<bool>, places: seq<nat>,
                         n: nat): multiset<Entry>
    requires n <= |oks| <= |ops| && |oks| <= |places| && |oks| <= |lists|
  {
    if n == 0 then multiset{}
    else Dropped(lists, ops, oks, places, n - 1) +
         if oks[n - 1] && ops[n - 1].Remove? && places[n - 1] < |lists[n - 1]|
         then multiset{lists[n - 1][places[n - 1]]} else multiset{}
  }

  /** Nothing is lost or made up: what is listed at the end and was taken out is what was listed at first and was put
      in. */
  lemma {:induction false} Conserved(lists: seq<seq<Entry>>, frees: seq<set<nat>>, ops: seq<DirOp>, oks: seq<bool>,
                                     places: seq<nat>, n: nat)
    requires History(lists, frees, ops, oks, places) && n <= |oks|
    ensures multiset(lists[n]) + Dropped(lists, ops, oks, places, n) == multiset(lists[0]) + Added(ops, oks, n)
  {
    hide Inserted, Removed, OneTaken;
    if n > 0 {
      var k := n - 1;
      Conserved(lists, frees, ops, oks, places, k);
      assert Explains(lists[k], frees[k], ops[k], oks[k], places[k], lists[k + 1], frees[k + 1]);
      var plus, minus := multiset{}, multiset{};
      if oks[k] && ops[k].Add? {
        plus := multiset{Entry(ops[k].name, ops[k].ino, 1)};
        InsertedBag(lists[k], lists[n], places[k], Entry(ops[k].name, ops[k].ino, 1));
      } else if oks[k] {
        minus := multiset{lists[k][places[k]]};
        RemovedBag(lists[k], lists[n], places[k]);
      }
      BagSum(multiset(lists[n]), minus, multiset(lists[k]), plus,
             Dropped(lists, ops, oks, places, k), multiset(lists[0]), Added(ops, oks, k));
    }
  }

  lemma BagSum(now: multiset<Entry>, minus: multiset<Entry>, was: multiset<Entry>, plus: multiset<Entry>,
               removed: multiset<Entry>, first: multiset<Entry>, added: multiset<Entry>)
    requires now + minus == was + plus && was + removed == first + added
    ensures now + (removed + minus) == first + (added + plus)
  {
    forall e: Entry ensures (now + (removed + minus))[e] == (first + (added + plus))[e] {
      assert (now + minus)[e] == (was + plus)[e] && (was + removed)[e] == (first + added)[e];
    }
  }

  lemma IsListed(fs: FileSystem, d: nat)
    requires IsDir(fs, d)
    ensures d in fs.inodes && fs.alloc.Shape() && fs.Valid() && Device(fs.blocks, fs.bs)
  {}
}
