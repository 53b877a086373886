/** File contents as bytes spread over direct blocks, and what storing a chunk does to them. */
module Ext2FileBytes {
  import opened Division
  import opened Ext2Dirent

  const DIRECT: nat := 12

  type Block = seq<Byte>

  predicate Device(blocks: seq<Block>, bs: nat) {
    bs > 0 && forall b :: 0 <= b < |blocks| ==> |blocks[b]| == bs
  }

  /** Direct pointers: in range, and no block used twice. */
  predicate Pointers(ptrs: seq<nat>, n: nat) {
    && |ptrs| >= DIRECT
    && (forall k :: 0 <= k < DIRECT ==> ptrs[k] < n)
    && (forall i, j :: 0 <= i < DIRECT && 0 <= j < DIRECT && i != j && ptrs[i] != 0 ==> ptrs[i] != ptrs[j])
  }

  /** Byte `p` of the file is mapped and is `x`. */
  ghost predicate ByteIs(blocks: seq<Block>, ptrs: seq<nat>, bs: nat, p: nat, x: Byte)
    requires Device(blocks, bs) && Pointers(ptrs, |blocks|)
  {
    p / bs < DIRECT && ptrs[p / bs] != 0 && blocks[ptrs[p / bs]][p % bs] == x
  }

  /** The file's first `|w|` bytes are `w`, with no hole among them. */
  ghost predicate Reads(blocks: seq<Block>, ptrs: seq<nat>, bs: nat, w: seq<Byte>)
    requires Device(blocks, bs) && Pointers(ptrs, |blocks|)
  {
    forall p :: 0 <= p < |w| ==> ByteIs(blocks, ptrs, bs, p, w[p])
  }

  /** `w` with `chunk` written over it at `pos`, growing it if need be. */
  function Overwrite(w: seq<Byte>, pos: nat, chunk: seq<Byte>): (r: seq<Byte>)
    requires pos <= |w|
    ensures |r| == if pos + |chunk| <= |w| then |w| else pos + |chunk|
    ensures forall p :: 0 <= p < |r| ==> r[p] == if pos <= p < pos + |chunk| then chunk[p - pos] else w[p]
  {
    w[..pos] + chunk + if pos + |chunk| <= |w| then w[pos + |chunk|..] else []
  }

  lemma OverwriteTwice(w: seq<Byte>, pos: nat, a: seq<Byte>, b: seq<Byte>)
    requires pos <= |w|
    ensures Overwrite(Overwrite(w, pos, a), pos + |a|, b) == Overwrite(w, pos, a + b)
  {}

  /** The blocks after `chunk` has been stored at byte `pos`. */
  function Stored(blocks: seq<Block>, ptrs: seq<nat>, bs: nat, pos: nat, chunk: seq<Byte>): (r: seq<Block>)
    requires Device(blocks, bs) && Pointers(ptrs, |blocks|) && pos / bs < DIRECT && pos % bs + |chunk| <= bs
    ensures Device(r, bs) && |r| == |blocks|
  {
    var b := ptrs[pos / bs];
    blocks[b := Splice(blocks[b], pos % bs, chunk)]
  }

  lemma StoredByte(blocks: seq<Block>, ptrs: seq<nat>, bs: nat, w: seq<Byte>, pos: nat, chunk: seq<Byte>, p: nat)
    requires Device(blocks, bs) && Pointers(ptrs, |blocks|) && Reads(blocks, ptrs, bs, w)
    requires pos <= |w| && pos / bs < DIRECT && pos % bs + |chunk| <= bs && ptrs[pos / bs] != 0
    requires p < |Overwrite(w, pos, chunk)|
    ensures ByteIs(Stored(blocks, ptrs, bs, pos, chunk), ptrs, bs, p, Overwrite(w, pos, chunk)[p])
  {
    DivModBack(bs, p);
    DivModBack(bs, pos);
    var k, o := pos / bs, pos % bs;
    var K := k * bs;
    assert K + o == pos;
    if pos <= p < pos + |chunk| {
      DivMod(bs, k, o + (p - pos));
      assert p == K + (o + (p - pos));
    } else {
      assert ByteIs(blocks, ptrs, bs, p, w[p]);
      if p / bs == k {
        assert K + p % bs == p;
      }
    }
  }

  /** Storing a chunk at a mapped position overwrites the file there. */
  lemma StoredReads(blocks: seq<Block>, ptrs: seq<nat>, bs: nat, w: seq<Byte>, pos: nat, chunk: seq<Byte>)
    requires Device(blocks, bs) && Pointers(ptrs, |blocks|) && Reads(blocks, ptrs, bs, w)
    requires pos <= |w| && pos / bs < DIRECT && pos % bs + |chunk| <= bs && ptrs[pos / bs] != 0
    ensures Reads(Stored(blocks, ptrs, bs, pos, chunk), ptrs, bs, Overwrite(w, pos, chunk))
  {
    hide ByteIs;
    hide Stored;
    hide Overwrite;
    forall p | 0 <= p < |Overwrite(w, pos, chunk)|
      ensures ByteIs(Stored(blocks, ptrs, bs, pos, chunk), ptrs, bs, p, Overwrite(w, pos, chunk)[p])
    {
      StoredByte(blocks, ptrs, bs, w, pos, chunk, p);
    }
  }

  /** Mapping a block at an unmapped index does not change what is read. */
  lemma MappedReads(blocks: seq<Block>, ptrs: seq<nat>, bs: nat, w: seq<Byte>, k: nat, b: nat)
    requires Device(blocks, bs) && Pointers(ptrs, |blocks|) && Reads(blocks, ptrs, bs, w)
    requires k < DIRECT && ptrs[k] == 0 && 0 < b < |blocks| && forall i :: 0 <= i < DIRECT ==> ptrs[i] != b
    ensures Pointers(ptrs[k := b], |blocks|) && Reads(blocks, ptrs[k := b], bs, w)
  {
    var ptrs' := ptrs[k := b];
    assert Pointers(ptrs', |blocks|);
    hide Pointers, Device;
    forall p | 0 <= p < |w| ensures ByteIs(blocks, ptrs', bs, p, w[p]) {
      assert ByteIs(blocks, ptrs, bs, p, w[p]);
      var i := p / bs;
      assert ptrs'[i] == ptrs[i];
    }
  }

  /** The contents are determined by the blocks. */
  lemma ReadsUnique(blocks: seq<Block>, ptrs: seq<nat>, bs: nat, v: seq<Byte>, w: seq<Byte>)
    requires Device(blocks, bs) && Pointers(ptrs, |blocks|) && |v| == |w|
    requires Reads(blocks, ptrs, bs, v) && Reads(blocks, ptrs, bs, w)
    ensures v == w
  {
    forall p | 0 <= p < |v| ensures v[p] == w[p] {
      assert ByteIs(blocks, ptrs, bs, p, v[p]) && ByteIs(blocks, ptrs, bs, p, w[p]);
    }
  }

  /** What is read depends on the file's own blocks only. */
  lemma OtherReads(blocks: seq<Block>, blocks': seq<Block>, ptrs: seq<nat>, bs: nat, w: seq<Byte>)
    requires Device(blocks, bs) && Pointers(ptrs, |blocks|) && Reads(blocks, ptrs, bs, w)
    requires Device(blocks', bs) && |blocks'| == |blocks|
    requires forall k :: 0 <= k < DIRECT && ptrs[k] != 0 ==> blocks'[ptrs[k]] == blocks[ptrs[k]]
    ensures Reads(blocks', ptrs, bs, w)
  {
    forall p | 0 <= p < |w| ensures ByteIs(blocks', ptrs, bs, p, w[p]) {
      assert ByteIs(blocks, ptrs, bs, p, w[p]);
    }
  }

  /** The first `n` bytes are all mapped. */
  predicate NoHole(ptrs: seq<nat>, bs: nat, n: nat)
    requires bs > 0 && |ptrs| >= DIRECT
  {
    forall p :: 0 <= p < n ==> p / bs < DIRECT && ptrs[p / bs] != 0
  }

  /** The first `n` bytes of a file. */
  ghost function Bytes(blocks: seq<Block>, ptrs: seq<nat>, bs: nat, n: nat): (w: seq<Byte>)
    requires Device(blocks, bs) && Pointers(ptrs, |blocks|) && NoHole(ptrs, bs, n)
    ensures |w| == n && Reads(blocks, ptrs, bs, w)
  {
    seq(n, p requires 0 <= p < n => blocks[ptrs[p / bs]][p % bs])
  }

  lemma BytesAre(blocks: seq<Block>, ptrs: seq<nat>, bs: nat, w: seq<Byte>)
    requires Device(blocks, bs) && Pointers(ptrs, |blocks|) && Reads(blocks, ptrs, bs, w)
    ensures NoHole(ptrs, bs, |w|) && Bytes(blocks, ptrs, bs, |w|) == w
  {
    forall p | 0 <= p < |w| ensures p / bs < DIRECT && ptrs[p / bs] != 0 {
      assert ByteIs(blocks, ptrs, bs, p, w[p]);
    }
    ReadsUnique(blocks, ptrs, bs, Bytes(blocks, ptrs, bs, |w|), w);
  }

  /** A file without holes has at most 12 blocks, and its first bytes are in its first blocks. */
  lemma FewBlocks(ptrs: seq<nat>, bs: nat, size: nat, length: nat)
    requires bs > 0 && |ptrs| >= DIRECT && NoHole(ptrs, bs, size) && length <= size
    ensures 0 <= (length + bs - 1) / bs <= (size + bs - 1) / bs <= DIRECT
    ensures forall p :: 0 <= p < length ==> p / bs < (length + bs - 1) / bs
  {
    CeilingZero(bs);
    DivMono(bs, length + bs - 1, size + bs - 1);
    DivMono(bs, bs - 1, length + bs - 1);
    if size > 0 {
      Ceiling(bs, size);
      assert (size - 1) / bs < DIRECT;
    }
    forall p | 0 <= p < length ensures p / bs < (length + bs - 1) / bs {
      Ceiling(bs, length);
      DivMono(bs, p, length - 1);
    }
  }

  /** Dropping pointers from index `first` on keeps the bytes before it. */
  lemma ShrunkReads(blocks: seq<Block>, ptrs: seq<nat>, ptrs': seq<nat>, bs: nat, w: seq<Byte>, first: nat, length: nat)
    requires Device(blocks, bs) && Pointers(ptrs, |blocks|) && Pointers(ptrs', |blocks|) && Reads(blocks, ptrs, bs, w)
    requires length <= |w| && forall p :: 0 <= p < length ==> p / bs < first
    requires forall k :: 0 <= k < first && k < DIRECT ==> ptrs'[k] == ptrs[k]
    ensures Reads(blocks, ptrs', bs, w[..length])
  {
    forall p | 0 <= p < length ensures ByteIs(blocks, ptrs', bs, p, w[..length][p]) {
      assert ByteIs(blocks, ptrs, bs, p, w[p]);
      DivModBack(bs, p);
    }
  }

  lemma InDirect(bs: nat, pos: nat)
    requires bs > 0 && pos < DIRECT * bs
    ensures pos / bs < DIRECT && 0 <= pos % bs < bs
  {
    DivBelow(bs, DIRECT - 1, pos);
    DivModBack(bs, pos);
  }
}
