/** The block map of an inode: 12 direct pointers and trees of depth one, two and three. */
module Ext2Bmap {
  import opened Division
  import opened Ext2Dirent
  import opened Ext2DirBlock
  import opened Ext2FileBytes

  /** The slots a block index goes through, from the inode down. */
  datatype Path = Direct(i: nat) | Single(a: nat) | Double(a: nat, b: nat) | Triple(a: nat, b: nat, c: nat)

  function Square(p: nat): nat { p * p }

  function Cube(p: nat): nat { p * Square(p) }

  /** Indexes an inode can address with `p` pointers in a block. */
  function Limit(p: nat): nat {
    12 + p + Square(p) + Cube(p)
  }

  function PathOf(idx: nat, p: nat): Path
    requires p > 0
  {
    if idx < 12 then Direct(idx)
    else if idx - 12 < p then Single(idx - 12)
    else if idx - 12 - p < Square(p) then DoubleOf(idx - 12 - p, p)
    else TripleOf(idx - 12 - p - Square(p), p)
  }

  function DoubleOf(r: nat, p: nat): Path
    requires p > 0
  {
    Double(r / p, r % p)
  }

  function TripleOf(r: nat, p: nat): Path
    requires p > 0
  {
    MulAtLeast(p, p);
    Triple(r / Square(p), r % Square(p) / p, r % Square(p) % p)
  }

  predicate ValidPath(path: Path, p: nat) {
    match path
    case Direct(i) => i < 12
    case Single(a) => a < p
    case Double(a, b) => a < p && b < p
    case Triple(a, b, c) => a < p && b < p && c < p
  }

  /** Two digits in base `p`. */
  function Low(b: nat, c: nat, p: nat): nat { b * p + c }

  function High(a: nat, low: nat, p: nat): nat { a * Square(p) + low }

  function IndexOf(path: Path, p: nat): nat {
    match path
    case Direct(i) => i
    case Single(a) => 12 + a
    case Double(a, b) => 12 + p + Low(a, b, p)
    case Triple(a, b, c) => 12 + p + Square(p) + High(a, Low(b, c, p), p)
  }

  /** Two digits in base `p` number the positions below the square, each once. */
  lemma TwoDigits(a: nat, b: nat, p: nat)
    requires a < p && b < p
    ensures Low(a, b, p) < Square(p) && DoubleOf(Low(a, b, p), p) == Double(a, b)
  {
    DivMod(p, a, b);
    MulMono(a + 1, p, p);
    assert (a + 1) * p == a * p + p;
  }

  lemma TwoDigitsBack(r: nat, p: nat)
    requires 0 < p && r < Square(p)
    ensures r / p < p && r % p < p && Low(r / p, r % p, p) == r
  {
    DivModBack(p, r);
    DivBelow(p, p - 1, r);
  }

  lemma Leading(a: nat, low: nat, p: nat, q: nat)
    requires a < p && low < q
    ensures a * q + low < p * q && (a * q + low) / q == a && (a * q + low) % q == low
  {
    DivMod(q, a, low);
    MulMono(a + 1, p, q);
    assert (a + 1) * q == a * q + q;
  }

  lemma ThreeDigits(a: nat, b: nat, c: nat, p: nat)
    requires a < p && b < p && c < p
    ensures High(a, Low(b, c, p), p) < Cube(p) && TripleOf(High(a, Low(b, c, p), p), p) == Triple(a, b, c)
  {
    TwoDigits(b, c, p);
    MulAtLeast(p, p);
    var low := Low(b, c, p);
    hide Low;
    hide Square;
    Leading(a, low, p, Square(p));
  }

  lemma ThreeDigitsBack(r: nat, p: nat)
    requires 0 < p && r < Cube(p)
    ensures Square(p) > 0
    ensures r / Square(p) < p && r % Square(p) / p < p && r % Square(p) % p < p
    ensures High(r / Square(p), Low(r % Square(p) / p, r % Square(p) % p, p), p) == r
  {
    MulAtLeast(p, p);
    var q := Square(p);
    hide Square;
    hide Low;
    DivModBack(q, r);
    assert p * q == (p - 1 + 1) * q;
    DivBelow(q, p - 1, r);
    TwoDigitsBack(r % q, p);
  }

  /** Every index below the limit follows a path of in-range slots, and the path names the index. */
  lemma PathIndex(idx: nat, p: nat)
    requires p > 0 && idx < Limit(p)
    ensures ValidPath(PathOf(idx, p), p) && IndexOf(PathOf(idx, p), p) == idx
  {
    hide Square;
    hide Cube;
    hide Low;
    hide High;
    if idx - 12 >= p && idx - 12 - p < Square(p) {
      TwoDigitsBack(idx - 12 - p, p);
    } else if idx - 12 >= p {
      ThreeDigitsBack(idx - 12 - p - Square(p), p);
    }
  }

  /** Every path of in-range slots is the path of exactly one index. */
  lemma IndexPath(path: Path, p: nat)
    requires p > 0 && ValidPath(path, p)
    ensures IndexOf(path, p) < Limit(p) && PathOf(IndexOf(path, p), p) == path
  {
    hide Square;
    hide Cube;
    hide Low;
    hide High;
    hide DoubleOf;
    hide TripleOf;
    match path
    case Direct(_) =>
    case Single(_) =>
    case Double(a, b) =>
      TwoDigits(a, b, p);
    case Triple(a, b, c) =>
      ThreeDigits(a, b, c, p);
  }

  lemma PathsDistinct(i: nat, j: nat, p: nat)
    requires p > 0 && i < Limit(p) && j < Limit(p) && PathOf(i, p) == PathOf(j, p)
    ensures i == j
  {
    PathIndex(i, p);
    PathIndex(j, p);
  }

  // ------------------------------------------------------------------ blocks of pointers

  /** Pointer `i` of a block, little-endian. */
  function WordAt(b: Block, i: nat): nat
    requires 4 * i + 4 <= |b|
  {
    b[4 * i] as int + 256 * (b[4 * i + 1] as int) + 65536 * (b[4 * i + 2] as int) + 16777216 * (b[4 * i + 3] as int)
  }

  function PutWord(b: Block, i: nat, v: nat): (c: Block)
    requires 4 * i + 4 <= |b|
    ensures |c| == |b|
  {
    Splice(b, 4 * i, Word32(v))
  }

  lemma PutWordGet(b: Block, i: nat, v: nat, j: nat)
    requires 4 * i + 4 <= |b| && 4 * j + 4 <= |b| && v < 0x1_0000_0000
    ensures WordAt(PutWord(b, i, v), j) == if j == i then v else WordAt(b, j)
  {
    Word32Back(v);
  }

  /** A device of blocks of `p` pointers. */
  predicate Pages(blocks: seq<Block>, p: nat) {
    p > 0 && forall n :: 0 <= n < |blocks| ==> |blocks[n]| == 4 * p
  }

  /** The pointer at the end of a path; 0 if a block on the way cannot be read. */
  function Follow(blocks: seq<Block>, ptrs: seq<nat>, path: Path, p: nat): nat
    requires Pages(blocks, p) && |ptrs| == 15 && ValidPath(path, p)
  {
    match path
    case Direct(i) => ptrs[i]
    case Single(a) => Pick(blocks, ptrs[12], a, p)
    case Double(a, b) =>
      if ptrs[13] >= |blocks| then 0 else Pick(blocks, WordAt(blocks[ptrs[13]], a), b, p)
    case Triple(a, b, c) =>
      if ptrs[14] >= |blocks| then 0 else
      var m := WordAt(blocks[ptrs[14]], a);
      if m >= |blocks| then 0 else Pick(blocks, WordAt(blocks[m], b), c, p)
  }

  function Pick(blocks: seq<Block>, n: nat, i: nat, p: nat): nat
    requires Pages(blocks, p) && i < p
  {
    if n >= |blocks| then 0 else WordAt(blocks[n], i)
  }

  // ------------------------------------------------------------------ the map as one list

  /** The pointers of block `n`, zeros if it cannot be read. */
  ghost function Words(blocks: seq<Block>, n: nat, p: nat): (ws: seq<nat>)
    requires Pages(blocks, p)
    ensures |ws| == p
  {
    seq(p, i requires 0 <= i < p => if n >= |blocks| then 0 else WordAt(blocks[n], i))
  }

  ghost function Concat(parts: seq<seq<nat>>): seq<nat> {
    if parts == [] then [] else parts[0] + Concat(parts[1..])
  }

  ghost function Zeros(n: nat): (ws: seq<nat>)
    ensures |ws| == n && forall i :: 0 <= i < n ==> ws[i] == 0
  {
    seq(n, _ => 0)
  }

  /** The pointers in the blocks that block `n` points to, one block after the other. */
  ghost function WordsBelow(blocks: seq<Block>, n: nat, p: nat): (ws: seq<nat>)
    requires Pages(blocks, p)
  {
    if n >= |blocks| then Zeros(p * p)
    else Concat(seq(p, a requires 0 <= a < p => Words(blocks, Words(blocks, n, p)[a], p)))
  }

  /** The same one level deeper. */
  ghost function WordsDeep(blocks: seq<Block>, n: nat, p: nat): (ws: seq<nat>)
    requires Pages(blocks, p)
  {
    if n >= |blocks| then Zeros(p * (p * p))
    else Concat(seq(p, a requires 0 <= a < p => WordsBelow(blocks, Words(blocks, n, p)[a], p)))
  }

  /** All block numbers of an inode in the order of their indexes. */
  ghost function BlockList(blocks: seq<Block>, ptrs: seq<nat>, p: nat): seq<nat>
    requires Pages(blocks, p) && |ptrs| == 15
  {
    ptrs[..12] + Words(blocks, ptrs[12], p) + WordsBelow(blocks, ptrs[13], p) + WordsDeep(blocks, ptrs[14], p)
  }

  lemma {:induction false} ConcatSize(parts: seq<seq<nat>>, q: nat)
    requires forall a :: 0 <= a < |parts| ==> |parts[a]| == q
    ensures |Concat(parts)| == |parts| * q
  {
    if parts != [] {
      ConcatSize(parts[1..], q);
      assert |parts| * q == q + (|parts| - 1) * q;
    }
  }

  lemma {:induction false} ConcatAt(parts: seq<seq<nat>>, q: nat, a: nat, b: nat)
    requires (forall i :: 0 <= i < |parts| ==> |parts[i]| == q) && a < |parts| && b < q
    ensures a * q + b < |Concat(parts)| && Concat(parts)[a * q + b] == parts[a][b]
  {
    if a > 0 {
      ConcatAt(parts[1..], q, a - 1, b);
      assert a * q == q + (a - 1) * q;
      assert Concat(parts)[q + ((a - 1) * q + b)] == Concat(parts[1..])[(a - 1) * q + b];
    } else {
      assert 0 * q == 0;
    }
  }

  lemma BelowSize(blocks: seq<Block>, n: nat, p: nat)
    requires Pages(blocks, p)
    ensures |WordsBelow(blocks, n, p)| == p * p
  {
    hide Words, Pages;
    if n < |blocks| {
      ConcatSize(seq(p, a requires 0 <= a < p => Words(blocks, Words(blocks, n, p)[a], p)), p);
    }
  }

  lemma DeepSize(blocks: seq<Block>, n: nat, p: nat)
    requires Pages(blocks, p)
    ensures |WordsDeep(blocks, n, p)| == p * (p * p)
  {
    hide Words, WordsBelow, Pages;
    if n < |blocks| {
      var parts := seq(p, a requires 0 <= a < p => WordsBelow(blocks, Words(blocks, n, p)[a], p));
      forall a | 0 <= a < p ensures |parts[a]| == p * p {
        BelowSize(blocks, Words(blocks, n, p)[a], p);
      }
      ConcatSize(parts, p * p);
    }
  }

  lemma BelowAt(blocks: seq<Block>, n: nat, p: nat, a: nat, b: nat, i: nat)
    requires Pages(blocks, p) && a < p && b < p && i == a * p + b
    ensures i < |WordsBelow(blocks, n, p)|
    ensures WordsBelow(blocks, n, p)[i] == if n >= |blocks| then 0 else Pick(blocks, WordAt(blocks[n], a), b, p)
  {
    hide WordAt, DoubleOf;
    if n < |blocks| {
      var parts := seq(p, i requires 0 <= i < p => Words(blocks, Words(blocks, n, p)[i], p));
      ConcatAt(parts, p, a, b);
      assert parts[a][b] == Pick(blocks, WordAt(blocks[n], a), b, p);
    } else {
      TwoDigits(a, b, p);
    }
  }

  lemma DeepAt(blocks: seq<Block>, n: nat, p: nat, a: nat, low: nat, i: nat)
    requires Pages(blocks, p) && a < p && low < p * p && i == a * (p * p) + low
    ensures i < |WordsDeep(blocks, n, p)|
    ensures n < |blocks| ==> low < |WordsBelow(blocks, WordAt(blocks[n], a), p)|
    ensures WordsDeep(blocks, n, p)[i] == if n >= |blocks| then 0 else WordsBelow(blocks, WordAt(blocks[n], a), p)[low]
  {
    if n < |blocks| {
      hide WordsBelow;
      var parts := seq(p, i requires 0 <= i < p => WordsBelow(blocks, Words(blocks, n, p)[i], p));
      forall i | 0 <= i < p ensures |parts[i]| == p * p {
        BelowSize(blocks, Words(blocks, n, p)[i], p);
      }
      ConcatAt(parts, p * p, a, low);
    } else {
      Leading(a, low, p, p * p);
    }
  }

  /** Where the parts of the list stand. */
  lemma ListAt(blocks: seq<Block>, ptrs: seq<nat>, p: nat, x: nat)
    requires Pages(blocks, p) && |ptrs| == 15
    ensures |WordsBelow(blocks, ptrs[13], p)| == Square(p) && 12 + p + Square(p) <= |BlockList(blocks, ptrs, p)|
    ensures x < 12 ==> BlockList(blocks, ptrs, p)[x] == ptrs[x]
    ensures x < p ==> BlockList(blocks, ptrs, p)[12 + x] == Words(blocks, ptrs[12], p)[x]
    ensures x < Square(p) ==> BlockList(blocks, ptrs, p)[12 + p + x] == WordsBelow(blocks, ptrs[13], p)[x]
    ensures x < |WordsDeep(blocks, ptrs[14], p)| ==>
              && 12 + p + Square(p) + x < |BlockList(blocks, ptrs, p)|
              && BlockList(blocks, ptrs, p)[12 + p + Square(p) + x] == WordsDeep(blocks, ptrs[14], p)[x]
  {
    hide WordsBelow, WordsDeep, Words, Pages;
    BelowSize(blocks, ptrs[13], p);
  }

  /** A path ends at the list's entry for its index. */
  lemma FollowIs(blocks: seq<Block>, ptrs: seq<nat>, p: nat, path: Path)
    requires Pages(blocks, p) && |ptrs| == 15 && ValidPath(path, p)
    ensures IndexOf(path, p) < |BlockList(blocks, ptrs, p)|
    ensures BlockList(blocks, ptrs, p)[IndexOf(path, p)] == Follow(blocks, ptrs, path, p)
  {
    hide WordsBelow, WordsDeep, WordAt, BlockList, Square, DoubleOf, TripleOf, Pages;
    match path
    case Direct(i) =>
      ListAt(blocks, ptrs, p, i);
    case Single(a) =>
      ListAt(blocks, ptrs, p, a);
    case Double(a, b) =>
      TwoDigits(a, b, p);
      BelowAt(blocks, ptrs[13], p, a, b, Low(a, b, p));
      ListAt(blocks, ptrs, p, Low(a, b, p));
    case Triple(a, b, c) =>
      TripleIs(blocks, ptrs[14], p, a, b, c, High(a, Low(b, c, p), p));
      ListAt(blocks, ptrs, p, High(a, Low(b, c, p), p));
  }

  lemma TripleIs(blocks: seq<Block>, n: nat, p: nat, a: nat, b: nat, c: nat, i: nat)
    requires Pages(blocks, p) && a < p && b < p && c < p && i == High(a, Low(b, c, p), p)
    ensures i < |WordsDeep(blocks, n, p)|
    ensures WordsDeep(blocks, n, p)[i] ==
              if n >= |blocks| then 0
              else if WordAt(blocks[n], a) >= |blocks| then 0
              else Pick(blocks, WordAt(blocks[WordAt(blocks[n], a)], b), c, p)
  {
    hide WordsBelow, WordsDeep, WordAt, DoubleOf;
    TwoDigits(b, c, p);
    DeepAt(blocks, n, p, a, Low(b, c, p), i);
    if n < |blocks| {
      BelowAt(blocks, WordAt(blocks[n], a), p, b, c, Low(b, c, p));
    }
  }

  lemma ListSize(blocks: seq<Block>, ptrs: seq<nat>, p: nat)
    requires Pages(blocks, p) && |ptrs| == 15
    ensures |BlockList(blocks, ptrs, p)| == 12 + p + p * p + p * (p * p) == Limit(p)
  {
    hide WordsBelow, WordsDeep, Words;
    BelowSize(blocks, ptrs[13], p);
    DeepSize(blocks, ptrs[14], p);
  }

  lemma MapIs(blocks: seq<Block>, ptrs: seq<nat>, p: nat, idx: nat)
    requires Pages(blocks, p) && |ptrs| == 15
    ensures idx < Limit(p) ==>
              && ValidPath(PathOf(idx, p), p) && idx < |BlockList(blocks, ptrs, p)|
              && BlockList(blocks, ptrs, p)[idx] == Follow(blocks, ptrs, PathOf(idx, p), p)
  {
    hide BlockList, Follow, Limit, PathOf, IndexOf;
    if idx < Limit(p) {
      PathIndex(idx, p);
      FollowIs(blocks, ptrs, p, PathOf(idx, p));
    }
  }

  /** The block number of index `idx`: the four ranges, each with its own arithmetic, go through one list. */
  method Bmap(blocks: seq<Block>, ptrs: seq<nat>, p: nat, idx: nat) returns (r: nat)
    requires Pages(blocks, p) && |ptrs| == 15
    ensures |BlockList(blocks, ptrs, p)| == 12 + p + p * p + p * (p * p)
    ensures r == if idx < |BlockList(blocks, ptrs, p)| then BlockList(blocks, ptrs, p)[idx] else 0
    ensures idx < Limit(p) ==> ValidPath(PathOf(idx, p), p) && r == Follow(blocks, ptrs, PathOf(idx, p), p)
    ensures idx >= Limit(p) ==> r == 0
  {
    hide BlockList, WordAt, IndexOf, Low, High, Square, Cube, DoubleOf, TripleOf;
    ListSize(blocks, ptrs, p);
    MapIs(blocks, ptrs, p, idx);
    if idx < 12 {
      return ptrs[idx];
    }
    var i := idx - 12;
    if i < p {
      if ptrs[12] >= |blocks| {
        return 0;
      }
      return WordAt(blocks[ptrs[12]], i);
    }
    i := i - p;
    if i < Square(p) {
      r := BmapDouble(blocks, ptrs[13], p, i);
      return;
    }
    i := i - Square(p);
    if i < Cube(p) {
      r := BmapTriple(blocks, ptrs[14], p, i);
      return;
    }
    return 0;
  }

  /** Two levels below block `n`. */
  method BmapDouble(blocks: seq<Block>, n: nat, p: nat, i: nat) returns (r: nat)
    requires Pages(blocks, p) && i < Square(p)
    ensures DoubleOf(i, p).Double? && ValidPath(DoubleOf(i, p), p)
    ensures r == if n >= |blocks| then 0 else Pick(blocks, WordAt(blocks[n], DoubleOf(i, p).a), DoubleOf(i, p).b, p)
  {
    TwoDigitsBack(i, p);
    hide WordAt;
    if n >= |blocks| {
      return 0;
    }
    var m := WordAt(blocks[n], i / p);
    if m >= |blocks| {
      return 0;
    }
    return WordAt(blocks[m], i % p);
  }

  /** Three levels below block `n`. */
  method BmapTriple(blocks: seq<Block>, n: nat, p: nat, i: nat) returns (r: nat)
    requires Pages(blocks, p) && i < Cube(p)
    ensures TripleOf(i, p).Triple? && ValidPath(TripleOf(i, p), p)
    ensures var t := TripleOf(i, p);
            r == if n >= |blocks| then 0 else
                 var m := WordAt(blocks[n], t.a);
                 if m >= |blocks| then 0 else Pick(blocks, WordAt(blocks[m], t.b), t.c, p)
  {
    hide WordAt, Pick, TripleOf, Cube;
    TripleBounds(i, p);
    var a, b, c := Digits(i, p);
    r := ThreeLevels(blocks, n, p, a, b, c);
  }

  lemma TripleBounds(i: nat, p: nat)
    requires p > 0 && i < Cube(p)
    ensures TripleOf(i, p).Triple? && ValidPath(TripleOf(i, p), p)
  {
    ThreeDigitsBack(i, p);
    hide Square, Cube, High, Low;
  }

  /** The slots on the three levels. */
  method Digits(i: nat, p: nat) returns (a: nat, b: nat, c: nat)
    requires p > 0
    ensures TripleOf(i, p) == Triple(a, b, c)
  {
    MulAtLeast(p, p);
    var q := Square(p);
    assert q > 0;
    hide Square;
    a := i / q;
    var low := i % q;
    b, c := low / p, low % p;
  }

  method ThreeLevels(blocks: seq<Block>, n: nat, p: nat, a: nat, b: nat, c: nat) returns (r: nat)
    requires Pages(blocks, p) && a < p && b < p && c < p
    ensures r == if n >= |blocks| then 0 else
                 var m := WordAt(blocks[n], a); if m >= |blocks| then 0 else Pick(blocks, WordAt(blocks[m], b), c, p)
  {
    hide WordAt;
    if n >= |blocks| {
      return 0;
    }
    var m := WordAt(blocks[n], a);
    if m >= |blocks| {
      return 0;
    }
    m := WordAt(blocks[m], b);
    if m >= |blocks| {
      return 0;
    }
    return WordAt(blocks[m], c);
  }

  /** No path of two or three levels goes through the single-indirect block. */
  ghost predicate Apart(blocks: seq<Block>, ptrs: seq<nat>, p: nat)
    requires Pages(blocks, p) && |ptrs| == 15
  {
    && ptrs[13] != ptrs[12] && ptrs[14] != ptrs[12]
    && (forall a :: 0 <= a < p && ptrs[13] < |blocks| ==> WordAt(blocks[ptrs[13]], a) != ptrs[12])
    && (forall a :: 0 <= a < p && ptrs[14] < |blocks| ==> WordAt(blocks[ptrs[14]], a) != ptrs[12])
    && (forall a, b :: 0 <= a < p && 0 <= b < p && ptrs[14] < |blocks| && WordAt(blocks[ptrs[14]], a) < |blocks| ==>
          WordAt(blocks[WordAt(blocks[ptrs[14]], a)], b) != ptrs[12])
  }

  /** Sets the pointer of index `idx`; `newBlock` is what the allocator gives if an indirect block
      has to be made.  Two and three levels are not supported. */
  method SetBmap(blocks: seq<Block>, ptrs: seq<nat>, p: nat, idx: nat, phys: nat, newBlock: nat)
    returns (ok: bool, blocks': seq<Block>, ptrs': seq<nat>)
    requires Pages(blocks, p) && |ptrs| == 15 && phys < 0x1_0000_0000 && newBlock < |blocks|
    ensures Pages(blocks', p) && |ptrs'| == 15 && |blocks'| == |blocks|
    ensures idx >= 12 + p ==> !ok && ptrs' == ptrs
    ensures !ok ==> blocks' == blocks
    ensures idx < 12 ==> ok && blocks' == blocks && ptrs' == ptrs[idx := phys]
    ensures 12 <= idx < 12 + p && ptrs[12] != 0 ==>
              ptrs' == ptrs && (ok <==> ptrs[12] < |blocks|)
              && (ok ==> blocks' == blocks[ptrs[12] := PutWord(blocks[ptrs[12]], idx - 12, phys)])
    ensures 12 <= idx < 12 + p && ptrs[12] == 0 && phys != 0 ==>
              (ok <==> newBlock != 0) && ptrs' == (if newBlock != 0 then ptrs[12 := newBlock] else ptrs)
              && (ok ==> blocks' == blocks[newBlock := PutWord(blocks[newBlock], idx - 12, phys)])
    ensures 12 <= idx < 12 + p && ptrs[12] == 0 && phys == 0 ==> ok && ptrs' == ptrs && blocks' == blocks
  {
    blocks', ptrs' := blocks, ptrs;
    if idx < 12 {
      return true, blocks, ptrs[idx := phys];
    }
    var i := idx - 12;
    if i < p {
      var n := ptrs[12];
      if n == 0 {
        if phys == 0 {
          return true, blocks, ptrs;
        }
        n := newBlock;
        if n == 0 {
          return false, blocks, ptrs;
        }
        ptrs' := ptrs[12 := n];
      }
      if n >= |blocks| {
        return false, blocks, ptrs';
      }
      blocks' := blocks[n := PutWord(blocks[n], i, phys)];
      return true, blocks', ptrs';
    }
    ok := false;
  }

  /** Storing a pointer in the single-indirect block changes the one path that ends there. */
  lemma SetSingle(blocks: seq<Block>, ptrs: seq<nat>, p: nat, a: nat, phys: nat, path: Path)
    requires Pages(blocks, p) && |ptrs| == 15 && phys < 0x1_0000_0000
    requires a < p && ptrs[12] < |blocks| && Apart(blocks, ptrs, p) && ValidPath(path, p)
    ensures Follow(blocks[ptrs[12] := PutWord(blocks[ptrs[12]], a, phys)], ptrs, path, p) ==
              if path == Single(a) then phys else Follow(blocks, ptrs, path, p)
  {
    hide WordAt;
    hide PutWord;
    if path.Single? {
      PutWordGet(blocks[ptrs[12]], a, phys, path.a);
    }
  }

  /** After a pointer is set, its index maps to it and every other index maps as before. */
  lemma SetThenMap(blocks: seq<Block>, ptrs: seq<nat>, p: nat, idx: nat, phys: nat, other: nat)
    requires Pages(blocks, p) && |ptrs| == 15 && phys < 0x1_0000_0000
    requires 12 <= idx < 12 + p && ptrs[12] < |blocks| && Apart(blocks, ptrs, p) && other < Limit(p)
    ensures ValidPath(PathOf(other, p), p)
    ensures Follow(blocks[ptrs[12] := PutWord(blocks[ptrs[12]], idx - 12, phys)], ptrs, PathOf(other, p), p) ==
              if other == idx then phys else Follow(blocks, ptrs, PathOf(other, p), p)
  {
    hide Follow;
    hide Apart;
    hide PutWord;
    PathIndex(other, p);
    SetSingle(blocks, ptrs, p, idx - 12, phys, PathOf(other, p));
  }

  lemma SetDirectThenMap(blocks: seq<Block>, ptrs: seq<nat>, p: nat, idx: nat, phys: nat, other: nat)
    requires Pages(blocks, p) && |ptrs| == 15 && idx < 12 && other < Limit(p)
    ensures ValidPath(PathOf(other, p), p)
    ensures Follow(blocks, ptrs[idx := phys], PathOf(other, p), p) ==
              if other == idx then phys else Follow(blocks, ptrs, PathOf(other, p), p)
  {
    hide WordAt;
    PathIndex(other, p);
  }
}
