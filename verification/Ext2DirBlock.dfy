/** The scans of one directory block: finding, inserting, removing and listing entries. */
module Ext2DirBlock {
  import opened Ext2Dirent

  /** The name fits its one-byte length field, the inode number its four bytes and is not 0. */
  predicate Fits(name: seq<Byte>, ino: nat) {
    |name| < 256 && 0 < ino < 0x1_0000_0000
  }

  /** Bytes a new entry needs, at least 12. */
  function NeedFor(name: seq<Byte>): (n: nat)
    ensures n % 4 == 0 && n >= 12 && HEADER + |name| <= n <= HEADER + |name| + if name == [] then 4 else 3
  {
    if Align4(HEADER + |name|) < 12 then 12 else Align4(HEADER + |name|)
  }

  function Header(ino: nat, rl: nat, nl: Byte, ft: Byte): (bs: seq<Byte>)
    ensures |bs| == HEADER
  {
    Word32(ino) + Word16(rl) + [nl, ft]
  }

  /** The block after the stores of one record. */
  function Put(b: seq<Byte>, o: nat, ino: nat, rl: nat, name: seq<Byte>, ft: Byte): (c: seq<Byte>)
    requires |name| < 256 && o + HEADER + |name| <= |b|
    ensures |c| == |b|
    ensures forall k :: 0 <= k < |b| && !(o <= k < o + HEADER + |name|) ==> c[k] == b[k]
  {
    Splice(b, o, Header(ino, rl, |name|, ft) + name)
  }

  lemma Word16Back(v: nat)
    requires v < 65536
    ensures var w := Word16(v); w[0] as int + 256 * (w[1] as int) == v
  {}

  lemma Word32Back(v: nat)
    requires v < 0x1_0000_0000
    ensures var w := Word32(v);
            w[0] as int + 256 * (w[1] as int) + 65536 * (w[2] as int) + 16777216 * (w[3] as int) == v
  {
    assert v / 256 / 256 == v / 65536 && v / 65536 / 256 == v / 16777216;
  }

  /** Reading a record back gives what was stored. */
  lemma PutGet(b: seq<Byte>, o: nat, ino: nat, rl: nat, name: seq<Byte>, ft: Byte)
    requires |name| < 256 && o + HEADER + |name| <= |b| && ino < 0x1_0000_0000 && rl < 65536
    ensures var c := Put(b, o, ino, rl, name, ft);
            Ino(c, o) == ino && RecLen(c, o) == rl && NameLen(c, o) == |name| && FileType(c, o) == ft
              && Name(c, o) == name
  {
    Word16Back(rl);
    Word32Back(ino);
    hide Word16;
    hide Word32;
    var c := Put(b, o, ino, rl, name, ft);
    var h := Header(ino, rl, |name|, ft);
    assert forall k :: 0 <= k < HEADER ==> c[o + k] == h[k];
    assert forall k :: 0 <= k < |name| ==> c[o + HEADER + k] == name[k];
    assert Name(c, o) == name;
  }

  lemma PutRecord(b: seq<Byte>, o: nat, ino: nat, rl: nat, name: seq<Byte>, ft: Byte)
    requires |name| < 256 && o + rl <= |b| && ino < 0x1_0000_0000 && rl < 65536
    requires rl % 4 == 0 && Align4(HEADER + |name|) <= rl
    ensures var c := Put(b, o, ino, rl, name, ft);
            RecOk(c, o) && RecLen(c, o) == rl && One(c, o) == if ino == 0 then [] else [Entry(name, ino, ft)]
  {
    PutGet(b, o, ino, rl, name, ft);
  }

  /** Unused bytes of the record at `o`. */
  function Slack(b: seq<Byte>, o: nat): nat
    requires RecOk(b, o)
  {
    RecLen(b, o) - Need(b, o)
  }

  // ------------------------------------------------------------------ edits

  /** A dead record at `p` taken over by a new entry; what it does not need becomes a dead record. */
  function Reused(b: seq<Byte>, p: nat, name: seq<Byte>, ino: nat): seq<Byte>
    requires RecOk(b, p) && Fits(name, ino) && Slack(b, p) >= NeedFor(name)
  {
    var need := NeedFor(name);
    if Slack(b, p) > need
    then Put(Put(b, p + need, 0, RecLen(b, p) - need, [], b[p + need + 7]), p, ino, need, name, 1)
    else Put(b, p, ino, RecLen(b, p), name, 1)
  }

  /** The live record at `p` cut down to its need, and a new entry after it. */
  function Halved(b: seq<Byte>, p: nat, name: seq<Byte>, ino: nat): seq<Byte>
    requires RecOk(b, p) && Fits(name, ino) && Slack(b, p) >= NeedFor(name)
  {
    var used := Need(b, p);
    Put(Splice(b, p + 4, Word16(used)), p + used, ino, RecLen(b, p) - used, name, 1)
  }

  /** Cutting a record down to its need keeps its entry. */
  lemma Shrunk(b: seq<Byte>, c: seq<Byte>, p: nat)
    requires RecOk(b, p) && |c| == |b|
    requires forall k :: p <= k < p + Need(b, p) && k != p + 4 && k != p + 5 ==> c[k] == b[k]
    requires c[p + 4] == Need(b, p) % 256 && c[p + 5] == Need(b, p) / 256
    ensures RecOk(c, p) && RecLen(c, p) == Need(b, p) && One(c, p) == One(b, p)
  {
    assert RecLen(c, p) == Need(b, p);
    assert Name(c, p) == Name(b, p);
  }

  lemma Halving(b: seq<Byte>, p: nat, name: seq<Byte>, ino: nat)
    requires RecOk(b, p) && Fits(name, ino) && Slack(b, p) >= NeedFor(name) && |b| < 65536
    ensures var c := Halved(b, p, name, ino);
            var n := p + Need(b, p);
            && |c| == |b| && RecOk(c, p) && RecLen(c, p) == Need(b, p) && One(c, p) == One(b, p)
            && RecOk(c, n) && n + RecLen(c, n) == p + RecLen(b, p) && One(c, n) == [Entry(name, ino, 1)]
            && forall k :: 0 <= k < |b| && !(p <= k < p + RecLen(b, p)) ==> c[k] == b[k]
  {
    hide One;
    hide RecLen;
    hide Put;
    hide Splice;
    hide Align4;
    var used, rl := Need(b, p), RecLen(b, p);
    var m := Splice(b, p + 4, Word16(used));
    var c := Halved(b, p, name, ino);
    PutRecord(m, p + used, ino, rl - used, name, 1);
    Shrunk(b, c, p);
  }

  lemma Reusing(b: seq<Byte>, p: nat, name: seq<Byte>, ino: nat)
    requires RecOk(b, p) && Fits(name, ino) && Slack(b, p) >= NeedFor(name) && |b| < 65536
    ensures var c := Reused(b, p, name, ino);
            && |c| == |b| && RecOk(c, p) && One(c, p) == [Entry(name, ino, 1)]
            && (forall k :: 0 <= k < |b| && !(p <= k < p + RecLen(b, p)) ==> c[k] == b[k])
            && (Slack(b, p) == NeedFor(name) ==> RecLen(c, p) == RecLen(b, p))
            && (Slack(b, p) > NeedFor(name) ==>
                var n := p + NeedFor(name);
                RecLen(c, p) == NeedFor(name) && RecOk(c, n) && One(c, n) == [] && n + RecLen(c, n) == p + RecLen(b, p))
  {
    hide One;
    hide RecLen;
    hide Put;
    hide Splice;
    hide Align4;
    var need, rl := NeedFor(name), RecLen(b, p);
    var c := Reused(b, p, name, ino);
    if Slack(b, p) > need {
      var m := Put(b, p + need, 0, rl - need, [], b[p + need + 7]);
      PutRecord(b, p + need, 0, rl - need, [], b[p + need + 7]);
      PutRecord(m, p, ino, need, name, 1);
      SameRecord(m, c, p + need);
    } else {
      PutRecord(b, p, ino, rl, name, 1);
    }
  }

  // ------------------------------------------------------------------ edits and the entry list

  /** Putting records `r` in place of the record at `p` changes the list there and nowhere else. */
  lemma Replace(b: seq<Byte>, c: seq<Byte>, p: nat, r: seq<Entry>)
    requires Tiled(b, 0) && Reaches(b, 0, p) && p < |b| && RecOk(b, p) && Tiled(b, p + RecLen(b, p)) && |c| == |b|
    requires forall k :: 0 <= k < |b| && !(p <= k < p + RecLen(b, p)) ==> c[k] == b[k]
    requires Reaches(c, p, p + RecLen(b, p)) && LiveTo(c, p, p + RecLen(b, p)) == r
    ensures Tiled(c, 0) && Live(c, 0) == LiveTo(b, 0, p) + r + Live(b, p + RecLen(b, p))
    ensures Live(b, 0) == LiveTo(b, 0, p) + One(b, p) + Live(b, p + RecLen(b, p))
  {
    hide One;
    hide RecLen;
    var q := p + RecLen(b, p);
    Split(b, 0, p);
    SameBefore(b, c, 0, p);
    SameAfter(b, c, q);
    Split(c, p, q);
    Split(c, 0, p);
    assert Live(b, p) == One(b, p) + Live(b, q);
    assert LiveTo(b, 0, p) + (r + Live(b, q)) == LiveTo(b, 0, p) + r + Live(b, q);
    assert LiveTo(b, 0, p) + (One(b, p) + Live(b, q)) == LiveTo(b, 0, p) + One(b, p) + Live(b, q);
  }

  /** `now` is `was` with `e` put in at position `at`. */
  ghost predicate Inserted(was: seq<Entry>, now: seq<Entry>, at: nat, e: Entry) {
    at <= |was| && now == was[..at] + [e] + was[at..]
  }

  /** `now` is `was` with the entry at position `at` taken out. */
  ghost predicate Removed(was: seq<Entry>, now: seq<Entry>, at: nat) {
    at < |was| && now == was[..at] + was[at + 1..]
  }

  lemma LiveOne(b: seq<Byte>, p: nat)
    requires RecOk(b, p)
    ensures One(b, p) == if Ino(b, p) == 0 then [] else [EntryAt(b, p)]
  {}

  lemma OneRecord(c: seq<Byte>, p: nat)
    requires RecOk(c, p)
    ensures Reaches(c, p, p + RecLen(c, p)) && LiveTo(c, p, p + RecLen(c, p)) == One(c, p)
  {
    hide One;
    var q := p + RecLen(c, p);
    assert Reaches(c, q, q) && LiveTo(c, q, q) == [];
  }

  lemma TwoRecords(c: seq<Byte>, p: nat)
    requires RecOk(c, p) && RecOk(c, p + RecLen(c, p))
    ensures var n := p + RecLen(c, p);
            Reaches(c, p, n + RecLen(c, n)) && LiveTo(c, p, n + RecLen(c, n)) == One(c, p) + One(c, n)
  {
    hide One;
    OneRecord(c, p + RecLen(c, p));
  }

  lemma InsertedAt(pre: seq<Entry>, one: seq<Entry>, e: Entry, post: seq<Entry>)
    ensures Inserted(pre + one + post, pre + (one + [e]) + post, |pre + one|, e)
  {
    assert (pre + one + post)[..|pre + one|] == pre + one;
    assert (pre + one + post)[|pre + one|..] == post;
  }

  lemma TiledNext(b: seq<Byte>, p: nat)
    requires Tiled(b, p) && p < |b|
    ensures RecOk(b, p) && Tiled(b, p + RecLen(b, p))
  {}

  lemma HalvedInserts(b: seq<Byte>, p: nat, name: seq<Byte>, ino: nat) returns (at: nat)
    requires Tiled(b, 0) && |b| < 65536 && Reaches(b, 0, p) && p < |b| && RecOk(b, p)
    requires Fits(name, ino) && Slack(b, p) >= NeedFor(name)
    ensures var c := Halved(b, p, name, ino);
            Tiled(c, 0) && |c| == |b| && Inserted(Live(b, 0), Live(c, 0), at, Entry(name, ino, 1))
    ensures at == |LiveTo(b, 0, p)| + |One(b, p)|
  {
    hide *;
    var c, e := Halved(b, p, name, ino), Entry(name, ino, 1);
    Halving(b, p, name, ino);
    Split(b, 0, p);
    TiledNext(b, p);
    TwoRecords(c, p);
    Replace(b, c, p, One(b, p) + [e]);
    InsertedAt(LiveTo(b, 0, p), One(b, p), e, Live(b, p + RecLen(b, p)));
    at := |LiveTo(b, 0, p) + One(b, p)|;
  }

  lemma ReusedInserts(b: seq<Byte>, p: nat, name: seq<Byte>, ino: nat) returns (at: nat)
    requires Tiled(b, 0) && |b| < 65536 && Reaches(b, 0, p) && p < |b| && RecOk(b, p) && Ino(b, p) == 0
    requires Fits(name, ino) && Slack(b, p) >= NeedFor(name)
    ensures var c := Reused(b, p, name, ino);
            Tiled(c, 0) && |c| == |b| && Inserted(Live(b, 0), Live(c, 0), at, Entry(name, ino, 1))
    ensures at == |LiveTo(b, 0, p)| + |One(b, p)|
  {
    hide *;
    var c, e := Reused(b, p, name, ino), Entry(name, ino, 1);
    Reusing(b, p, name, ino);
    LiveOne(b, p);
    Split(b, 0, p);
    TiledNext(b, p);
    if Slack(b, p) > NeedFor(name) {
      TwoRecords(c, p);
      assert One(c, p) + One(c, p + NeedFor(name)) == [e];
    } else {
      OneRecord(c, p);
    }
    Replace(b, c, p, [e]);
    InsertedAt(LiveTo(b, 0, p), One(b, p), e, Live(b, p + RecLen(b, p)));
    assert One(b, p) + [e] == [e];
    at := |LiveTo(b, 0, p) + One(b, p)|;
  }

  /** The block after the record at `p` has had its inode cleared. */
  function Killed(b: seq<Byte>, p: nat): seq<Byte>
    requires RecOk(b, p)
  {
    Splice(b, p, Word32(0))
  }

  lemma Killing(b: seq<Byte>, p: nat)
    requires RecOk(b, p)
    ensures var c := Killed(b, p);
            && |c| == |b| && RecOk(c, p) && RecLen(c, p) == RecLen(b, p) && One(c, p) == []
            && forall k :: 0 <= k < |b| && !(p <= k < p + RecLen(b, p)) ==> c[k] == b[k]
  {
    var c := Killed(b, p);
    assert c[p] == c[p + 1] == c[p + 2] == c[p + 3] == 0;
  }

  lemma RemovedAt(pre: seq<Entry>, e: Entry, post: seq<Entry>)
    ensures Removed(pre + [e] + post, pre + [] + post, |pre|)
  {
    assert (pre + [e] + post)[..|pre|] == pre;
    assert (pre + [e] + post)[|pre| + 1..] == post;
  }

  lemma KilledRemoves(b: seq<Byte>, p: nat)
    requires Tiled(b, 0) && Reaches(b, 0, p) && p < |b| && RecOk(b, p) && Ino(b, p) != 0
    ensures var c := Killed(b, p);
            && Tiled(c, 0) && |c| == |b|
            && Removed(Live(b, 0), Live(c, 0), |LiveTo(b, 0, p)|)
  {
    hide *;
    var e, c := EntryAt(b, p), Killed(b, p);
    LiveOne(b, p);
    Killing(b, p);
    Split(b, 0, p);
    TiledNext(b, p);
    OneRecord(c, p);
    Replace(b, c, p, []);
    RemovedAt(LiveTo(b, 0, p), e, Live(b, p + RecLen(b, p)));
  }

  /** A new directory block: one record that fills it. */
  function FreshBlock(size: nat, name: seq<Byte>, ino: nat): (c: seq<Byte>)
    requires 1024 <= size < 65536 && Fits(name, ino)
    ensures |c| == size
  {
    Put(seq(size, _ => 0), 0, ino, size, name, 1)
  }

  lemma FreshLive(size: nat, name: seq<Byte>, ino: nat)
    requires 1024 <= size < 65536 && size % 4 == 0 && Fits(name, ino)
    ensures var c := FreshBlock(size, name, ino);
            && Tiled(c, 0) && Live(c, 0) == [Entry(name, ino, 1)]
            && forall k :: HEADER + |name| <= k < size ==> c[k] == 0
  {
    var c := FreshBlock(size, name, ino);
    PutRecord(seq(size, _ => 0), 0, ino, size, name, 1);
    hide One;
    hide Put;
    hide RecLen;
    assert Tiled(c, size) && Live(c, size) == [];
  }

  // ------------------------------------------------------------------ scans

  /** The record at `o`, dead or alive, is longer by `need` than its header and name take. */
  ghost predicate RoomAt(b: seq<Byte>, o: nat, need: nat) {
    Reaches(b, 0, o) && o + HEADER <= |b| && RecLen(b, o) >= Align4(HEADER + NameLen(b, o)) + need
  }

  /** Inserts an entry into the first record with room for it, after the entry that is there, if any. */
  method InsertInBlock(b: seq<Byte>, name: seq<Byte>, ino: nat)
    returns (done: bool, c: seq<Byte>, ghost at: nat, ghost o: nat)
    requires Tiled(b, 0) && |b| < 65536 && Fits(name, ino)
    ensures done <==> exists r: nat :: Reaches(b, 0, r) && r + HEADER <= |b|
                                       && RecLen(b, r) >= Align4(HEADER + NameLen(b, r)) + NeedFor(name)
    ensures done ==> RoomAt(b, o, NeedFor(name)) && forall r: nat :: RoomAt(b, r, NeedFor(name)) ==> o <= r
    ensures done ==> at == |LiveTo(b, 0, o)| + if Ino(b, o) == 0 then 0 else 1
    ensures !done ==> c == b && forall r: nat :: !RoomAt(b, r, NeedFor(name))
    ensures done ==> |c| == |b| && Tiled(c, 0) && Inserted(Live(b, 0), Live(c, 0), at, Entry(name, ino, 1))
  {
    hide RecLen;
    hide Inserted;
    hide Live;
    hide LiveTo;
    hide Reused;
    hide Halved;
    hide Reaches;
    hide Align4;
    o, at := 0, 0;
    var off := 0;
    var need := NeedFor(name);
    ReachesSelf(b, 0);
    while off < |b|
      invariant 0 <= off <= |b| && Reaches(b, 0, off) && Tiled(b, off)
      invariant forall r: nat :: r < off ==> !RoomAt(b, r, need)
    {
      var used := Need(b, off);
      var slack := RecLen(b, off) - used;
      if Ino(b, off) == 0 && slack >= need {
        at := ReusedInserts(b, off, name, ino);
        return true, Reused(b, off, name, ino), at, off;
      }
      if RecLen(b, off) > need && Ino(b, off) != 0 && slack >= need {
        at := HalvedInserts(b, off, name, ino);
        return true, Halved(b, off, name, ino), at, off;
      }
      Step(b, 0, off);
      forall r: nat | off < r < off + RecLen(b, off) ensures !RoomAt(b, r, need) {
        if Reaches(b, 0, r) {
          NextRecord(b, 0, off, r);
        }
      }
      off := off + RecLen(b, off);
    }
    forall r: nat | Reaches(b, 0, r) && r + HEADER <= |b|
      ensures RecLen(b, r) < Align4(HEADER + NameLen(b, r)) + need
    {
      assert !RoomAt(b, r, need);
    }
    return false, b, 0, 0;
  }

  lemma ReachesSelf(b: seq<Byte>, o: nat)
    ensures Reaches(b, o, o) && LiveTo(b, o, o) == []
  {}

  /** `at` is the position of the first entry called `name`. */
  ghost predicate FirstNamed(es: seq<Entry>, name: seq<Byte>, at: nat) {
    at < |es| && es[at].name == name && forall k :: 0 <= k < at ==> es[k].name != name
  }

  predicate NoneNamed(es: seq<Entry>, name: seq<Byte>) {
    forall k :: 0 <= k < |es| ==> es[k].name != name
  }

  /** The offset of the first live record called `name`, or the end of the block. */
  method FindInBlock(b: seq<Byte>, name: seq<Byte>) returns (off: nat)
    requires Tiled(b, 0)
    ensures off <= |b| && Reaches(b, 0, off) && Tiled(b, off)
    ensures off < |b| ==> RecOk(b, off) && Ino(b, off) != 0 && FirstNamed(Live(b, 0), name, |LiveTo(b, 0, off)|)
    ensures off < |b| ==> Live(b, 0)[|LiveTo(b, 0, off)|] == EntryAt(b, off)
    ensures off == |b| ==> NoneNamed(Live(b, 0), name)
  {
    hide RecLen;
    hide Reaches;
    hide LiveTo;
    hide Live;
    off := 0;
    ReachesSelf(b, 0);
    while off < |b|
      invariant 0 <= off <= |b| && Reaches(b, 0, off) && Tiled(b, off)
      invariant NoneNamed(LiveTo(b, 0, off), name)
    {
      if Ino(b, off) != 0 && NameLen(b, off) == |name| && Name(b, off) == name {
        FoundHere(b, off);
        return;
      }
      Step(b, 0, off);
      off := off + RecLen(b, off);
    }
    EndOfBlock(b);
  }

  lemma FoundHere(b: seq<Byte>, off: nat)
    requires Tiled(b, 0) && Reaches(b, 0, off) && off < |b| && RecOk(b, off) && Ino(b, off) != 0
    ensures |LiveTo(b, 0, off)| < |Live(b, 0)| && Live(b, 0)[|LiveTo(b, 0, off)|] == EntryAt(b, off)
    ensures Live(b, 0)[..|LiveTo(b, 0, off)|] == LiveTo(b, 0, off)
  {
    Split(b, 0, off);
    assert Live(b, off)[0] == EntryAt(b, off);
  }

  lemma EndOfBlock(b: seq<Byte>)
    requires Tiled(b, 0) && Reaches(b, 0, |b|)
    ensures LiveTo(b, 0, |b|) == Live(b, 0)
  {
    Split(b, 0, |b|);
    assert Live(b, |b|) == [];
  }

  /** Walks over `index` live entries: the offset of the one it lands on, or the end of the block
      with the number still to go. */
  method NthInBlock(b: seq<Byte>, index: nat) returns (off: nat, left: nat)
    requires Tiled(b, 0)
    ensures off <= |b| && Reaches(b, 0, off)
    ensures off < |b| <==> index < |Live(b, 0)|
    ensures off < |b| ==> RecOk(b, off) && Ino(b, off) != 0 && Live(b, 0)[index] == EntryAt(b, off)
    ensures off == |b| ==> left == index - |Live(b, 0)|
  {
    hide RecLen;
    hide Reaches;
    hide LiveTo;
    hide Live;
    off, left := 0, index;
    ReachesSelf(b, 0);
    while off < |b|
      invariant 0 <= off <= |b| && Reaches(b, 0, off) && Tiled(b, off)
      invariant left + |LiveTo(b, 0, off)| == index
    {
      if Ino(b, off) != 0 {
        if left == 0 {
          FoundHere(b, off);
          return;
        }
        left := left - 1;
      }
      Step(b, 0, off);
      off := off + RecLen(b, off);
    }
    EndOfBlock(b);
  }
}
