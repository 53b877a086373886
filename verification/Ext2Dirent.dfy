/** Directory blocks as bytes: variable-length records that tile a block. */
module Ext2Dirent {

  type Byte = b: int | 0 <= b < 256

  const HEADER: nat := 8           // inode (4), rec_len (2), name_len (1), file_type (1)

  /** A live directory entry. */
  datatype Entry = Entry(name: seq<Byte>, ino: nat, ftype: nat)

  function Align4(n: nat): (r: nat)
    ensures n <= r < n + 4 && r % 4 == 0
  {
    (n + 3) / 4 * 4
  }

  // ------------------------------------------------------------------ fields

  function Word16(v: nat): (bs: seq<Byte>)
    ensures |bs| == 2
  {
    [v % 256, v / 256 % 256]
  }

  function Word32(v: nat): (bs: seq<Byte>)
    ensures |bs| == 4
  {
    [v % 256, v / 256 % 256, v / 65536 % 256, v / 16777216 % 256]
  }

  /** The bytes of `b` from `o` on, replaced by `bs`. */
  function Splice(b: seq<Byte>, o: nat, bs: seq<Byte>): (r: seq<Byte>)
    requires o + |bs| <= |b|
    ensures |r| == |b|
    ensures forall k :: 0 <= k < |b| ==> r[k] == if o <= k < o + |bs| then bs[k - o] else b[k]
  {
    b[..o] + bs + b[o + |bs|..]
  }

  function Ino(b: seq<Byte>, o: nat): nat
    requires o + HEADER <= |b|
  {
    b[o] as int + 256 * (b[o + 1] as int) + 65536 * (b[o + 2] as int) + 16777216 * (b[o + 3] as int)
  }

  function RecLen(b: seq<Byte>, o: nat): nat
    requires o + HEADER <= |b|
  {
    b[o + 4] as int + 256 * (b[o + 5] as int)
  }

  function NameLen(b: seq<Byte>, o: nat): nat
    requires o + HEADER <= |b|
  {
    b[o + 6]
  }

  function FileType(b: seq<Byte>, o: nat): nat
    requires o + HEADER <= |b|
  {
    b[o + 7]
  }

  function Name(b: seq<Byte>, o: nat): seq<Byte>
    requires o + HEADER <= |b| && o + HEADER + NameLen(b, o) <= |b|
  {
    b[o + HEADER..o + HEADER + NameLen(b, o)]
  }

  // ------------------------------------------------------------------ tiling

  /** Bytes a record really needs. */
  function Need(b: seq<Byte>, o: nat): nat
    requires o + HEADER <= |b|
  {
    Align4(HEADER + NameLen(b, o))
  }

  /** The record at `o` holds its header and name and ends inside the block. */
  predicate RecOk(b: seq<Byte>, o: nat) {
    o + HEADER <= |b| && Need(b, o) <= RecLen(b, o) && RecLen(b, o) % 4 == 0 && o + RecLen(b, o) <= |b|
  }

  /** The block is exactly tiled by records from `o` to its end. */
  predicate Tiled(b: seq<Byte>, o: nat)
    decreases |b| - o
  {
    o == |b| || (o < |b| && RecOk(b, o) && Tiled(b, o + RecLen(b, o)))
  }

  function EntryAt(b: seq<Byte>, o: nat): Entry
    requires RecOk(b, o)
  {
    Entry(Name(b, o), Ino(b, o), FileType(b, o))
  }

  /** The record at `o` as a list: one entry, or none when its inode is 0. */
  function One(b: seq<Byte>, o: nat): seq<Entry>
    requires RecOk(b, o)
  {
    if Ino(b, o) == 0 then [] else [EntryAt(b, o)]
  }

  /** The live entries from `o` to the end of the block, in order. */
  function Live(b: seq<Byte>, o: nat): seq<Entry>
    requires Tiled(b, o)
    decreases |b| - o
  {
    if o == |b| then [] else One(b, o) + Live(b, o + RecLen(b, o))
  }

  /** `p` is the start of a record, or the end, counting from `o`. */
  predicate Reaches(b: seq<Byte>, o: nat, p: nat)
    decreases |b| - o
  {
    o == p || (o < p <= |b| && RecOk(b, o) && Reaches(b, o + RecLen(b, o), p))
  }

  /** The live entries from `o` up to `p`. */
  function LiveTo(b: seq<Byte>, o: nat, p: nat): seq<Entry>
    requires Reaches(b, o, p)
    decreases |b| - o
  {
    if o == p then [] else One(b, o) + LiveTo(b, o + RecLen(b, o), p)
  }

  lemma {:induction false} ReachesBounds(b: seq<Byte>, o: nat, p: nat)
    requires Reaches(b, o, p)
    ensures o <= p
    decreases |b| - o
  {
    if o != p {
      ReachesBounds(b, o + RecLen(b, o), p);
    }
  }

  /** A tiled block splits at every record boundary. */
  lemma {:induction false} Split(b: seq<Byte>, o: nat, p: nat)
    requires Reaches(b, o, p)
    ensures Tiled(b, o) <==> Tiled(b, p)
    ensures Tiled(b, o) ==> Live(b, o) == LiveTo(b, o, p) + Live(b, p)
    decreases |b| - o
  {
    hide One;
    hide RecLen;
    if o != p {
      var q := o + RecLen(b, o);
      Split(b, q, p);
      if Tiled(b, o) {
        assert One(b, o) + (LiveTo(b, q, p) + Live(b, p)) == (One(b, o) + LiveTo(b, q, p)) + Live(b, p);
      }
    } else if Tiled(b, o) {
      assert LiveTo(b, o, p) + Live(b, p) == Live(b, p);
    }
  }

  /** Stepping over one more record. */
  lemma {:induction false} Step(b: seq<Byte>, o: nat, p: nat)
    requires Reaches(b, o, p) && p < |b| && RecOk(b, p)
    ensures Reaches(b, o, p + RecLen(b, p))
    ensures LiveTo(b, o, p + RecLen(b, p)) == LiveTo(b, o, p) + One(b, p)
    decreases |b| - o
  {
    hide One;
    var q := p + RecLen(b, p);
    if o == p {
      assert Reaches(b, q, q);
      assert LiveTo(b, q, q) == [];
    } else {
      ReachesBounds(b, o + RecLen(b, o), p);
      Step(b, o + RecLen(b, o), p);
    }
  }

  /** After the record at `p` comes the one at its end. */
  lemma {:induction false} NextRecord(b: seq<Byte>, o: nat, p: nat, q: nat)
    requires Reaches(b, o, p) && RecOk(b, p) && Reaches(b, o, q) && p < q
    ensures p + RecLen(b, p) <= q
    decreases |b| - o
  {
    if o == p {
      ReachesBounds(b, o + RecLen(b, o), q);
    } else {
      ReachesBounds(b, o + RecLen(b, o), p);
      NextRecord(b, o + RecLen(b, o), p, q);
    }
  }

  /** The length of a record is a little-endian 16-bit number at its fifth byte. */
  lemma RecordEnds(b: seq<Byte>, o: nat)
    requires RecOk(b, o)
    ensures Reaches(b, o, o + b[o + 4] as int + 256 * (b[o + 5] as int))
  {
    var q := o + RecLen(b, o);
    assert Reaches(b, q, q);
  }

  /** There is a live record at `q`, and it holds entry `e`. */
  ghost predicate EntryIn(b: seq<Byte>, q: nat, e: Entry) {
    RecOk(b, q) && e in One(b, q)
  }

  /** Byte for byte: a record is live if the little-endian 32-bit number it starts with, its inode, is not 0; its name
      has the length given by its seventh byte and its type is the eighth. */
  lemma EntryInIs(b: seq<Byte>, q: nat, e: Entry)
    requires RecOk(b, q)
    ensures q + 8 + b[q + 6] as int <= |b|
    ensures EntryIn(b, q, e) <==>
              && e.ino == b[q] as int + 256 * (b[q + 1] as int) + 65536 * (b[q + 2] as int)
                          + 16777216 * (b[q + 3] as int) != 0
              && e.name == b[q + 8..q + 8 + b[q + 6] as int] && e.ftype == b[q + 7]
  {}

  /** The live entries of a block are those of its live records. */
  lemma {:induction false} LiveIff(b: seq<Byte>, o: nat, e: Entry)
    requires Tiled(b, o)
    ensures e in Live(b, o) <==> exists q: nat :: Reaches(b, o, q) && q < |b| && EntryIn(b, q, e)
    decreases |b| - o
  {
    hide RecLen, One;
    if o == |b| {
      forall q: nat | q < |b| ensures !Reaches(b, o, q) {}
    } else {
      var r := o + RecLen(b, o);
      LiveIff(b, r, e);
      assert Reaches(b, o, o);
      forall q: nat | q < |b| ensures Reaches(b, o, q) <==> q == o || Reaches(b, r, q) {
        if Reaches(b, r, q) {
          ReachesBounds(b, r, q);
        }
      }
    }
  }

  /** A record depends on its own bytes only. */
  lemma SameRecord(b: seq<Byte>, c: seq<Byte>, o: nat)
    requires RecOk(b, o) && |c| == |b| && forall k :: o <= k < o + RecLen(b, o) ==> c[k] == b[k]
    ensures RecOk(c, o) && RecLen(c, o) == RecLen(b, o) && One(c, o) == One(b, o)
  {
    assert Name(c, o) == Name(b, o);
  }

  /** Records before `p` do not depend on bytes from `p` on. */
  lemma {:induction false} SameBefore(b: seq<Byte>, c: seq<Byte>, o: nat, p: nat)
    requires Reaches(b, o, p) && |c| == |b| && p <= |b| && forall k :: 0 <= k < p ==> c[k] == b[k]
    ensures Reaches(c, o, p) && LiveTo(c, o, p) == LiveTo(b, o, p)
    decreases |b| - o
  {
    hide One;
    hide RecLen;
    if o != p {
      var q := o + RecLen(b, o);
      ReachesBounds(b, q, p);
      SameRecord(b, c, o);
      SameBefore(b, c, q, p);
    }
  }

  /** Records from `p` on do not depend on bytes before `p`. */
  lemma {:induction false} SameAfter(b: seq<Byte>, c: seq<Byte>, p: nat)
    requires Tiled(b, p) && |c| == |b| && forall k :: p <= k < |b| ==> c[k] == b[k]
    ensures Tiled(c, p) && Live(c, p) == Live(b, p)
    decreases |b| - p
  {
    hide One;
    hide RecLen;
    if p != |b| {
      SameRecord(b, c, p);
      SameAfter(b, c, p + RecLen(b, p));
      hide RecOk;
      assert Tiled(c, p);
    }
  }
}
