/** The ring buffer behind a pipe, byte by byte. */
module PipeBuffer {
  import opened PipeStream

  /** The `n` bytes from `r` on, around the ring. */
  ghost function Ring(buf: Bytes, r: nat, n: nat): (s: Bytes)
    requires |buf| == PIPE_BUF_SIZE && r < PIPE_BUF_SIZE && n <= PIPE_BUF_SIZE
    ensures |s| == n
  {
    seq(n, i requires 0 <= i < n => buf[(r + i) % PIPE_BUF_SIZE])
  }

  lemma RingHead(buf: Bytes, r: nat, n: nat)
    requires |buf| == PIPE_BUF_SIZE && r < PIPE_BUF_SIZE && 0 < n <= PIPE_BUF_SIZE
    ensures Ring(buf, r, n) == [buf[r]] + Ring(buf, (r + 1) % PIPE_BUF_SIZE, n - 1)
  {
    var s, t := Ring(buf, r, n), [buf[r]] + Ring(buf, (r + 1) % PIPE_BUF_SIZE, n - 1);
    forall i | 0 <= i < n ensures s[i] == t[i] {
      if i > 0 {
        assert ((r + 1) % PIPE_BUF_SIZE + (i - 1)) % PIPE_BUF_SIZE == (r + i) % PIPE_BUF_SIZE;
      }
    }
  }

  lemma RingPush(buf: Bytes, r: nat, n: nat, x: bv8)
    requires |buf| == PIPE_BUF_SIZE && r < PIPE_BUF_SIZE && n < PIPE_BUF_SIZE
    ensures Ring(buf[(r + n) % PIPE_BUF_SIZE := x], r, n + 1) == Ring(buf, r, n) + [x]
  {
    var s, t := Ring(buf[(r + n) % PIPE_BUF_SIZE := x], r, n + 1), Ring(buf, r, n);
    forall i | 0 <= i < n ensures s[i] == t[i] {
      assert (r + i) % PIPE_BUF_SIZE != (r + n) % PIPE_BUF_SIZE;
    }
  }

  class Buffer {
    const buf: array<bv8>
    var readPos: nat
    var writePos: nat
    var bytes: nat
    var readers: int
    var writers: int
    var readerPid: int
    var writerPid: int

    ghost predicate Valid()
      reads this
    {
      && buf.Length == PIPE_BUF_SIZE && readPos < PIPE_BUF_SIZE && bytes <= PIPE_BUF_SIZE
      && writePos == (readPos + bytes) % PIPE_BUF_SIZE
    }

    /** The pipe this buffer stands for. */
    ghost function View(): (p: Pipe)
      requires Valid()
      reads this, buf
    {
      Pipe(Ring(buf[..], readPos, bytes), readers, writers, readerPid, writerPid)
    }

    constructor ()
      ensures Valid() && View() == START.pipe && fresh(buf)
    {
      buf := new bv8[PIPE_BUF_SIZE];
      readPos, writePos, bytes := 0, 0, 0;
      readers, writers := 1, 1;
      readerPid, writerPid := -1, -1;
    }

    method PopByte() returns (x: bv8)
      requires Valid() && bytes > 0
      modifies this`readPos, this`bytes
      ensures Valid() && bytes == old(bytes) - 1
      ensures old(Ring(buf[..], readPos, bytes)) == [x] + Ring(buf[..], readPos, bytes)
    {
      RingHead(buf[..], readPos, bytes);
      x := buf[readPos];
      readPos := (readPos + 1) % PIPE_BUF_SIZE;
      bytes := bytes - 1;
    }

    method PushByte(x: bv8)
      requires Valid() && bytes < PIPE_BUF_SIZE
      modifies this`writePos, this`bytes, buf
      ensures Valid() && bytes == old(bytes) + 1
      ensures Ring(buf[..], readPos, bytes) == old(Ring(buf[..], readPos, bytes)) + [x]
    {
      RingPush(buf[..], readPos, bytes, x);
      buf[writePos] := x;
      assert buf[..] == old(buf[..])[writePos := x];
      writePos := (writePos + 1) % PIPE_BUF_SIZE;
      bytes := bytes + 1;
    }

    method PopBytes(n: nat) returns (data: Bytes)
      requires Valid()
      modifies this`readPos, this`bytes
      ensures Valid() && data == Taken(old(View()), n)
                && View() == old(View()).(content := old(View()).content[|data|..])
      ensures |data| == (if n < old(bytes) then n else old(bytes)) && old(View()).content == data + View().content
    {
      hide Ring;
      data := [];
      ghost var was := View().content;
      while |data| < n && bytes > 0
        invariant Valid() && |data| <= n && was == data + Ring(buf[..], readPos, bytes)
        decreases bytes
        modifies this`readPos, this`bytes
      {
        var x := PopByte();
        data := data + [x];
      }
      assert data == was[..|data|] && Ring(buf[..], readPos, bytes) == was[|data|..];
    }

    /** One stretch of a read, from its call or its last wake to its return or its next sleep. */
    method ReadTurn(pid: int, n: nat) returns (data: Bytes, o: Outcome)
      requires Valid()
      modifies this`readPos, this`bytes, this`readerPid, this`writerPid
      ensures Valid() && View() == ReadStep(old(View()), pid, n).0
      ensures o == ReadStep(old(View()), pid, n).1
      ensures data == if o.Blocked? then [] else Taken(old(View()), n)
      ensures o.Blocked? <==> old(bytes) == 0 && writers != 0
      ensures o.Returned? ==> o.value == |data| == if n < old(bytes) then n else old(bytes)
      ensures old(View()).content == data + View().content
      ensures readerPid == if o.Blocked? then pid else old(readerPid)
      ensures old(bytes) != 0 ==>
                o.Returned? && writerPid < 0 && o.woken == if old(writerPid) >= 0 then old(writerPid) else -1
      ensures old(bytes) == 0 ==> writerPid == old(writerPid) && (o.Returned? ==> o.woken == -1)
    {
      hide Ring;
      data := [];
      assert |View().content| == bytes;
      if bytes == 0 {
        if writers == 0 {
          return [], Returned(0, -1);
        }
        readerPid := pid;
        return [], Blocked;
      }
      data := PopBytes(n);
      var woken := -1;
      if writerPid >= 0 {
        woken := writerPid;
        writerPid := -1;
      }
      o := Returned(|data|, woken);
    }

    /** One stretch of a write that has put in `done` bytes and has `rest` to go; `k` more go in. */
    method WriteTurn(pid: int, done: nat, rest: Bytes) returns (k: nat, o: Outcome)
      requires Valid()
      modifies this`writePos, this`bytes, this`readerPid, this`writerPid, buf
      ensures Valid() && k == Room(old(View()), rest)
      ensures View() == WriteStep(old(View()), pid, done, rest).0
      ensures o == WriteStep(old(View()), pid, done, rest).1
      ensures k == if |rest| < PIPE_BUF_SIZE - old(bytes) then |rest| else PIPE_BUF_SIZE - old(bytes)
      ensures View().content == old(View()).content + rest[..k]
      ensures k == |rest| ==> o == Returned(done + |rest|, if old(readerPid) >= 0 then old(readerPid) else -1)
                              && readerPid < 0 && writerPid == old(writerPid)
      ensures k < |rest| && readers == 0 ==> o == Returned(-1, -1) && writerPid == old(writerPid)
      ensures k < |rest| && readers != 0 ==> o.Blocked? && writerPid == pid
      ensures k < |rest| ==> readerPid == old(readerPid)
    {
      k := 0;
      ghost var was := View().content;
      while k < |rest|
        invariant Valid() && 0 <= k <= |rest| && Ring(buf[..], readPos, bytes) == was + rest[..k]
        modifies this`writePos, this`bytes, this`writerPid, buf
        invariant writerPid == old(writerPid)
      {
        if bytes >= PIPE_BUF_SIZE {
          if readers == 0 {
            return k, Returned(-1, -1);
          }
          writerPid := pid;
          return k, Blocked;
        }
        PushByte(rest[k]);
        k := k + 1;
      }
      assert rest[..k] == rest;
      var woken := -1;
      if readerPid >= 0 {
        woken := readerPid;
        readerPid := -1;
      }
      o := Returned(done + k, woken);
    }

    method CloseReadEnd() returns (woken: int)
      requires Valid()
      modifies this`readers, this`writerPid
      ensures Valid() && (View(), woken) == CloseRead(old(View()))
      ensures View().content == old(View()).content && readers == old(readers) - 1
      ensures if readers == 0 && old(writerPid) >= 0 then woken == old(writerPid) && writerPid == -1
              else woken == -1 && writerPid == old(writerPid)
    {
      woken := -1;
      readers := readers - 1;
      if readers == 0 && writerPid >= 0 {
        woken := writerPid;
        writerPid := -1;
      }
    }

    method CloseWriteEnd() returns (woken: int)
      requires Valid()
      modifies this`writers, this`readerPid
      ensures Valid() && (View(), woken) == CloseWrite(old(View()))
      ensures View().content == old(View()).content && writers == old(writers) - 1
      ensures if writers == 0 && old(readerPid) >= 0 then woken == old(readerPid) && readerPid == -1
              else woken == -1 && readerPid == old(readerPid)
    {
      woken := -1;
      writers := writers - 1;
      if writers == 0 && readerPid >= 0 {
        woken := readerPid;
        readerPid := -1;
      }
    }
  }
}
