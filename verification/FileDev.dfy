/** The file plugin: whole transfers out of partial ones. */
module FilePlugin {
  import opened Bytes

  /** A file grown with zeros to at least `n` bytes. */
  function Padded(s: seq<byte>, n: nat): (r: seq<byte>)
    ensures |r| == if |s| < n then n else |s|
  {
    if |s| < n then s + seq(n - |s|, _ => 0) else s
  }

  /** The content of a file after `data` was written at `at`. */
  function Written(s: seq<byte>, at: nat, data: seq<byte>): (r: seq<byte>)
    ensures data != [] ==> |r| == if |s| < at + |data| then at + |data| else |s|
  {
    if data == [] then s else Splice(Padded(s, at + |data|), at, data)
  }

  /** Writing in two pieces that meet is writing at once. */
  lemma WrittenJoin(s: seq<byte>, at: nat, a: seq<byte>, b: seq<byte>)
    ensures Written(Written(s, at, a), at + |a|, b) == Written(s, at, a + b)
  {
    hide Padded, Splice;
    if a == [] {
      assert a + b == b;
    } else if b == [] {
      assert a + b == a;
    } else {
      var n := at + |a| + |b|;
      SpliceJoin(Padded(s, n), at, a, b);
      PaddedSplice(s, at, a, n);
    }
  }

  /** Padding later makes no difference. */
  lemma PaddedSplice(s: seq<byte>, at: nat, a: seq<byte>, n: nat)
    requires at + |a| <= n
    ensures Padded(Splice(Padded(s, at + |a|), at, a), n) == Splice(Padded(s, n), at, a)
  {
  }

  lemma WrittenNothing(s: seq<byte>, at: nat, data: seq<byte>)
    requires data == []
    ensures Written(s, at, data) == s
  {
  }

  /** One more piece of the buffer has been written. */
  lemma WrittenNext(s: seq<byte>, at: nat, buf: seq<byte>, pos: nat, left: nat, n: nat)
    requires pos + left <= |buf| && n <= left
    ensures Written(Written(s, at, buf[..pos]), at + pos, buf[pos..pos + left][..n]) == Written(s, at, buf[..pos + n])
  {
    hide Written;
    WrittenJoin(s, at, buf[..pos], buf[pos..pos + left][..n]);
    assert buf[..pos] + buf[pos..pos + left][..n] == buf[..pos + n];
  }

  /** What was written is what is read back, and the rest of the file is as it was. */
  lemma WrittenReads(s: seq<byte>, at: nat, data: seq<byte>)
    requires data != []
    ensures at + |data| <= |Written(s, at, data)| && Written(s, at, data)[at..at + |data|] == data
    ensures forall k :: 0 <= k < |s| && !(at <= k < at + |data|) ==> Written(s, at, data)[k] == s[k]
    ensures at + |data| <= |s| ==> Written(s, at, data) == Splice(s, at, data)
  {
    var p := Padded(s, at + |data|);
    MiddleSlice(Splice(p, at, data), p[..at], data, p[at + |data|..]);
  }

  lemma TakeOfSplice<T>(s: seq<T>, at: nat, data: seq<T>)
    requires at + |data| <= |s|
    ensures Splice(s, at, data)[..at + |data|] == s[..at] + data
  {
  }

  // ---------- System calls ----------

  /** A system call: where in the file, how many bytes it was to move, and what it returned. */
  datatype SysCall = SysRead(at: nat, want: nat, got: int) | SysWrite(at: nat, want: nat, got: int) | SysSync(got: int)

  /** The bytes moved by some calls. */
  function Moved(made: seq<SysCall>): nat {
    if made == [] then 0
    else Moved(Init(made)) + if made[|made| - 1].got < 0 then 0 else made[|made| - 1].got
  }

  /** Calls of one transfer: each takes up where those before it left off, and asks for all that they left. */
  ghost predicate Pieces(made: seq<SysCall>, write: bool, at: nat, count: nat) {
    made == [] ||
    var last, done := made[|made| - 1], Moved(Init(made));
    && Pieces(Init(made), write, at, count) && (|made| > 1 ==> made[|made| - 2].got > 0)
    && (if write then last.SysWrite? else last.SysRead?)
    && last.at == at + done && last.want + done == count && last.want > 0
  }

  /** A whole transfer: it ends with 0 once everything is moved, and with -1 at the first call that moves nothing. */
  ghost predicate Transfers(made: seq<SysCall>, write: bool, at: nat, count: nat, r: int) {
    && Pieces(made, write, at, count) && (r == 0 || r == -1)
    && (r == 0 <==> Moved(made) == count)
    && (r == -1 <==> made != [] && made[|made| - 1].got <= 0)
  }

  /** One more call. */
  lemma MorePieces(made: seq<SysCall>, c: SysCall, write: bool, at: nat, count: nat)
    requires Pieces(made, write, at, count) && (made != [] ==> made[|made| - 1].got > 0)
    requires write ==> c.SysWrite?
    requires !write ==> c.SysRead?
    requires c.at == at + Moved(made) && c.want + Moved(made) == count && c.want > 0
    ensures Pieces(made + [c], write, at, count) && Moved(made + [c]) == Moved(made) + if c.got < 0 then 0 else c.got
  {
    assert Init(made + [c]) == made;
  }

  lemma NoPieces(write: bool, at: nat, count: nat)
    ensures Pieces([], write, at, count) && Moved([]) == 0
  {
  }

  /** The transfer ends. */
  lemma Finished(before: seq<SysCall>, made: seq<SysCall>, write: bool, at: nat, count: nat)
    requires Pieces(made, write, at, count) && Moved(made) <= count
    requires made != [] ==> (made[|made| - 1].got <= 0 ==> Moved(made) < count)
    requires made == [] || made[|made| - 1].got > 0 ==> Moved(made) == count
    ensures (before + made)[|before|..] == made
    ensures Transfers(made, write, at, count, if made != [] && made[|made| - 1].got <= 0 then -1 else 0)
  {
    assert (before + made)[|before|..] == made;
  }

  class FileDev {
    var content: seq<byte>

    // The k-th system call fails when `transfer(k)` is negative, and otherwise
    // moves that many bytes, at least one and at most what it can.
    const transfer: nat -> int
    var log: seq<SysCall>

    constructor (content: seq<byte>, transfer: nat -> int)
      ensures this.content == content && this.transfer == transfer && log == []
    {
      this.content, this.transfer, log := content, transfer, [];
    }

    /** Some system call from the `from`-th on failed. */
    ghost predicate Erred(from: nat)
      reads this
    {
      exists k :: from <= k < |log| && transfer(k) < 0
    }

    /** pread(2). */
    method SysPread(count: nat, offset: nat) returns (r: int, data: seq<byte>)
      requires count > 0
      modifies this`log
      ensures log == old(log) + [SysRead(offset, count, r)]
      ensures r == -1 <==> transfer(old(|log|)) < 0
      ensures r == 0 ==> offset >= |content|
      ensures r > 0 ==> r <= count && offset + r <= |content| && data == content[offset..offset + r]
      ensures r >= -1
    {
      var t := transfer(|log|);
      data := [];
      if t < 0 {
        r := -1;
      } else if offset >= |content| {
        r := 0;
      } else {
        var most := if count < |content| - offset then count else |content| - offset;
        r := if t < 1 then 1 else if t > most then most else t;
        data := content[offset..offset + r];
      }
      log := log + [SysRead(offset, count, r)];
    }

    /** pwrite(2). */
    method SysPwrite(data: seq<byte>, offset: nat) returns (r: int)
      requires data != []
      modifies this`log, this`content
      ensures log == old(log) + [SysWrite(offset, |data|, r)]
      ensures r == -1 <==> transfer(old(|log|)) < 0
      ensures r == -1 ==> content == old(content)
      ensures r != -1 ==> 1 <= r <= |data| && content == Written(old(content), offset, data[..r])
    {
      var t := transfer(|log|);
      if t < 0 {
        r := -1;
      } else {
        r := if t < 1 then 1 else if t > |data| then |data| else t;
        content := Written(content, offset, data[..r]);
      }
      log := log + [SysWrite(offset, |data|, r)];
    }

    /** `file_pread`: all the bytes asked for, or -1 at a failed call or at the end of the file. */
    method Pread(buf: array<byte>, count: nat, offset: nat) returns (r: int)
      requires count <= buf.Length
      modifies this`log, buf
      ensures old(log) <= log && Transfers(log[old(|log|)..], false, offset, count, r)
      ensures r == 0 ==> (count == 0 || offset + count <= |content|)
      ensures r == 0 && count > 0 ==> buf[..count] == content[offset..offset + count]
      ensures r == -1 <==> Erred(old(|log|)) || (count > 0 && offset + count > |content|)
    {
      hide Pieces, Moved, Transfers, Splice;
      var left: nat, from: nat, pos: nat := count, offset, 0;
      ghost var made: seq<SysCall> := [];
      NoPieces(false, offset, count);
      while left > 0
        invariant pos + left == count && from == offset + pos && log == old(log) + made
        invariant Pieces(made, false, offset, count) && Moved(made) == pos
        invariant made != [] ==> made[|made| - 1].got > 0
        invariant pos > 0 ==> from <= |content|
        invariant pos > 0 ==> buf[..pos] == content[offset..from]
        invariant !Erred(old(|log|))
        decreases left
      {
        ghost var before := buf[..];
        var n, data := SysPread(left, from);
        MorePieces(made, SysRead(from, left, n), false, offset, count);
        made := made + [SysRead(from, left, n)];
        assert log == old(log) + made;
        if n == -1 {
          assert Erred(old(|log|));
          Finished(old(log), made, false, offset, count);
          return -1;
        }
        if n == 0 {
          Finished(old(log), made, false, offset, count);
          return -1;
        }
        Copy(buf, pos, data);
        TakeOfSplice(before, pos, data);
        SliceJoin(content, offset, from, from + n);
        pos, left, from := pos + n, left - n, from + n;
      }
      Finished(old(log), made, false, offset, count);
      r := 0;
    }

    /** `file_pwrite`: all the bytes written, or -1 at a failed call with a prefix of them written. */
    method Pwrite(buf: seq<byte>, count: nat, offset: nat) returns (r: int, ghost done: nat)
      requires count <= |buf|
      modifies this`log, this`content
      ensures old(log) <= log && Transfers(log[old(|log|)..], true, offset, count, r)
      ensures done == Moved(log[old(|log|)..]) <= count
      ensures r == 0 <==> !Erred(old(|log|))
      ensures content == Written(old(content), offset, buf[..done])
      ensures r == 0 ==> done == count
    {
      hide Written, Pieces, Moved, Transfers;
      var left: nat, from: nat, pos: nat := count, offset, 0;
      done := 0;
      ghost var made: seq<SysCall> := [];
      NoPieces(true, offset, count);
      assert content == Written(content, offset, buf[..0]) by {
        WrittenNothing(content, offset, buf[..0]);
      }
      while left > 0
        invariant pos + left == count && from == offset + pos && done == pos && log == old(log) + made
        invariant Pieces(made, true, offset, count) && Moved(made) == pos
        invariant made != [] ==> made[|made| - 1].got > 0
        invariant content == Written(old(content), offset, buf[..pos])
        invariant !Erred(old(|log|))
        decreases left
      {
        var n := SysPwrite(buf[pos..pos + left], from);
        MorePieces(made, SysWrite(from, left, n), true, offset, count);
        made := made + [SysWrite(from, left, n)];
        assert log == old(log) + made;
        if n == -1 {
          assert Erred(old(|log|));
          Finished(old(log), made, true, offset, count);
          return -1, done;
        }
        WrittenNext(old(content), offset, buf, pos, left, n);
        pos, left, from := pos + n, left - n, from + n;
        done := pos;
      }
      Finished(old(log), made, true, offset, count);
      r := 0;
    }

    /** `file_flush`: fdatasync(2). */
    method Flush() returns (r: int)
      modifies this`log
      ensures log == old(log) + [SysSync(r)] && (r == 0 || r == -1)
      ensures r == 0 <==> transfer(old(|log|)) >= 0
    {
      r := if transfer(|log|) < 0 then -1 else 0;
      log := log + [SysSync(r)];
    }
  }
}
