/** What holds of every run of the transmission phase, and of the byte array it refines. */
module RunFacts {
  import opened Bytes
  import opened Wire
  import opened Calls
  import opened Phase
  import opened Runs

  // ---------- The last write wins ----------

  /** The byte at `i` after a script: that of the last WRITE that covers it, or else the one the disk began with. */
  function LastByte(disk: seq<byte>, script: seq<Command>, i: nat): byte
    requires i < |disk|
  {
    if script == [] then disk[i]
    else
      var c := script[|script| - 1];
      if c.req.kind == NBD_CMD_WRITE && c.req.offset <= i < c.req.offset + |c.data| then c.data[i - c.req.offset]
      else LastByte(disk, script[..|script| - 1], i)
  }

  lemma {:induction false} FinalDiskSnoc(conf: Conf, disk: seq<byte>, script: seq<Command>, c: Command)
    ensures FinalDisk(conf, disk, script + [c]) == Answered(conf, FinalDisk(conf, disk, script), c).1
    decreases |script|
  {
    hide Answered;
    if script == [] {
      assert [c][1..] == [];
      assert script + [c] == [c];
    } else {
      assert (script + [c])[1..] == script[1..] + [c];
      FinalDiskSnoc(conf, Answered(conf, disk, script[0]).1, script[1..], c);
    }
  }

  /** The byte array ends up with the last byte written at every place. */
  lemma {:induction false} FinalDiskIsLastBytes(conf: Conf, disk: seq<byte>, script: seq<Command>)
    requires conf.Valid() && ProperScript(conf, script) && |disk| == conf.size
    ensures |FinalDisk(conf, disk, script)| == |disk|
    ensures forall i :: 0 <= i < |disk| ==> FinalDisk(conf, disk, script)[i] == LastByte(disk, script, i)
    decreases |script|
  {
    if script != [] {
      var init, c := script[..|script| - 1], script[|script| - 1];
      assert script == init + [c];
      FinalDiskSnoc(conf, disk, init, c);
      FinalDiskIsLastBytes(conf, disk, init);
      assert Proper(conf, c);
      OneCommand(conf, FinalDisk(conf, disk, init), c);
    }
  }

  /** The byte at `i` after one command, if it was `was` before. */
  function NewByte(c: Command, i: nat, was: byte): byte {
    if c.req.kind == NBD_CMD_WRITE && c.req.offset <= i < c.req.offset + |c.data| then c.data[i - c.req.offset] else was
  }

  lemma OneCommand(conf: Conf, disk: seq<byte>, c: Command)
    requires conf.Valid() && Proper(conf, c) && |disk| == conf.size
    ensures |Answered(conf, disk, c).1| == |disk|
    ensures forall i :: 0 <= i < |disk| ==> Answered(conf, disk, c).1[i] == NewByte(c, i, disk[i])
  {
  }

  /** A READ that is inside the export answers with exactly the bytes last written. */
  lemma ReadsLastWritten(conf: Conf, disk: seq<byte>, script: seq<Command>, c: Command, j: nat)
    requires conf.Valid() && ProperScript(conf, script) && |disk| == conf.size
    requires c.req.kind == NBD_CMD_READ && c.req.offset + c.req.count <= conf.size && j < c.req.count
    ensures var a := Answered(conf, FinalDisk(conf, disk, script), c).0;
            a.error == NBD_SUCCESS && |a.payload| == c.req.count
            && a.payload[j] == LastByte(disk, script, c.req.offset + j)
  {
    FinalDiskIsLastBytes(conf, disk, script);
  }

  // ---------- Safety ----------

  /** An accepted request lies inside the export exactly when its end does not wrap. */
  lemma AcceptedInsideIff(conf: Conf, req: Request)
    requires conf.Valid() && req.Fits() && !Over(conf, req)
    ensures req.offset + req.count <= conf.size <==> !Wraps(req)
  {
    Widths();
  }

  /** A request near the top of the 64-bit range passes the range check of an export of 4096 bytes. */
  lemma WrappingRequestAccepted()
    ensures var conf, req := Conf(512, 4096, false, 4096, 5, 1, true, true),
                             Request(0, NBD_CMD_READ, [0, 0, 0, 0, 0, 0, 0, 0], 0xFFFF_FFFF_FFFF_FE00, 1024);
            conf.Valid() && req.Fits() && !Over(conf, req) && req.offset + req.count > conf.size
  {
    Widths();
  }

  /** Some exchange made a call of the log. */
  lemma {:induction false} CallOf(h: seq<Exchange>, c: Call)
    requires c in CallsOf(h)
    ensures exists k :: 0 <= k < |h| && c in h[k].calls
    decreases |h|
  {
    if h != [] && c !in h[|h| - 1].calls {
      CallOf(Init(h), c);
      var k :| 0 <= k < |Init(h)| && c in Init(h)[k].calls;
      assert c in h[k].calls;
    }
  }

  /** Over a run in which no request wraps, every call of the plugin covers only blocks inside the export. */
  lemma LogInside(conf: Conf, h: seq<Exchange>, d0: seq<byte>, d1: seq<byte>, c: Call)
    requires conf.Valid() && RunOk(conf, h, d0, d1) && c in CallsOf(h)
    requires forall k :: 0 <= k < |h| ==> !Wraps(h[k].req)
    ensures CallInside(conf.Plugin(), c)
  {
    hide ExchangeOk, CallsOf, CallInside, Wraps;
    CallOf(h, c);
    var k :| 0 <= k < |h| && c in h[k].calls;
    var j :| 0 <= j < |h[k].calls| && h[k].calls[j] == c;
    CallsInside(conf, h[k], j);
  }

  lemma ReadOnlyExchange(conf: Conf, ex: Exchange)
    requires conf.Valid() && conf.readonly && ExchangeOk(conf, ex)
    ensures ex.after == ex.before && forall c :: c in ex.calls ==> !c.WriteCall?
  {
  }

  /** Over a run of a read-only export no pwrite is among the plugin calls, and the disk stays as it was. */
  lemma {:induction false} ReadOnlyRun(conf: Conf, h: seq<Exchange>, d0: seq<byte>, d1: seq<byte>)
    requires conf.Valid() && conf.readonly && RunOk(conf, h, d0, d1)
    ensures d1 == d0 && forall c :: c in CallsOf(h) ==> !c.WriteCall?
    decreases |h|
  {
    hide ExchangeOk;
    if h != [] {
      var last := h[|h| - 1];
      forall c | c in CallsOf(h)
        ensures c in CallsOf(Init(h)) || c in last.calls
      {
      }
      ReadOnlyExchange(conf, last);
      assert RunOk(conf, Init(h), d0, last.before);
      ReadOnlyRun(conf, Init(h), d0, last.before);
    }
  }

  /**
   * The error of a request: a WRITE to a read-only export and a range that ends past the export are rejected, a flush
   * that failed is an error, and so is a command of no known kind.
   */
  lemma ErrorsAre(conf: Conf, ex: Exchange)
    requires conf.Valid() && ExchangeOk(conf, ex)
    ensures var past := (ex.req.offset + ex.req.count) % 0x1_0000_0000_0000_0000 > conf.size;
            && (ex.req.kind == NBD_CMD_READ ==> (ex.error == NBD_EIO <==> past))
            && (ex.req.kind == NBD_CMD_WRITE ==> (ex.error == NBD_EPERM <==> conf.readonly))
            && (ex.req.kind == NBD_CMD_WRITE ==> (ex.error == NBD_ENOSPC <==> !conf.readonly && past))
            && (ex.req.kind == NBD_CMD_FLUSH ==>
                  |ex.calls| == 1 && ex.error == if ex.calls[0].code == 0 then NBD_SUCCESS else NBD_EIO)
            && (ex.req.kind !in {NBD_CMD_READ, NBD_CMD_WRITE, NBD_CMD_FLUSH} ==>
                  ex.error == NBD_EINVAL && ex.calls == [])
  {
    hide ReadCalls, WriteCalls, PayloadFrom, Spoilt, IsSplice, Span, FailedRow;
  }

  // ---------- Chunks ----------

  /**
   * The calls made for a READ or a WRITE: each starts where the successful ones before it left off, from the block of
   * the offset on, and is for as many blocks as fit in the buffer or are left to go.
   */
  lemma CallAt(conf: Conf, ex: Exchange, k: nat)
    requires conf.Valid() && ExchangeOk(conf, ex) && k < |ex.calls|
    requires ex.req.kind == NBD_CMD_READ || ex.req.kind == NBD_CMD_WRITE
    ensures var c, done := ex.calls[k], Delivered(ex.calls[..k]);
            && (c.ReadCall? <==> ex.req.kind == NBD_CMD_READ) && (c.WriteCall? <==> ex.req.kind == NBD_CMD_WRITE)
            && done <= ex.req.count / conf.bs && c.offset == ex.req.offset / conf.bs + done
            && c.count == if ex.req.count / conf.bs - done < conf.buflen / conf.bs then ex.req.count / conf.bs - done
                          else conf.buflen / conf.bs
  {
    hide InOrder, PayloadFrom, Spoilt, IsSplice, Span, FailedRow, InWindow;
    OrderAt(conf, ex.req, ex.calls, k);
  }

  lemma {:induction false} OrderAt(conf: Conf, req: Request, calls: seq<Call>, k: nat)
    requires conf.bs > 0 && InOrder(conf, req, calls) && k < |calls|
    ensures var done := Delivered(calls[..k]);
            && !calls[k].FlushCall? && done <= Blocks(conf, req) && calls[k].offset == First(conf, req) + done
            && calls[k].count == NextChunk(Blocks(conf, req) - done, conf.Chunk())
    decreases |calls|
  {
    hide First, Blocks, Delivered, Conf.Chunk, NextChunk;
    if k < |calls| - 1 {
      OrderAt(conf, req, Init(calls), k);
      assert Init(calls)[..k] == calls[..k] && Init(calls)[k] == calls[k];
    } else {
      assert calls[..k] == Init(calls);
    }
  }

  /** While none but the last has failed, the calls are for one chunk after another. */
  lemma {:induction false} ChunkByChunk(conf: Conf, req: Request, calls: seq<Call>)
    requires conf.Valid() && InOrder(conf, req, calls) && (calls != [] ==> AllSucceeded(Init(calls)))
    ensures Total(calls) == NextChunk(Blocks(conf, req), Span(|calls|, conf.Chunk()))
    decreases |calls|
  {
    hide First, Blocks, Delivered, Conf.Chunk, Span, FailedRow;
    if calls == [] {
      NoSpan(conf.Chunk());
    } else {
      var init := Init(calls);
      assert init != [] ==> AllSucceeded(Init(init));
      ChunkByChunk(conf, req, init);
      NoFailedRow(init, 1);
      SpanAdd(|init|, 1, conf.Chunk());
      SpanOne(conf.Chunk());
    }
  }

  lemma NoSpan(n: nat)
    ensures Span(0, n) == 0
  {
  }

  /**
   * A WRITE that fails in the plugin has taken the chunks up to the failing one off the stream, and nothing of the
   * payload after them: what follows is read as a request.
   */
  lemma FailedWriteTakes(conf: Conf, ex: Exchange, data: seq<byte>, more: seq<byte>, rest: seq<byte>)
    requires conf.Valid() && ExchangeOk(conf, ex) && ex.req.kind == NBD_CMD_WRITE && ex.error == NBD_EIO
    requires |data| == ex.req.count && ex.drained + rest == data + more
    ensures var n := NextChunk(Blocks(conf, ex.req), Span(|ex.calls|, conf.Chunk()));
            && Span(n, conf.bs) <= |data| && ex.drained == data[..Span(n, conf.bs)]
            && rest == data[Span(n, conf.bs)..] + more
  {
    hide Span, InWindow, Spoilt, IsSplice;
    ChunkByChunk(conf, ex.req, ex.calls);
    var n := Total(ex.calls);
    DivMod(ex.req.count, conf.bs);
    SpanFits(n, Blocks(conf, ex.req) - n, Blocks(conf, ex.req), conf.bs);
    var k := Span(n, conf.bs);
    assert data + more == data[..k] + (data[k..] + more);
    SamePrefix(ex.drained, rest, data[..k], data[k..] + more);
  }

  /**
   * An accepted WRITE that the plugin did not refuse ends with EOVERFLOW exactly if its whole blocks do not all
   * arrive.
   */
  lemma StarvesIff(conf: Conf, ex: Exchange, rest: seq<byte>)
    requires conf.Valid() && ExchangeOk(conf, ex) && ex.req.kind == NBD_CMD_WRITE && !conf.readonly
    requires !Over(conf, ex.req)
    requires ex.error != NBD_EIO && (ex.error == NBD_EOVERFLOW ==> rest == [])
    ensures ex.error == NBD_EOVERFLOW <==> |ex.drained + rest| < Span(ex.req.count / conf.bs, conf.bs)
  {
    hide WriteCalls, Spoilt, IsSplice, Span;
  }

  // ---------- Failed writes ----------

  /**
   * However a WRITE fails in the plugin, what lies outside the units its blocks touch is as it was: erase blocks on a
   * card, the bytes themselves in a file.
   */
  lemma FailedWriteSpares(conf: Conf, ex: Exchange, i: nat)
    requires conf.Valid() && ExchangeOk(conf, ex) && ex.req.kind == NBD_CMD_WRITE && ex.error == NBD_EIO
    requires !Wraps(ex.req)
    requires i < conf.size
    requires i < Span(Down(First(conf, ex.req), conf.grain), conf.bs)
             || Span(Up(First(conf, ex.req) + Blocks(conf, ex.req), conf.grain), conf.bs) <= i
    ensures ex.after[i] == ex.before[i]
  {
    hide Span, First, Blocks, Total, Down, Up;
    var good, all := Total(Init(ex.calls)), Total(ex.calls);
    var first, blocks := First(conf, ex.req), Blocks(conf, ex.req);
    var mid :| SplicedUpTo(conf, ex, good, mid)
               && Spared(mid, ex.after, first + good, first + all, conf.grain, conf.bs);
    TotalInit(ex.calls);
    Rounding(first, first + good, first + all, first + blocks, conf.grain, conf.bs);
    SpanAdd(first, good, conf.bs);
    SpanFits(first + good, all - good, first + all, conf.bs);
    SparedAt(mid, ex.after, first + good, first + all, conf.grain, conf.bs, i);
    SpliceIndex(ex.before, Span(first, conf.bs), ex.drained[..Span(good, conf.bs)], i);
  }

  lemma TotalInit(calls: seq<Call>)
    requires calls != []
    ensures Total(Init(calls)) <= Total(calls)
  {
  }

  lemma SparedAt(before: seq<byte>, after: seq<byte>, lo: nat, hi: nat, g: nat, size: nat, i: nat)
    requires g > 0 && Spared(before, after, lo, hi, g, size) && i < |before|
    requires i < Span(Down(lo, g), size) || Span(Up(hi, g), size) <= i
    ensures |after| == |before| && after[i] == before[i]
  {
    var a, b := Span(Down(lo, g), size), Span(Up(hi, g), size);
    if i < a {
      assert after[..a][i] == before[..a][i];
    } else {
      assert after[b..][i - b] == before[b..][i - b];
    }
  }

  /** Rounding keeps the order, and rounds outwards. */
  lemma Rounding(a: nat, b: nat, c: nat, d: nat, g: nat, size: nat)
    requires g > 0 && a <= b <= c <= d
    ensures Span(Down(a, g), size) <= Span(Down(b, g), size) <= Span(b, size)
    ensures Span(Down(a, g), size) <= Span(a, size)
    ensures Span(c, size) <= Span(Up(c, g), size) <= Span(Up(d, g), size)
  {
    RoundDown(a, b, g);
    RoundUp(c, d, g);
    hide Down, Up;
    SpanFits(Down(a, g), a - Down(a, g), a, size);
    SpanFits(Down(a, g), Down(b, g) - Down(a, g), Down(b, g), size);
    SpanFits(Down(b, g), b - Down(b, g), b, size);
    SpanFits(c, Up(c, g) - c, Up(c, g), size);
    SpanFits(Up(c, g), Up(d, g) - Up(c, g), Up(d, g), size);
  }

  lemma RoundDown(a: nat, b: nat, g: nat)
    requires g > 0 && a <= b
    ensures Down(a, g) <= a && Down(a, g) <= Down(b, g) <= b
  {
    hide Span;
    DivMod(a, g);
    DivMod(b, g);
    QuotientGrows(a, b, g);
  }

  lemma RoundUp(c: nat, d: nat, g: nat)
    requires g > 0 && c <= d
    ensures c <= Up(c, g) <= Up(d, g)
  {
    hide Span;
    DivMod(c + g - 1, g);
    DivMod(d + g - 1, g);
    QuotientGrows(c + g - 1, d + g - 1, g);
  }

  lemma QuotientGrows(a: nat, b: nat, g: nat)
    requires g > 0 && a <= b
    ensures Span(a / g, g) <= Span(b / g, g)
  {
    hide Span;
    DivMod(a, g);
    DivMod(b, g);
    if b / g < a / g {
      SpanFits(b / g, 1, a / g, g);
      SpanOne(g);
    } else {
      SpanFits(a / g, b / g - a / g, b / g, g);
    }
  }

  // ---------- Replies ----------

  /** How much payload follows a good header: for a READ the whole blocks of what was asked for. */
  function PayloadSize(bs: nat, req: Request, error: nat): nat
    requires bs > 0
  {
    if req.kind == NBD_CMD_READ && error == NBD_SUCCESS then Span(req.count / bs, bs) else 0
  }

  /**
   * A client that knows its requests and the block size takes the replies off the stream: a header each, and the
   * payload.
   */
  datatype Parsed = Parsed(answers: seq<Answer>, rest: seq<byte>) | Garbled

  function ParseReplies(bs: nat, reqs: seq<Request>, b: seq<byte>): Parsed
    requires bs > 0
    decreases |reqs|
  {
    if reqs == [] then Parsed([], b)
    else if |b| < 16 || FromBE(b[0..4]) != NBD_SIMPLE_REPLY_MAGIC || b[8..16] != reqs[0].handle then Garbled
    else
      var error := FromBE(b[4..8]);
      var n := PayloadSize(bs, reqs[0], error);
      if |b| < 16 + n then Garbled
      else
        match ParseReplies(bs, reqs[1..], b[16 + n..])
        case Garbled => Garbled
        case Parsed(answers, rest) => Parsed([Answer(error, b[16..16 + n])] + answers, rest)
  }

  function Requests(h: seq<Exchange>): seq<Request> {
    seq(|h|, k requires 0 <= k < |h| => h[k].req)
  }

  function AnswersOf(h: seq<Exchange>): seq<Answer> {
    seq(|h|, k requires 0 <= k < |h| => Answer(h[k].error, h[k].payload))
  }

  /** A finished exchange renders as one header with the request's handle, and the payload that belongs to it. */
  lemma RenderedShape(conf: Conf, ex: Exchange, rest: seq<byte>)
    requires conf.Valid() && ExchangeOk(conf, ex) && ex.finished
    ensures var b, n := Rendered(ex) + rest, PayloadSize(conf.bs, ex.req, ex.error);
            && |b| >= 16 + n && FromBE(b[0..4]) == NBD_SIMPLE_REPLY_MAGIC && FromBE(b[4..8]) == ex.error
            && b[8..16] == ex.req.handle && b[16..16 + n] == ex.payload && b[16 + n..] == rest
  {
    hide SimpleReply, Span;
    Widths();
    ReplyRoundTrip(ex.error, ex.req.handle, ex.payload + rest);
    assert Rendered(ex) + rest == SimpleReply(ex.error, ex.req.handle) + (ex.payload + rest);
    var b := Rendered(ex) + rest;
    assert b[16..] == ex.payload + rest;
    assert b[16..16 + |ex.payload|] == b[16..][..|ex.payload|] && b[16 + |ex.payload|..] == b[16..][|ex.payload|..];
  }

  /** How many exchanges of a run were finished: all of them, or all but the last. */
  function Finished(h: seq<Exchange>): (n: nat)
    ensures n <= |h| <= n + 1
  {
    if h == [] || h[|h| - 1].finished then |h| else |h| - 1
  }

  /** What the stream holds after the finished exchanges: the start of a READ that was given up. */
  function Loose(h: seq<Exchange>): seq<byte> {
    if Finished(h) < |h| then Rendered(h[|h| - 1]) else []
  }

  /**
   * Reply accounting, over every run: a client that takes replies off the stream gets one for each finished exchange,
   * in order, under the request's own handle, with the error and the payload of its exchange; and nothing is left
   * over but the start of a READ that was given up, if the run ends with one.
   */
  lemma {:induction false} RepliesAccountedFor(conf: Conf, h: seq<Exchange>, d0: seq<byte>, d1: seq<byte>)
    requires conf.Valid() && RunOk(conf, h, d0, d1)
    ensures var served := h[..Finished(h)];
            ParseReplies(conf.bs, Requests(served), Render(h)) == Parsed(AnswersOf(served), Loose(h))
    decreases |h|
  {
    hide ExchangeOk, Rendered, PayloadSize, FromBE;
    if h != [] && h[0].finished {
      RunFront(conf, h, d0, d1);
      RenderFront(h);
      RenderedShape(conf, h[0], Render(h[1..]));
      RepliesAccountedFor(conf, h[1..], h[0].after, d1);
      FinishedFront(h);
      FrontAnswer(h[0], h[1..][..Finished(h[1..])]);
    } else if h != [] {
      assert |h| == 1;
      assert Render(h) == [] + Rendered(h[0]) == Rendered(h[0]);
    }
  }

  lemma FrontAnswer(ex: Exchange, more: seq<Exchange>)
    ensures Requests([ex] + more) == [ex.req] + Requests(more)
    ensures AnswersOf([ex] + more) == [Answer(ex.error, ex.payload)] + AnswersOf(more)
  {
  }

  lemma FinishedFront(h: seq<Exchange>)
    requires h != [] && h[0].finished
    ensures Finished(h) == 1 + Finished(h[1..]) && Loose(h) == Loose(h[1..])
    ensures h[..Finished(h)] == [h[0]] + h[1..][..Finished(h[1..])]
  {
  }

  // ---------- Retries ----------

  /** The `n` calls from the `i`-th on all failed. */
  ghost predicate AllFailed(calls: seq<Call>, i: nat, n: nat) {
    i + n <= |calls| && forall j :: i <= j < i + n ==> calls[j].code != 0
  }

  /** Some `n` calls in a row failed. */
  ghost predicate SomeFailed(calls: seq<Call>, n: nat) {
    exists i: nat :: AllFailed(calls, i, n)
  }

  lemma AllFailedInit(calls: seq<Call>, i: nat, n: nat)
    requires calls != [] && i + n <= |calls| - 1
    ensures AllFailed(calls, i, n) <==> AllFailed(Init(calls), i, n)
  {
    assert forall j :: 0 <= j < |calls| - 1 ==> Init(calls)[j] == calls[j];
  }

  lemma {:induction false} TrailingMeans(calls: seq<Call>, n: nat)
    ensures Trailing(calls) >= n <==> n <= |calls| && AllFailed(calls, |calls| - n, n)
    decreases |calls|
  {
    if calls != [] && n > 0 {
      TrailingMeans(Init(calls), n - 1);
      if n <= |calls| {
        AllFailedInit(calls, |calls| - n, n - 1);
        assert |Init(calls)| - (n - 1) == |calls| - n;
        assert AllFailed(calls, |calls| - n, n) ==> calls[|calls| - 1].code != 0;
      }
    }
  }

  /** Some `n` consecutive calls failed: the recursive form says exactly that. */
  lemma {:induction false} FailedRowMeans(calls: seq<Call>, n: nat)
    requires n > 0
    ensures FailedRow(calls, n) <==> SomeFailed(calls, n)
    decreases |calls|
  {
    if calls != [] {
      FailedRowMeans(Init(calls), n);
      TrailingMeans(calls, n);
      if i: nat :| AllFailed(Init(calls), i, n) {
        AllFailedInit(calls, i, n);
      }
      if i: nat :| AllFailed(calls, i, n) {
        if i + n < |calls| {
          AllFailedInit(calls, i, n);
        }
      }
    }
  }

  /**
   * An accepted READ is answered in full exactly when the plugin never failed more than the retry limit in a row;
   * otherwise the phase ends after some whole chunks of it. (A READ of less than a block has nothing to send.)
   */
  lemma ReadDelivery(conf: Conf, ex: Exchange)
    requires conf.Valid() && ExchangeOk(conf, ex) && ex.req.kind == NBD_CMD_READ && !Over(conf, ex.req)
    ensures ex.finished <==> !SomeFailed(ex.calls, conf.retries + 1)
    ensures ex.finished ==> |ex.payload| == Span(Blocks(conf, ex.req), conf.bs)
    ensures !ex.finished ==> |ex.payload| == Span(Span(Successes(ex.calls), conf.Chunk()), conf.bs)
    ensures !ex.finished && Blocks(conf, ex.req) > 0 ==> |ex.payload| < Span(Blocks(conf, ex.req), conf.bs)
  {
    hide Span, First, Blocks, Delivered, Successes, FailedRow, Trailing, Conf.Chunk;
    FailedRowMeans(ex.calls, conf.retries + 1);
    if Delivered(ex.calls) < Blocks(conf, ex.req) {
      SpanFits(Delivered(ex.calls), 1, Blocks(conf, ex.req), conf.bs);
      SpanOne(conf.bs);
    }
  }

  // ---------- Alignment ----------

  /** The bytes the code sends for an accepted READ, once it is finished. */
  function CodeReads(conf: Conf, req: Request, disk: seq<byte>): seq<byte>
    requires conf.Valid() && !Over(conf, req) && !Wraps(req) && |disk| == conf.size
  {
    RequestInside(conf, req);
    disk[Span(First(conf, req), conf.bs)..Span(First(conf, req), conf.bs) + Span(Blocks(conf, req), conf.bs)]
  }

  /** They are the bytes asked for, whatever the disk holds. */
  ghost predicate ReadsExactly(conf: Conf, req: Request)
    requires conf.Valid() && !Over(conf, req) && !Wraps(req)
  {
    RequestInside(conf, req);
    forall disk: seq<byte> :: |disk| == conf.size ==>
      CodeReads(conf, req, disk) == disk[req.offset..req.offset + req.count]
  }

  /** The code sends the bytes asked for exactly when the count is whole blocks and, unless it is 0, the offset too. */
  lemma ReadsExactlyIffAligned(conf: Conf, req: Request)
    requires conf.Valid() && !Over(conf, req) && !Wraps(req)
    ensures ReadsExactly(conf, req) <==> req.count % conf.bs == 0 && (req.count == 0 || req.offset % conf.bs == 0)
  {
    RequestInside(conf, req);
    var lo := Span(First(conf, req), conf.bs);
    DivMod(req.offset, conf.bs);
    DivMod(req.count, conf.bs);
    if req.count % conf.bs == 0 && (req.count == 0 || req.offset % conf.bs == 0) {
      forall disk: seq<byte> | |disk| == conf.size
        ensures CodeReads(conf, req, disk) == disk[req.offset..req.offset + req.count]
      {
      }
    } else {
      MisalignedShows(conf, req);
    }
  }

  /** One byte set where the code starts to read gives a misaligned request away. */
  lemma MisalignedShows(conf: Conf, req: Request)
    requires conf.Valid() && !Over(conf, req) && !Wraps(req)
    requires !(req.count % conf.bs == 0 && (req.count == 0 || req.offset % conf.bs == 0))
    ensures !ReadsExactly(conf, req)
  {
    RequestInside(conf, req);
    var lo := Span(First(conf, req), conf.bs);
    DivMod(req.offset, conf.bs);
    DivMod(req.count, conf.bs);
    var disk: seq<byte> := seq(conf.size, i => if i == lo then 1 else 0);
    var sent, asked := CodeReads(conf, req, disk), disk[req.offset..req.offset + req.count];
    if |sent| == |asked| {
      assert req.offset != lo && |asked| > 0;
      assert sent[0] == 1 && asked[0] == 0;
    }
    assert sent != asked;
  }

  /** A finished READ that was accepted sends what `CodeReads` says. */
  lemma FinishedReads(conf: Conf, ex: Exchange)
    requires conf.Valid() && ExchangeOk(conf, ex) && ex.req.kind == NBD_CMD_READ && ex.finished
    requires !Over(conf, ex.req) && !Wraps(ex.req)
    ensures ex.payload == CodeReads(conf, ex.req, ex.before)
  {
    hide Span;
  }

  /** What the code does of a WRITE of `data` that it accepts and completes. */
  function CodeWrites(conf: Conf, req: Request, disk: seq<byte>, data: seq<byte>): seq<byte>
    requires conf.Valid() && !Over(conf, req) && !Wraps(req) && |disk| == conf.size && |data| == req.count
  {
    RequestInside(conf, req);
    DivMod(req.count, conf.bs);
    Splice(disk, Span(First(conf, req), conf.bs), data[..Span(Blocks(conf, req), conf.bs)])
  }

  /** It writes all of the data where the client asked, whatever the disk held. */
  ghost predicate WritesExactly(conf: Conf, req: Request)
    requires conf.Valid() && !Over(conf, req) && !Wraps(req)
  {
    RequestInside(conf, req);
    forall disk: seq<byte>, data: seq<byte> :: |disk| == conf.size && |data| == req.count ==>
      CodeWrites(conf, req, disk, data) == Splice(disk, req.offset, data)
  }

  /**
   * The code writes what the client asked exactly when the count is whole blocks and, unless it is 0, the offset
   * too.
   */
  lemma WritesExactlyIffAligned(conf: Conf, req: Request)
    requires conf.Valid() && !Over(conf, req) && !Wraps(req)
    ensures WritesExactly(conf, req) <==> req.count % conf.bs == 0 && (req.count == 0 || req.offset % conf.bs == 0)
  {
    hide Span, Splice;
    RequestInside(conf, req);
    var lo := Span(First(conf, req), conf.bs);
    DivMod(req.offset, conf.bs);
    DivMod(req.count, conf.bs);
    if req.count % conf.bs == 0 && (req.count == 0 || req.offset % conf.bs == 0) {
      forall disk: seq<byte>, data: seq<byte> | |disk| == conf.size && |data| == req.count
        ensures CodeWrites(conf, req, disk, data) == Splice(disk, req.offset, data)
      {
        assert data[..Span(Blocks(conf, req), conf.bs)] == data;
        if req.count == 0 {
          SpliceNothing(disk, lo);
          SpliceNothing(disk, req.offset);
        }
      }
    } else {
      MisalignedMisses(conf, req);
    }
  }

  /** The last byte of a misaligned WRITE is not written. */
  lemma MisalignedMisses(conf: Conf, req: Request)
    requires conf.Valid() && !Over(conf, req) && !Wraps(req)
    requires !(req.count % conf.bs == 0 && (req.count == 0 || req.offset % conf.bs == 0))
    ensures !WritesExactly(conf, req)
  {
    hide Span, Splice;
    RequestInside(conf, req);
    var lo, n := Span(First(conf, req), conf.bs), Span(Blocks(conf, req), conf.bs);
    DivMod(req.offset, conf.bs);
    DivMod(req.count, conf.bs);
    var disk: seq<byte> := seq(conf.size, _ => 0);
    var data: seq<byte> := seq(req.count, _ => 1);
    var i := req.offset + req.count - 1;
    assert lo + n <= i;
    SpliceIndex(disk, lo, data[..n], i);
    SpliceIndex(disk, req.offset, data, i);
    assert CodeWrites(conf, req, disk, data)[i] == 0 && Splice(disk, req.offset, data)[i] == 1;
  }

  /**
   * The client's payload against what a completed WRITE takes of it: the whole blocks. They are all of it, so that the
   * next request is read where the client sent it, exactly when the count is whole blocks; otherwise the rest of the
   * payload is read as a request.
   */
  lemma WriteTakesIffAligned(conf: Conf, ex: Exchange, data: seq<byte>, more: seq<byte>, rest: seq<byte>)
    requires conf.Valid() && ExchangeOk(conf, ex) && ex.req.kind == NBD_CMD_WRITE && ex.error == NBD_SUCCESS
    requires |data| == ex.req.count && ex.drained + rest == data + more
    ensures ex.drained == data[..ex.req.count - ex.req.count % conf.bs]
    ensures rest == data[ex.req.count - ex.req.count % conf.bs..] + more
    ensures !Wraps(ex.req) ==> ex.after == CodeWrites(conf, ex.req, ex.before, data)
    ensures rest == more <==> ex.req.count % conf.bs == 0
  {
    hide Span;
    DivMod(ex.req.count, conf.bs);
    var n := ex.req.count - ex.req.count % conf.bs;
    assert data + more == data[..n] + (data[n..] + more);
    SamePrefix(ex.drained, rest, data[..n], data[n..] + more);
  }
}
