/** The transmission phase on values: what one exchange may be, and the state of the chunk loops. */
module Phase {
  import opened Bytes
  import opened Wire
  import opened Calls

  /**
   * What a phase is run with: block size, export size, read-only flag, buffer length and retry limit; how many blocks
   * at a time a failed pwrite may spoil; and whether the plugin flushes and takes an empty write at its start.
   */
  datatype Conf = Conf(bs: nat, size: nat, readonly: bool, buflen: nat, retries: nat,
                       grain: nat, flushes: bool, emptyAtStart: bool) {
    ghost predicate Valid() {
      0 < bs <= buflen && size < 0x8000_0000_0000_0000 && grain > 0
    }

    function Plugin(): Device {
      Device(bs, size, !readonly, flushes, emptyAtStart)
    }

    /** Blocks that fit in the buffer. */
    function Chunk(): nat
      requires bs > 0
    {
      buflen / bs
    }
  }

  /**
   * One request and everything it caused: the error and the payload sent, the
   * payload consumed, the plugin calls, and the disk before and after. It is
   * finished unless the phase ended in the middle of it.
   */
  datatype Exchange = Exchange(req: Request, error: nat, payload: seq<byte>, drained: seq<byte>, calls: seq<Call>,
                               before: seq<byte>, after: seq<byte>, finished: bool)

  /** The end of the request does not fit in 64 bits. */
  predicate Wraps(req: Request) {
    req.offset + req.count >= 0x1_0000_0000_0000_0000
  }

  /** The range check of the code, on 64-bit integers. */
  predicate Over(conf: Conf, req: Request) {
    (req.offset + req.count) % 0x1_0000_0000_0000_0000 > conf.size
  }

  function First(conf: Conf, req: Request): nat
    requires conf.bs > 0
  {
    req.offset / conf.bs
  }

  function Blocks(conf: Conf, req: Request): nat
    requires conf.bs > 0
  {
    req.count / conf.bs
  }

  // ---------- Calls ----------

  function Size(c: Call): nat {
    if c.FlushCall? then 0 else c.count
  }

  /** Blocks moved by the calls that succeeded. */
  function Delivered(calls: seq<Call>): nat {
    if calls == [] then 0
    else Delivered(Init(calls)) + if calls[|calls| - 1].code == 0 then Size(calls[|calls| - 1]) else 0
  }

  /** Blocks of all the calls. */
  function Total(calls: seq<Call>): nat {
    if calls == [] then 0 else Total(Init(calls)) + Size(calls[|calls| - 1])
  }

  function Successes(calls: seq<Call>): nat {
    if calls == [] then 0 else Successes(Init(calls)) + if calls[|calls| - 1].code == 0 then 1 else 0
  }

  /** Calls at the end that failed. */
  function Trailing(calls: seq<Call>): (n: nat)
    ensures n <= |calls|
  {
    if calls == [] || calls[|calls| - 1].code == 0 then 0 else 1 + Trailing(Init(calls))
  }

  /** Some `n` calls in a row failed. */
  predicate FailedRow(calls: seq<Call>, n: nat) {
    calls != [] && (Trailing(calls) >= n || FailedRow(Init(calls), n))
  }

  ghost predicate AllSucceeded(calls: seq<Call>) {
    forall k :: 0 <= k < |calls| ==> calls[k].code == 0
  }

  /** One more call. */
  lemma Snoc(calls: seq<Call>, c: Call, n: nat)
    ensures Delivered(calls + [c]) == Delivered(calls) + if c.code == 0 then Size(c) else 0
    ensures Total(calls + [c]) == Total(calls) + Size(c)
    ensures Successes(calls + [c]) == Successes(calls) + if c.code == 0 then 1 else 0
    ensures Trailing(calls + [c]) == if c.code == 0 then 0 else 1 + Trailing(calls)
    ensures FailedRow(calls + [c], n) <==> Trailing(calls + [c]) >= n || FailedRow(calls, n)
    ensures AllSucceeded(calls + [c]) <==> AllSucceeded(calls) && c.code == 0
    ensures Init(calls + [c]) == calls && (calls + [c])[|calls|] == c
  {
    assert Init(calls + [c]) == calls && (calls + [c])[|calls|] == c;
    assert forall k :: 0 <= k < |calls| ==> (calls + [c])[k] == calls[k];
  }

  /** The call stays inside the request, and inside one buffer. */
  predicate InWindow(conf: Conf, req: Request, c: Call)
    requires conf.bs > 0 && !c.FlushCall?
  {
    && First(conf, req) <= c.offset && c.offset + c.count <= First(conf, req) + Blocks(conf, req)
    && c.count <= conf.Chunk()
  }

  /** The chunk of the next turn. */
  function NextChunk(remains: nat, chunk: nat): nat {
    if remains < chunk then remains else chunk
  }

  /**
   * Each call takes up where the successful ones before it left off, and is for a full buffer of blocks or for all that
   * is left.
   */
  ghost predicate InOrder(conf: Conf, req: Request, calls: seq<Call>)
    requires conf.bs > 0
  {
    calls == [] ||
    var last, done := calls[|calls| - 1], Delivered(Init(calls));
    && InOrder(conf, req, Init(calls)) && !last.FlushCall? && done <= Blocks(conf, req)
    && last.offset == First(conf, req) + done && last.count == NextChunk(Blocks(conf, req) - done, conf.Chunk())
  }

  lemma OrderMore(conf: Conf, req: Request, calls: seq<Call>, c: Call, remains: nat, chunk: nat)
    requires conf.bs > 0 && InOrder(conf, req, calls) && !c.FlushCall?
    requires remains + Delivered(calls) == Blocks(conf, req)
    requires chunk == conf.Chunk() || (chunk == remains && chunk < conf.Chunk())
    requires c.offset == First(conf, req) + Delivered(calls) && c.count == NextChunk(remains, chunk)
    ensures InOrder(conf, req, calls + [c])
  {
    hide First, Blocks, Delivered, Conf.Chunk;
    assert Init(calls + [c]) == calls;
  }

  /** Where nothing failed, everything asked for was delivered. */
  lemma {:induction false} NoFailedRow(calls: seq<Call>, n: nat)
    requires AllSucceeded(calls) && n > 0
    ensures !FailedRow(calls, n) && Trailing(calls) == 0 && Delivered(calls) == Total(calls)
  {
    if calls != [] {
      NoFailedRow(Init(calls), n);
    }
  }

  ghost predicate ReadCalls(conf: Conf, req: Request, calls: seq<Call>)
    requires conf.bs > 0
  {
    && InOrder(conf, req, calls)
    && forall k :: 0 <= k < |calls| ==> calls[k].ReadCall? && InWindow(conf, req, calls[k])
  }

  ghost predicate WriteCalls(conf: Conf, req: Request, calls: seq<Call>)
    requires conf.bs > 0
  {
    && InOrder(conf, req, calls)
    && forall k :: 0 <= k < |calls| ==>
      calls[k].WriteCall? && InWindow(conf, req, calls[k]) && (calls[k].count > 0 || Blocks(conf, req) == 0)
  }

  // ---------- Exchanges ----------

  /** Nothing but a reply header. */
  ghost predicate OnlyReply(ex: Exchange, error: nat) {
    ex.error == error && ex.payload == [] && ex.drained == [] && ex.calls == [] && ex.after == ex.before && ex.finished
  }

  /** The payload of a READ is what the disk holds from its first block on. */
  ghost predicate PayloadFrom(conf: Conf, req: Request, disk: seq<byte>, payload: seq<byte>)
    requires conf.bs > 0
  {
    var lo := Span(First(conf, req), conf.bs);
    lo + |payload| <= |disk| && payload == disk[lo..lo + |payload|]
  }

  ghost predicate ReadOk(conf: Conf, ex: Exchange)
    requires conf.Valid()
  {
    if Over(conf, ex.req) then OnlyReply(ex, NBD_EIO)
    else
      && ex.error == NBD_SUCCESS && ex.drained == [] && ex.after == ex.before
      && ReadCalls(conf, ex.req, ex.calls)
      && |ex.payload| == Span(Delivered(ex.calls), conf.bs)
      && (!Wraps(ex.req) ==> PayloadFrom(conf, ex.req, ex.before, ex.payload))
      && (ex.finished <==> !FailedRow(ex.calls, conf.retries + 1))
      && (ex.finished ==> Delivered(ex.calls) == Blocks(conf, ex.req))
      && (!ex.finished ==> Delivered(ex.calls) == Span(Successes(ex.calls), conf.Chunk()))
      && (!ex.finished ==> Delivered(ex.calls) < Blocks(conf, ex.req) || Blocks(conf, ex.req) == 0)
  }

  /**
   * A WRITE that failed in the plugin: the chunks before the failing one are spliced in, and otherwise nothing changed
   * outside the units that the failing chunk touches.
   */
  ghost predicate Spoilt(conf: Conf, ex: Exchange)
    requires conf.Valid() && ex.calls != [] && |ex.drained| == Span(Total(ex.calls), conf.bs)
  {
    var first, good := First(conf, ex.req), Total(Init(ex.calls));
    exists mid :: SplicedUpTo(conf, ex, good, mid)
                  && Spared(mid, ex.after, first + good, first + Total(ex.calls), conf.grain, conf.bs)
  }

  /** `mid` is the disk with the first `good` blocks of the payload spliced in. */
  ghost predicate SplicedUpTo(conf: Conf, ex: Exchange, good: nat, mid: seq<byte>)
    requires conf.Valid()
  {
    && Span(good, conf.bs) <= |ex.drained|
    && IsSplice(ex.before, mid, Span(First(conf, ex.req), conf.bs), ex.drained[..Span(good, conf.bs)])
  }

  ghost predicate WriteOk(conf: Conf, ex: Exchange)
    requires conf.Valid()
  {
    if conf.readonly then OnlyReply(ex, NBD_EPERM)
    else if Over(conf, ex.req) then OnlyReply(ex, NBD_ENOSPC)
    else
      && ex.payload == [] && ex.finished && |ex.after| == |ex.before|
      && WriteCalls(conf, ex.req, ex.calls)
      && match ex.error {
           case 0 =>
             && AllSucceeded(ex.calls) && Total(ex.calls) == Blocks(conf, ex.req)
             && |ex.drained| == Span(Blocks(conf, ex.req), conf.bs)
             && (!Wraps(ex.req) ==> IsSplice(ex.before, ex.after, Span(First(conf, ex.req), conf.bs), ex.drained))
           case 5 =>
             && ex.calls != [] && AllSucceeded(Init(ex.calls)) && ex.calls[|ex.calls| - 1].code != 0
             && |ex.drained| == Span(Total(ex.calls), conf.bs) && Total(ex.calls) <= Blocks(conf, ex.req)
             && (!Wraps(ex.req) ==> Spoilt(conf, ex))
           case 75 =>
             && AllSucceeded(ex.calls)
             && Span(Total(ex.calls), conf.bs) <= |ex.drained| < Span(Blocks(conf, ex.req), conf.bs)
             && (!Wraps(ex.req) ==> IsSplice(ex.before, ex.after, Span(First(conf, ex.req), conf.bs),
                                             ex.drained[..Span(Total(ex.calls), conf.bs)]))
           case _ => false
         }
  }

  ghost predicate FlushOk(ex: Exchange) {
    && ex.payload == [] && ex.drained == [] && ex.after == ex.before && ex.finished
    && |ex.calls| == 1 && ex.calls[0].FlushCall?
    && ex.error == if ex.calls[0].code == 0 then NBD_SUCCESS else NBD_EIO
  }

  ghost predicate ExchangeOk(conf: Conf, ex: Exchange)
    requires conf.Valid()
  {
    && ex.req.Fits() && ex.req.kind != NBD_CMD_DISC && |ex.before| == |ex.after| == conf.size
    && if ex.req.kind == NBD_CMD_READ then ReadOk(conf, ex)
       else if ex.req.kind == NBD_CMD_WRITE then WriteOk(conf, ex)
       else if ex.req.kind == NBD_CMD_FLUSH then FlushOk(ex)
       else OnlyReply(ex, NBD_EINVAL)
  }

  // ---------- Runs ----------

  /** The bytes sent for an exchange. */
  function Rendered(ex: Exchange): seq<byte> {
    SimpleReply(ex.error, ex.req.handle) + ex.payload
  }

  /** The bytes received for an exchange. */
  function Taken(ex: Exchange): seq<byte>
    requires |ex.req.handle| == 8
  {
    EncodeRequest(ex.req) + ex.drained
  }

  function Render(h: seq<Exchange>): seq<byte> {
    if h == [] then [] else Render(Init(h)) + Rendered(h[|h| - 1])
  }

  ghost predicate HandlesFit(h: seq<Exchange>) {
    forall k :: 0 <= k < |h| ==> |h[k].req.handle| == 8
  }

  function Consumed(h: seq<Exchange>): seq<byte>
    requires HandlesFit(h)
  {
    if h == [] then [] else Consumed(Init(h)) + Taken(h[|h| - 1])
  }

  /** The plugin calls of a run. */
  function CallsOf(h: seq<Exchange>): seq<Call> {
    if h == [] then [] else CallsOf(Init(h)) + h[|h| - 1].calls
  }

  lemma CallsMore(before: seq<Call>, h: seq<Exchange>, ex: Exchange)
    ensures before + CallsOf(h + [ex]) == before + CallsOf(h) + ex.calls
  {
    assert Init(h + [ex]) == h;
  }

  /** No call of the run failed that the plugin could serve. */
  ghost predicate SoundRun(dev: Device, h: seq<Exchange>) {
    forall k :: 0 <= k < |h| ==> Sound(dev, h[k].calls)
  }

  lemma {:induction false} SoundLog(dev: Device, before: seq<Call>, h: seq<Exchange>)
    requires Sound(dev, before + CallsOf(h))
    ensures SoundRun(dev, h)
    decreases |h|
  {
    hide Sound;
    if h != [] {
      assert before + CallsOf(h) == (before + CallsOf(Init(h))) + h[|h| - 1].calls;
      SoundPart(dev, before + CallsOf(Init(h)), h[|h| - 1].calls);
      SoundLog(dev, before, Init(h));
      assert forall k :: 0 <= k < |h| - 1 ==> h[k] == Init(h)[k];
    }
  }

  /** Each exchange starts from the disk the one before it left. */
  ghost predicate Linked(h: seq<Exchange>, d0: seq<byte>, d1: seq<byte>) {
    if h == [] then d0 == d1 else h[|h| - 1].after == d1 && Linked(Init(h), d0, h[|h| - 1].before)
  }

  /**
   * A run: allowed exchanges, linked by the disk; only the last one can have ended the phase or met the end of the
   * stream.
   */
  ghost predicate RunOk(conf: Conf, h: seq<Exchange>, d0: seq<byte>, d1: seq<byte>)
    requires conf.Valid()
  {
    && Linked(h, d0, d1)
    && (forall k :: 0 <= k < |h| ==> ExchangeOk(conf, h[k]))
    && (forall k :: 0 <= k < |h| - 1 ==> h[k].finished && h[k].error != NBD_EOVERFLOW)
  }

  /** One more exchange. */
  lemma RunMore(conf: Conf, h: seq<Exchange>, d0: seq<byte>, d1: seq<byte>, ex: Exchange)
    requires conf.Valid() && RunOk(conf, h, d0, d1) && ExchangeOk(conf, ex) && ex.before == d1
    requires h != [] ==> h[|h| - 1].finished && h[|h| - 1].error != NBD_EOVERFLOW
    ensures RunOk(conf, h + [ex], d0, ex.after)
  {
    hide ExchangeOk, Linked;
    LinkMore(h, d0, d1, ex);
    assert forall k :: 0 <= k < |h + [ex]| ==> (h + [ex])[k] == if k < |h| then h[k] else ex;
  }

  /** What it adds to the streams. */
  lemma StreamsMore(h: seq<Exchange>, ex: Exchange)
    requires HandlesFit(h) && |ex.req.handle| == 8
    ensures HandlesFit(h + [ex])
    ensures Render(h + [ex]) == Render(h) + Rendered(ex)
    ensures Consumed(h + [ex]) == Consumed(h) + Taken(ex)
  {
    hide Rendered, Taken;
    assert Init(h + [ex]) == h;
  }

  lemma LinkMore(h: seq<Exchange>, d0: seq<byte>, d1: seq<byte>, ex: Exchange)
    requires Linked(h, d0, d1) && ex.before == d1
    ensures Linked(h + [ex], d0, ex.after)
  {
    assert Init(h + [ex]) == h;
  }

  lemma ChunkPositive(c: Conf)
    requires c.Valid()
    ensures c.Chunk() > 0
  {
    DivMod(c.buflen, c.bs);
  }

  // ---------- The READ loop ----------

  /** The READ loop between two turns; `last` once the last chunk has been sent. */
  ghost predicate ReadState(conf: Conf, req: Request, disk: seq<byte>, calls: seq<Call>, payload: seq<byte>,
                            remains: nat, offset: nat, chunk: nat, retry: nat, last: bool)
    requires conf.Valid()
  {
    && ReadCalls(conf, req, calls)
    && remains + Delivered(calls) == Blocks(conf, req)
    && offset == First(conf, req) + Delivered(calls)
    && |payload| == Span(Delivered(calls), conf.bs)
    && (!Wraps(req) ==> PayloadFrom(conf, req, disk, payload))
    && retry + Trailing(calls) == conf.retries
    && !FailedRow(calls, conf.retries + 1)
    && (last ==> remains == 0 && retry == conf.retries)
    && (!last ==> Delivered(calls) == Span(Successes(calls), conf.Chunk()))
    && (!last ==> Delivered(calls) < Blocks(conf, req) || Blocks(conf, req) == 0)
    && (!last ==> chunk == conf.Chunk() || (chunk == remains && chunk < conf.Chunk()))
  }

  /** Bytes of the request that lie on the disk. */
  lemma RequestInside(conf: Conf, req: Request)
    requires conf.Valid() && !Over(conf, req) && !Wraps(req)
    ensures Span(First(conf, req), conf.bs) <= req.offset
    ensures Span(First(conf, req), conf.bs) + Span(Blocks(conf, req), conf.bs) <= req.offset + req.count <= conf.size
  {
    DivMod(req.offset, conf.bs);
    DivMod(req.count, conf.bs);
  }

  lemma ReadStart(conf: Conf, req: Request, disk: seq<byte>)
    requires conf.Valid() && !Over(conf, req) && |disk| == conf.size
    ensures ReadState(conf, req, disk, [], [], Blocks(conf, req), First(conf, req), conf.Chunk(), conf.retries, false)
  {
    if !Wraps(req) {
      RequestInside(conf, req);
    }
  }

  /** The next bytes of the disk continue the payload. */
  lemma PayloadMore(conf: Conf, req: Request, disk: seq<byte>, payload: seq<byte>, done: nat, data: seq<byte>)
    requires conf.bs > 0 && PayloadFrom(conf, req, disk, payload) && |payload| == Span(done, conf.bs)
    requires var from := Span(First(conf, req) + done, conf.bs);
             from + |data| <= |disk| && data == disk[from..from + |data|]
    ensures PayloadFrom(conf, req, disk, payload + data)
  {
    var lo := Span(First(conf, req), conf.bs);
    SpanAdd(First(conf, req), done, conf.bs);
    SliceJoin(disk, lo, lo + |payload|, lo + |payload| + |data|);
  }

  /** A turn whose pread and send succeeded. */
  lemma ReadTurn(conf: Conf, req: Request, disk: seq<byte>, calls: seq<Call>, payload: seq<byte>, data: seq<byte>,
                 remains: nat, offset: nat, chunk: nat, retry: nat)
    requires conf.Valid() && !Over(conf, req) && |disk| == conf.size
    requires ReadState(conf, req, disk, calls, payload, remains, offset, chunk, retry, false)
    requires |data| == Span(NextChunk(remains, chunk), conf.bs)
    requires !Wraps(req) ==> Span(offset, conf.bs) + |data| <= |disk|
    requires !Wraps(req) ==> data == disk[Span(offset, conf.bs)..Span(offset, conf.bs) + |data|]
    ensures NextChunk(remains, chunk) <= remains
    ensures ReadState(conf, req, disk, calls + [ReadCall(offset, NextChunk(remains, chunk), 0)], payload + data,
                      remains - NextChunk(remains, chunk), offset + NextChunk(remains, chunk),
                      NextChunk(remains, chunk), conf.retries, remains <= NextChunk(remains, chunk))
  {
    hide Span, First, Blocks, Delivered, Successes, Trailing, FailedRow, PayloadFrom, Conf.Chunk, InOrder;
    var n := NextChunk(remains, chunk);
    Snoc(calls, ReadCall(offset, n, 0), conf.retries + 1);
    OrderMore(conf, req, calls, ReadCall(offset, n, 0), remains, chunk);
    SpanAdd(Delivered(calls), n, conf.bs);
    SpanAdd(Successes(calls), 1, conf.Chunk());
    SpanOne(conf.Chunk());
    if !Wraps(req) {
      PayloadMore(conf, req, disk, payload, Delivered(calls), data);
    }
  }

  /** A turn whose pread failed, with a retry left. */
  lemma ReadRetry(conf: Conf, req: Request, disk: seq<byte>, calls: seq<Call>, payload: seq<byte>,
                  remains: nat, offset: nat, chunk: nat, retry: nat, code: int)
    requires conf.Valid() && ReadState(conf, req, disk, calls, payload, remains, offset, chunk, retry, false)
    requires retry > 0 && code != 0
    ensures var n := NextChunk(remains, chunk);
            ReadState(conf, req, disk, calls + [ReadCall(offset, n, code)], payload, remains, offset, n, retry - 1,
                      false)
  {
    hide Span, First, Blocks, Delivered, Successes, Trailing, FailedRow, PayloadFrom, Conf.Chunk, InOrder;
    var n := NextChunk(remains, chunk);
    Snoc(calls, ReadCall(offset, n, code), conf.retries + 1);
    OrderMore(conf, req, calls, ReadCall(offset, n, code), remains, chunk);
  }

  /** A turn whose pread failed, with no retry left. */
  lemma ReadGivesUp(conf: Conf, req: Request, disk: seq<byte>, calls: seq<Call>, payload: seq<byte>,
                    remains: nat, offset: nat, chunk: nat, code: int)
    requires conf.Valid() && !Over(conf, req)
    requires ReadState(conf, req, disk, calls, payload, remains, offset, chunk, 0, false) && code != 0
    ensures ReadOk(conf, Exchange(req, NBD_SUCCESS, payload, [],
                                  calls + [ReadCall(offset, NextChunk(remains, chunk), code)], disk, disk, false))
  {
    hide Span, First, Blocks, Delivered, Successes, Trailing, FailedRow, PayloadFrom, Conf.Chunk, InOrder;
    Snoc(calls, ReadCall(offset, NextChunk(remains, chunk), code), conf.retries + 1);
    OrderMore(conf, req, calls, ReadCall(offset, NextChunk(remains, chunk), code), remains, chunk);
  }

  lemma ReadDone(conf: Conf, req: Request, disk: seq<byte>, calls: seq<Call>, payload: seq<byte>,
                 remains: nat, offset: nat, chunk: nat, retry: nat)
    requires conf.Valid() && !Over(conf, req)
    requires ReadState(conf, req, disk, calls, payload, remains, offset, chunk, retry, true)
    ensures ReadOk(conf, Exchange(req, NBD_SUCCESS, payload, [], calls, disk, disk, true))
  {
  }

  // ---------- The WRITE loop ----------

  /** The WRITE loop between two turns; `last` once the last chunk has been written. */
  ghost predicate WriteState(conf: Conf, req: Request, d0: seq<byte>, disk: seq<byte>, calls: seq<Call>,
                             drained: seq<byte>, remains: nat, offset: nat, chunk: nat, last: bool)
    requires conf.Valid()
  {
    && WriteCalls(conf, req, calls) && AllSucceeded(calls)
    && remains + Total(calls) == Blocks(conf, req)
    && offset == First(conf, req) + Total(calls)
    && |drained| == Span(Total(calls), conf.bs)
    && |disk| == |d0|
    && (!Wraps(req) ==> IsSplice(d0, disk, Span(First(conf, req), conf.bs), drained))
    && (last ==> remains == 0)
    && (!last ==> chunk == conf.Chunk() && (remains > 0 || Blocks(conf, req) == 0))
  }

  lemma WriteStart(conf: Conf, req: Request, disk: seq<byte>)
    requires conf.Valid() && !Over(conf, req) && |disk| == conf.size
    ensures WriteState(conf, req, disk, disk, [], [], Blocks(conf, req), First(conf, req), conf.Chunk(), false)
  {
    hide Splice;
    if !Wraps(req) {
      RequestInside(conf, req);
      SpliceNothing(disk, Span(First(conf, req), conf.bs));
    }
  }

  /** The chunk of a turn lies on the disk. */
  lemma TurnInside(conf: Conf, req: Request, done: nat, n: nat)
    requires conf.Valid() && !Over(conf, req) && !Wraps(req) && done + n <= Blocks(conf, req)
    ensures Span(First(conf, req) + done, conf.bs) + Span(n, conf.bs) <= conf.size
  {
    hide Span, First, Blocks;
    RequestInside(conf, req);
    SpanAdd(First(conf, req), done, conf.bs);
    SpanFits(done, n, Blocks(conf, req), conf.bs);
  }

  lemma SpliceNext<T>(d0: seq<T>, d1: seq<T>, d2: seq<T>, at: nat, a: seq<T>, b: seq<T>)
    requires IsSplice(d0, d1, at, a) && IsSplice(d1, d2, at + |a|, b)
    ensures IsSplice(d0, d2, at, a + b)
  {
    SpliceJoin(d0, at, a, b);
  }

  /** A turn whose payload arrived and whose pwrite succeeded. */
  lemma WriteTurn(conf: Conf, req: Request, d0: seq<byte>, disk: seq<byte>, now: seq<byte>, calls: seq<Call>,
                  drained: seq<byte>, data: seq<byte>, remains: nat, offset: nat, chunk: nat)
    requires conf.Valid() && !Over(conf, req) && |d0| == conf.size == |now|
    requires WriteState(conf, req, d0, disk, calls, drained, remains, offset, chunk, false)
    requires |data| == Span(NextChunk(remains, chunk), conf.bs)
    requires !Wraps(req) ==> IsSplice(disk, now, Span(offset, conf.bs), data)
    ensures NextChunk(remains, chunk) <= remains
    ensures WriteState(conf, req, d0, now, calls + [WriteCall(offset, NextChunk(remains, chunk), 0)], drained + data,
                       remains - NextChunk(remains, chunk), offset + NextChunk(remains, chunk),
                       NextChunk(remains, chunk), remains <= NextChunk(remains, chunk))
  {
    hide Span, First, Blocks, Total, IsSplice, AllSucceeded, Conf.Chunk, InOrder, Delivered;
    var n := NextChunk(remains, chunk);
    ChunkPositive(conf);
    Snoc(calls, WriteCall(offset, n, 0), 1);
    NoFailedRow(calls, 1);
    OrderMore(conf, req, calls, WriteCall(offset, n, 0), remains, chunk);
    SpanAdd(Total(calls), n, conf.bs);
    SpanAdd(First(conf, req), Total(calls), conf.bs);
    if !Wraps(req) {
      SpliceNext(d0, disk, now, Span(First(conf, req), conf.bs), drained, data);
    }
  }

  /** A turn whose pwrite failed. */
  lemma WriteFails(conf: Conf, req: Request, d0: seq<byte>, disk: seq<byte>, now: seq<byte>, calls: seq<Call>,
                   drained: seq<byte>, data: seq<byte>, remains: nat, offset: nat, chunk: nat, code: int)
    requires conf.Valid() && !Over(conf, req) && !conf.readonly && |d0| == |now| && code != 0
    requires WriteState(conf, req, d0, disk, calls, drained, remains, offset, chunk, false)
    requires |data| == Span(NextChunk(remains, chunk), conf.bs)
    requires !Wraps(req) ==> Spared(disk, now, offset, offset + NextChunk(remains, chunk), conf.grain, conf.bs)
    ensures WriteOk(conf, Exchange(req, NBD_EIO, [], drained + data,
                                   calls + [WriteCall(offset, NextChunk(remains, chunk), code)], d0, now, true))
  {
    hide Span, First, Blocks, Total, IsSplice, AllSucceeded, Conf.Chunk, Spared, InOrder, Delivered;
    var n := NextChunk(remains, chunk);
    ChunkPositive(conf);
    Snoc(calls, WriteCall(offset, n, code), 1);
    NoFailedRow(calls, 1);
    OrderMore(conf, req, calls, WriteCall(offset, n, code), remains, chunk);
    SpanAdd(Total(calls), n, conf.bs);
    var ex := Exchange(req, NBD_EIO, [], drained + data, calls + [WriteCall(offset, n, code)], d0, now, true);
    if !Wraps(req) {
      assert ex.drained[..Span(Total(calls), conf.bs)] == drained;
      assert SplicedUpTo(conf, ex, Total(calls), disk);
    }
  }

  /** A turn whose payload did not arrive. */
  lemma WriteStarves(conf: Conf, req: Request, d0: seq<byte>, disk: seq<byte>, calls: seq<Call>,
                     drained: seq<byte>, rest: seq<byte>, remains: nat, offset: nat, chunk: nat)
    requires conf.Valid() && !Over(conf, req) && !conf.readonly
    requires WriteState(conf, req, d0, disk, calls, drained, remains, offset, chunk, false)
    requires |rest| < Span(NextChunk(remains, chunk), conf.bs)
    ensures WriteOk(conf, Exchange(req, NBD_EOVERFLOW, [], drained + rest, calls, d0, disk, true))
  {
    hide First, Blocks, Total, IsSplice, AllSucceeded, Conf.Chunk;
    SpanFits(Total(calls), NextChunk(remains, chunk), Blocks(conf, req), conf.bs);
    assert (drained + rest)[..Span(Total(calls), conf.bs)] == drained;
  }

  lemma WriteDone(conf: Conf, req: Request, d0: seq<byte>, disk: seq<byte>, calls: seq<Call>, drained: seq<byte>,
                  remains: nat, offset: nat, chunk: nat)
    requires conf.Valid() && !Over(conf, req) && !conf.readonly
    requires WriteState(conf, req, d0, disk, calls, drained, remains, offset, chunk, true)
    ensures WriteOk(conf, Exchange(req, NBD_SUCCESS, [], drained, calls, d0, disk, true))
  {
  }

  // ---------- The end of a phase ----------

  datatype End = Disconnect | EndOfStream | WrongMagic | ReadFailed

  /** Why a phase ended, told by the stream as it was when the last header was read. */
  ghost predicate Ended(h: seq<Exchange>, end: End, left: seq<byte>) {
    && (h != [] ==> (h[|h| - 1].finished <==> !end.ReadFailed?))
    && (h != [] && h[|h| - 1].error == NBD_EOVERFLOW ==> left == [])
    && match end {
         case Disconnect =>
           |left| >= 28 && MagicOf(left[..28]) == NBD_REQUEST_MAGIC && DecodeRequest(left[..28]).kind == NBD_CMD_DISC
         case EndOfStream => |left| < 28
         case WrongMagic => |left| >= 28 && MagicOf(left[..28]) != NBD_REQUEST_MAGIC
         case ReadFailed => h != []
       }
  }

  /**
   * A phase that has not ended: its last exchange was finished, and met the end of the stream only if there is no
   * more.
   */
  ghost predicate MayGoOn(h: seq<Exchange>, left: seq<byte>) {
    h != [] ==> h[|h| - 1].finished && (h[|h| - 1].error == NBD_EOVERFLOW ==> left == [])
  }

  lemma EndsHere(h: seq<Exchange>, end: End, left: seq<byte>)
    requires MayGoOn(h, left)
    requires match end {
               case Disconnect =>
                 && |left| >= 28 && MagicOf(left[..28]) == NBD_REQUEST_MAGIC
                 && DecodeRequest(left[..28]).kind == NBD_CMD_DISC
               case EndOfStream => |left| < 28
               case WrongMagic => |left| >= 28 && MagicOf(left[..28]) != NBD_REQUEST_MAGIC
               case ReadFailed => false
             }
    ensures Ended(h, end, left)
  {
  }

  lemma FailsHere(h: seq<Exchange>, left: seq<byte>)
    requires h != [] && !h[|h| - 1].finished && (h[|h| - 1].error == NBD_EOVERFLOW ==> left == [])
    ensures Ended(h, ReadFailed, left)
  {
  }

  // ---------- A phase over its streams ----------

  /**
   * A run over the disk, which sent the replies of its exchanges in order and nothing else, and received their requests
   * and payloads in order and then has `left` before it.
   */
  ghost predicate Ran(conf: Conf, d0: seq<byte>, in0: seq<byte>, out0: seq<byte>,
                      h: seq<Exchange>, disk: seq<byte>, output: seq<byte>, left: seq<byte>)
    requires conf.Valid()
  {
    && RunOk(conf, h, d0, disk) && HandlesFit(h)
    && output == out0 + Render(h) && in0 == Consumed(h) + left
  }

  lemma StartOfRun(conf: Conf, d0: seq<byte>, in0: seq<byte>, out0: seq<byte>)
    requires conf.Valid()
    ensures Ran(conf, d0, in0, out0, [], d0, out0, in0) && MayGoOn([], in0) && CallsOf([]) == []
  {
    assert out0 + [] == out0 && [] + in0 == in0;
  }

  /** One more exchange. */
  lemma RanMore(conf: Conf, d0: seq<byte>, in0: seq<byte>, out0: seq<byte>, h: seq<Exchange>, disk: seq<byte>,
                output: seq<byte>, left: seq<byte>, ex: Exchange, sent: seq<byte>, rest: seq<byte>)
    requires conf.Valid() && Ran(conf, d0, in0, out0, h, disk, output, left) && MayGoOn(h, left)
    requires ExchangeOk(conf, ex) && ex.before == disk && sent == output + Rendered(ex)
    requires |left| >= 28 && MagicOf(left[..28]) == NBD_REQUEST_MAGIC && ex.req == DecodeRequest(left[..28])
    requires left[28..] == ex.drained + rest && (ex.error == NBD_EOVERFLOW ==> rest == [])
    ensures Ran(conf, d0, in0, out0, h + [ex], ex.after, sent, rest)
    ensures ex.finished ==> MayGoOn(h + [ex], rest)
  {
    hide RunOk, ExchangeOk, Render, Consumed, Rendered, EncodeRequest;
    RunMore(conf, h, d0, disk, ex);
    StreamsMore(h, ex);
    RequestBytes(left[..28]);
    StreamSplit(left, ex, rest, Consumed(h));
    Associate(out0, Render(h), Rendered(ex));
  }

  lemma StreamSplit(left: seq<byte>, ex: Exchange, rest: seq<byte>, before: seq<byte>)
    requires |left| >= 28 && left[28..] == ex.drained + rest
    requires |ex.req.handle| == 8 && EncodeRequest(ex.req) == left[..28]
    ensures before + left == before + Taken(ex) + rest
  {
    assert left == left[..28] + (ex.drained + rest);
  }
}
