/** Whole runs of the transmission phase against a plain byte-array disk. */
module Runs {
  import opened Bytes
  import opened Wire
  import opened Calls
  import opened Phase

  /** A command of a client: a request, and the payload that follows a WRITE. */
  datatype Command = Command(req: Request, data: seq<byte>)

  /** What the server answers. */
  datatype Answer = Answer(error: nat, payload: seq<byte>)

  /** The reference: one command against an array of bytes, in plain integers, without blocks, chunks or buffers. */
  function Answered(conf: Conf, disk: seq<byte>, c: Command): (Answer, seq<byte>) {
    var lo, hi := c.req.offset, c.req.offset + c.req.count;
    if c.req.kind == NBD_CMD_READ then
      if hi > |disk| then (Answer(NBD_EIO, []), disk) else (Answer(NBD_SUCCESS, disk[lo..hi]), disk)
    else if c.req.kind == NBD_CMD_WRITE then
      if conf.readonly then (Answer(NBD_EPERM, []), disk)
      else if hi > |disk| then (Answer(NBD_ENOSPC, []), disk)
      else if lo + |c.data| <= |disk| then (Answer(NBD_SUCCESS, []), Splice(disk, lo, c.data))
      else (Answer(NBD_SUCCESS, []), disk)
    else if c.req.kind == NBD_CMD_FLUSH then (Answer(NBD_SUCCESS, []), disk)
    else (Answer(NBD_EINVAL, []), disk)
  }

  /** The disk after a script. */
  function FinalDisk(conf: Conf, disk: seq<byte>, script: seq<Command>): seq<byte>
    decreases |script|
  {
    if script == [] then disk else FinalDisk(conf, Answered(conf, disk, script[0]).1, script[1..])
  }

  /** The bytes a client gets for a script. */
  function Answers(conf: Conf, disk: seq<byte>, script: seq<Command>): seq<byte>
    decreases |script|
  {
    if script == [] then []
    else
      var (a, after) := Answered(conf, disk, script[0]);
      SimpleReply(a.error, script[0].req.handle) + a.payload + Answers(conf, after, script[1..])
  }

  /** The bytes a client sends for a script. */
  function Sent(script: seq<Command>): seq<byte>
    requires forall k :: 0 <= k < |script| ==> |script[k].req.handle| == 8
  {
    if script == [] then [] else EncodeRequest(script[0].req) + script[0].data + Sent(script[1..])
  }

  /** READ and WRITE ranges are whole blocks. */
  predicate Aligned(bs: nat, req: Request)
    requires bs > 0
  {
    req.offset % bs == 0 && req.count % bs == 0
  }

  /**
   * A well-behaved command: it fits the wire, does not disconnect, its range does not wrap and is whole blocks, a WRITE
   * is permitted, inside the export and carries its payload, and the plugin has what it asks for.
   */
  predicate Proper(conf: Conf, c: Command)
    requires conf.bs > 0
  {
    && c.req.flags < 0x1_0000 && c.req.kind < 0x1_0000 && |c.req.handle| == 8
    && c.req.offset < 0x1_0000_0000_0000_0000 && c.req.count < 0x1_0000_0000
    && c.req.kind != NBD_CMD_DISC && !Wraps(c.req) && Aligned(conf.bs, c.req)
    && (c.req.kind != NBD_CMD_WRITE ==> c.data == [])
    && (c.req.kind == NBD_CMD_WRITE ==>
          && !conf.readonly && c.req.offset + c.req.count <= conf.size && |c.data| == c.req.count
          && (conf.emptyAtStart || c.req.offset + c.req.count > 0))
    && (c.req.kind == NBD_CMD_FLUSH ==> conf.flushes)
  }

  // ---------- One exchange against the reference ----------

  /**
   * An exchange in which no plugin call failed and the payload arrived is the reference's: same error, same payload,
   * same disk.
   */
  lemma ExchangeIsReference(conf: Conf, ex: Exchange)
    requires conf.Valid() && ExchangeOk(conf, ex) && AllSucceeded(ex.calls) && ex.error != NBD_EOVERFLOW
    requires !Wraps(ex.req) && Aligned(conf.bs, ex.req)
    ensures ex.finished
    ensures (Answer(ex.error, ex.payload), ex.after) == Answered(conf, ex.before, Command(ex.req, ex.drained))
    ensures ex.req.kind == NBD_CMD_WRITE && ex.error == NBD_SUCCESS ==> |ex.drained| == ex.req.count
    ensures ex.req.kind != NBD_CMD_WRITE ==> ex.drained == []
  {
    hide Span;
    DivMod(ex.req.offset, conf.bs);
    DivMod(ex.req.count, conf.bs);
    NoFailedRow(ex.calls, conf.retries + 1);
  }

  /** Every plugin call of a request that does not wrap, aligned or not, covers only blocks inside the export. */
  lemma CallsInside(conf: Conf, ex: Exchange, k: nat)
    requires conf.Valid() && ExchangeOk(conf, ex) && !Wraps(ex.req) && k < |ex.calls|
    ensures CallInside(conf.Plugin(), ex.calls[k])
  {
    hide Span, First, Blocks;
    var c := ex.calls[k];
    if !c.FlushCall? {
      var first, blocks := First(conf, ex.req), Blocks(conf, ex.req);
      RequestInside(conf, ex.req);
      SpanFits(c.offset - first, c.count, blocks, conf.bs);
      SpanAdd(first, c.offset - first, conf.bs);
    }
  }

  /** What a proper command asks of the plugin, the plugin can serve. */
  lemma ProperServable(conf: Conf, ex: Exchange, c: Command, k: nat)
    requires conf.Valid() && ExchangeOk(conf, ex) && Proper(conf, c) && ex.req == c.req && k < |ex.calls|
    ensures Servable(conf.Plugin(), ex.calls[k])
  {
    CallsInside(conf, ex, k);
    hide Span, CallInside;
    DivMod(c.req.offset, conf.bs);
    DivMod(c.req.count, conf.bs);
  }

  /** So a plugin that serves what it can does not fail on a proper command. */
  lemma ProperSucceeds(conf: Conf, ex: Exchange, c: Command)
    requires conf.Valid() && ExchangeOk(conf, ex) && Proper(conf, c) && ex.req == c.req
    requires Sound(conf.Plugin(), ex.calls)
    ensures AllSucceeded(ex.calls)
  {
    hide ExchangeOk, Proper, Servable;
    forall k | 0 <= k < |ex.calls|
      ensures ex.calls[k].code == 0
    {
      ProperServable(conf, ex, c, k);
    }
  }

  // ---------- Runs, from the front ----------

  lemma InitOfTail<T>(h: seq<T>)
    requires |h| > 1
    ensures Init(h)[1..] == Init(h[1..]) && h[1..][|h| - 2] == h[|h| - 1] && Init(h)[0] == h[0]
  {
  }

  lemma {:induction false} RenderFront(h: seq<Exchange>)
    requires h != []
    ensures Render(h) == Rendered(h[0]) + Render(h[1..])
    decreases |h|
  {
    hide Rendered;
    var n := |h| - 1;
    if n > 0 {
      RenderFront(Init(h));
      InitOfTail(h);
      Associate(Rendered(h[0]), Render(Init(h[1..])), Rendered(h[n]));
    } else {
      assert h[1..] == [] && Init(h) == [];
    }
  }

  lemma {:induction false} ConsumedFront(h: seq<Exchange>)
    requires h != [] && HandlesFit(h)
    ensures HandlesFit(h[1..]) && Consumed(h) == Taken(h[0]) + Consumed(h[1..])
    decreases |h|
  {
    hide Taken;
    var n := |h| - 1;
    if n > 0 {
      ConsumedFront(Init(h));
      InitOfTail(h);
      Associate(Taken(h[0]), Consumed(Init(h[1..])), Taken(h[n]));
    } else {
      assert h[1..] == [] && Init(h) == [];
    }
  }

  lemma {:induction false} LinkedFront(h: seq<Exchange>, d0: seq<byte>, d1: seq<byte>)
    requires h != [] && Linked(h, d0, d1)
    ensures h[0].before == d0 && Linked(h[1..], h[0].after, d1)
    decreases |h|
  {
    var n := |h| - 1;
    if n > 0 {
      LinkedFront(Init(h), d0, h[n].before);
      assert Init(h)[1..] == Init(h[1..]) && h[1..][n - 1] == h[n];
    } else {
      assert h[1..] == [] && Init(h) == [];
    }
  }

  lemma RunFront(conf: Conf, h: seq<Exchange>, d0: seq<byte>, d1: seq<byte>)
    requires conf.Valid() && RunOk(conf, h, d0, d1) && h != []
    ensures h[0].before == d0 && RunOk(conf, h[1..], h[0].after, d1) && ExchangeOk(conf, h[0])
    ensures |h| > 1 ==> h[0].finished && h[0].error != NBD_EOVERFLOW
  {
    hide ExchangeOk;
    LinkedFront(h, d0, d1);
  }

  lemma EndedFront(h: seq<Exchange>, end: End, left: seq<byte>)
    requires h != [] && Ended(h, end, left) && (|h| == 1 ==> h[0].finished)
    ensures Ended(h[1..], end, left)
  {
  }

  // ---------- The main theorem ----------

  ghost predicate ProperScript(conf: Conf, script: seq<Command>)
    requires conf.bs > 0
  {
    forall k :: 0 <= k < |script| ==> Proper(conf, script[k])
  }

  /** What a client sends after its last command: a disconnect request, or less than a request. */
  predicate Closing(tail: seq<byte>) {
    |tail| < 28 || (MagicOf(tail[..28]) == NBD_REQUEST_MAGIC && DecodeRequest(tail[..28]).kind == NBD_CMD_DISC)
  }

  lemma SamePrefix(a: seq<byte>, x: seq<byte>, b: seq<byte>, y: seq<byte>)
    requires |a| == |b| && a + x == b + y
    ensures a == b && x == y
  {
    assert (a + x)[..|a|] == a && (b + y)[..|b|] == b;
    assert (a + x)[|a|..] == x && (b + y)[|b|..] == y;
  }

  lemma ProperFits(conf: Conf, c: Command)
    requires conf.bs > 0 && Proper(conf, c)
    ensures c.req.Fits()
  {
    Widths();
  }

  /** A phase cannot have ended where a proper command starts. */
  lemma NotEndedAt(conf: Conf, c: Command, end: End, left: seq<byte>, rest: seq<byte>)
    requires conf.bs > 0 && Proper(conf, c) && left == EncodeRequest(c.req) + rest
    ensures !Ended([], end, left)
  {
    hide EncodeRequest, Request.Fits;
    ProperFits(conf, c);
    RequestRoundTrip(c.req);
    assert left[..28] == EncodeRequest(c.req);
  }

  /** No exchange begins where the client closes. */
  lemma NoneAtClosing(conf: Conf, ex: Exchange, rest: seq<byte>, tail: seq<byte>)
    requires conf.Valid() && ExchangeOk(conf, ex) && Closing(tail)
    requires |ex.req.handle| == 8
    ensures Taken(ex) + rest != tail
  {
    hide EncodeRequest, Request.Fits;
    RequestRoundTrip(ex.req);
    var s := Taken(ex) + rest;
    assert s[..28] == EncodeRequest(ex.req);
  }

  /** The first exchange of a run serves the command the client sent first. */
  lemma FirstServed(conf: Conf, ex: Exchange, c: Command, rest: seq<byte>, more: seq<byte>)
    requires conf.Valid() && ExchangeOk(conf, ex) && Proper(conf, c) && |ex.req.handle| == 8
    requires Sound(conf.Plugin(), ex.calls)
    requires Taken(ex) + rest == EncodeRequest(c.req) + c.data + more
    requires ex.error == NBD_EOVERFLOW ==> rest == []
    ensures ex.req == c.req && ex.drained == c.data && rest == more && ex.error != NBD_EOVERFLOW
    ensures ex.finished && (Answer(ex.error, ex.payload), ex.after) == Answered(conf, ex.before, c)
  {
    hide EncodeRequest, Request.Fits, Answered;
    ProperFits(conf, c);
    RequestRoundTrip(c.req);
    RequestRoundTrip(ex.req);
    assert Taken(ex) + rest == EncodeRequest(ex.req) + (ex.drained + rest);
    assert EncodeRequest(c.req) + c.data + more == EncodeRequest(c.req) + (c.data + more);
    SamePrefix(EncodeRequest(ex.req), ex.drained + rest, EncodeRequest(c.req), c.data + more);
    ProperSucceeds(conf, ex, c);
    DrainedLength(conf, ex, c, rest, more);
    ExchangeIsReference(conf, ex);
    SamePrefix(ex.drained, rest, c.data, more);
  }

  /** The payload a run consumed for a proper WRITE is all of it. */
  lemma DrainedLength(conf: Conf, ex: Exchange, c: Command, rest: seq<byte>, more: seq<byte>)
    requires conf.Valid() && ExchangeOk(conf, ex) && Proper(conf, c) && AllSucceeded(ex.calls)
    requires ex.req == c.req && ex.drained + rest == c.data + more
    requires ex.error == NBD_EOVERFLOW ==> rest == []
    ensures |ex.drained| == |c.data| && ex.error != NBD_EOVERFLOW
  {
    hide Span;
    DivMod(c.req.offset, conf.bs);
    DivMod(c.req.count, conf.bs);
    assert |ex.drained + rest| == |ex.drained| + |rest| && |c.data + more| == |c.data| + |more|;
  }

  /**
   * Any run over a proper script with a plugin that serves what it can is the reference run: the server answered
   * exactly what the byte array answers, consumed exactly the script, and left the export as the byte array ends up.
   * The buffer length and the retry limit do not appear in the reference.
   */
  lemma {:induction false} RunIsReference(conf: Conf, script: seq<Command>, tail: seq<byte>, h: seq<Exchange>,
                                          d0: seq<byte>, d1: seq<byte>, end: End, left: seq<byte>)
    requires conf.Valid() && RunOk(conf, h, d0, d1) && HandlesFit(h) && Ended(h, end, left)
    requires SoundRun(conf.Plugin(), h)
    requires ProperScript(conf, script) && Closing(tail)
    requires Consumed(h) + left == Sent(script) + tail
    ensures |h| == |script| && left == tail
    ensures Render(h) == Answers(conf, d0, script)
    ensures d1 == FinalDisk(conf, d0, script)
    decreases |script|
  {
    hide RunOk, HandlesFit, Ended, SoundRun, ProperScript, Closing, Consumed, Sent, Render, Rendered, Answered,
         SimpleReply;
    ScriptHandles(conf, script);
    if script == [] {
      NothingServed(conf, tail, h, d0, d1, end, left);
    } else {
      FirstStep(conf, script, tail, h, d0, d1, end, left);
      RunIsReference(conf, script[1..], tail, h[1..], h[0].after, d1, end, left);
      RenderFront(h);
      RenderedIs(h[0]);
    }
  }

  lemma RenderedIs(ex: Exchange)
    ensures Rendered(ex) == SimpleReply(ex.error, ex.req.handle) + ex.payload
  {
  }

  /** A client that closes at once is served nothing. */
  lemma NothingServed(conf: Conf, tail: seq<byte>, h: seq<Exchange>, d0: seq<byte>, d1: seq<byte>, end: End,
                      left: seq<byte>)
    requires conf.Valid() && RunOk(conf, h, d0, d1) && HandlesFit(h) && Closing(tail)
    requires Consumed(h) + left == Sent([]) + tail
    ensures h == [] && left == tail && d1 == d0 && Render(h) == []
  {
    hide ExchangeOk, Closing, Taken, Rendered;
    assert [] + tail == tail && [] + left == left;
    if h != [] {
      RunFront(conf, h, d0, d1);
      ConsumedFront(h);
      Associate(Taken(h[0]), Consumed(h[1..]), left);
      NoneAtClosing(conf, h[0], Consumed(h[1..]) + left, tail);
    }
  }

  /**
   * The first exchange of a run serves the first command as the byte array does, and the others are a run of the
   * rest.
   */
  lemma FirstStep(conf: Conf, script: seq<Command>, tail: seq<byte>, h: seq<Exchange>, d0: seq<byte>, d1: seq<byte>,
                  end: End, left: seq<byte>)
    requires conf.Valid() && RunOk(conf, h, d0, d1) && HandlesFit(h) && Ended(h, end, left)
    requires SoundRun(conf.Plugin(), h) && script != [] && ProperScript(conf, script)
    requires forall k :: 0 <= k < |script| ==> |script[k].req.handle| == 8
    requires Consumed(h) + left == Sent(script) + tail
    ensures h != [] && h[0].req == script[0].req
    ensures (Answer(h[0].error, h[0].payload), h[0].after) == Answered(conf, d0, script[0])
    ensures RunOk(conf, h[1..], h[0].after, d1) && HandlesFit(h[1..]) && Ended(h[1..], end, left)
    ensures SoundRun(conf.Plugin(), h[1..]) && Consumed(h[1..]) + left == Sent(script[1..]) + tail
  {
    hide ExchangeOk, Ended, Proper, Taken, Answered, EncodeRequest, Sound, RunOk;
    var c, rest := script[0], Sent(script[1..]) + tail;
    Associate(EncodeRequest(c.req) + c.data, Sent(script[1..]), tail);
    Associate(EncodeRequest(c.req), c.data, rest);
    if h == [] {
      assert [] + left == left;
      NotEndedAt(conf, c, end, left, c.data + rest);
    }
    RunFront(conf, h, d0, d1);
    ConsumedFront(h);
    Associate(Taken(h[0]), Consumed(h[1..]), left);
    StarvedLeftNothing(h, end, left);
    FirstServed(conf, h[0], c, Consumed(h[1..]) + left, rest);
    EndedFront(h, end, left);
  }

  lemma ScriptHandles(conf: Conf, script: seq<Command>)
    requires conf.bs > 0 && ProperScript(conf, script)
    ensures forall k :: 0 <= k < |script| ==> |script[k].req.handle| == 8
    ensures script != [] ==> Proper(conf, script[0]) && ProperScript(conf, script[1..])
  {
  }

  lemma StarvedLeftNothing(h: seq<Exchange>, end: End, left: seq<byte>)
    requires h != [] && HandlesFit(h) && Ended(h, end, left)
    requires |h| > 1 ==> h[0].error != NBD_EOVERFLOW
    ensures h[0].error == NBD_EOVERFLOW ==> Consumed(h[1..]) + left == []
  {
  }
}
