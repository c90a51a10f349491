/** `protocol_handshake`: the greeting and the haggling loop over a socket. */
module Negotiation {
  import opened Bytes
  import opened Masks
  import opened Text
  import opened Wire
  import opened Transport
  import opened Contexts
  import opened Options
  import opened Haggling
  import opened Yuarel
  import opened Uri

  datatype ClientState = HANDSHAKE | TRANSMISSION | ABORT

  function Greeting(gflags: nat): (b: seq<byte>)
    ensures |b| == 18
  {
    BE(NBD_MAGIC, 8) + BE(NBD_NEW_VERSION, 8) + BE(gflags, 2)
  }

  function ZeroBytes(n: nat): (b: seq<byte>)
    ensures |b| == n && forall k :: 0 <= k < n ==> b[k] == 0
  {
    if n == 0 then [] else [0] + ZeroBytes(n - 1)
  }

  /** The reply to EXPORT_NAME. */
  function ExportReply(size: nat, eflags: nat, cflags: nat): seq<byte> {
    BE(size, 8) + BE(eflags, 2) + if Has(cflags, NBD_FLAG_NO_ZEROES) then [] else ZeroBytes(124)
  }

  const AbortAck := Reply(NBD_OPT_ABORT, NBD_REP_ACK, [])

  /** The URI in the data of an option: it ends at its first zero. */
  function UriIn(data: seq<byte>): seq<byte> {
    CStr(data + [0], 0)
  }

  /** What a server handshakes with: buffer length, global flags, and the size and flags it advertises. */
  datatype Terms = Terms(max: nat, gflags: nat, exportsize: nat, eflags: nat, stray: Option<nat>)

  /** How a handshake ends when every send is complete. */
  datatype Outcome = Outcome(r: int, state: ClientState, ctx: Option<nat>, pool: seq<Context>, output: seq<byte>,
                             left: seq<byte>)

  /** The context an EXPORT_NAME leaves the client with. */
  function Found(terms: Terms, cs: seq<Context>, ctx: Option<nat>, data: seq<byte>): Option<nat> {
    if data == [] then ctx
    else
      match Resolve(cs, UriIn(data))
      case Resolved(k) => Some(k)
      case Unresolved => None
      case NullPlugin => terms.stray
  }

  function PoolAfter(cs: seq<Context>, data: seq<byte>): seq<Context> {
    if data != [] then Updated(cs, UriIn(data)) else cs
  }

  /** The end of a haggling run. */
  function Closed(terms: Terms, cs: seq<Context>, ctx: Option<nat>, cflags: nat, run: Run): Outcome {
    var out := Answers(cs, run.opts);
    match run.end
    case ExportName(data) =>
      var c := Found(terms, cs, ctx, data);
      if c.None? then Outcome(-1, HANDSHAKE, None, PoolAfter(cs, data), out, run.left)
      else
        var reply := ExportReply(terms.exportsize, terms.eflags, cflags);
        Outcome(0, TRANSMISSION, c, PoolAfter(cs, data), out + reply, run.left)
    case Abort(_) => Outcome(0, ABORT, ctx, cs, out + EncodeReply(AbortAck), run.left)
    case _ => Outcome(-1, HANDSHAKE, ctx, cs, out, run.left)
  }

  function FlagsOf(input: seq<byte>): nat {
    if |input| < 4 then 0 else FromBE(input[..4])
  }

  /** The whole handshake, on what the client sends. */
  function Conclude(terms: Terms, cs: seq<Context>, ctx: Option<nat>, input: seq<byte>): Outcome {
    if |input| < 4 then Outcome(-1, HANDSHAKE, ctx, cs, Greeting(terms.gflags), [])
    else if FlagsOf(input) != terms.gflags then Outcome(-1, HANDSHAKE, ctx, cs, Greeting(terms.gflags), input[4..])
    else
      var o := Closed(terms, cs, ctx, terms.gflags, Haggle(input[4..], terms.max));
      o.(output := Greeting(terms.gflags) + o.output)
  }

  /** The handshake writes past the end of its buffer. */
  predicate WritesPast(terms: Terms, input: seq<byte>) {
    |input| >= 4 && FlagsOf(input) == terms.gflags && Overruns(input[4..], terms.max)
  }

  class Handshake {
    const sock: Socket
    const pool: Pool
    const buffer: array<byte>   // nbd_buffer, which is `max` long, and the byte that follows it in memory
    const max: nat              // MAX_REQUEST_SIZE
    const gflags: nat
    const readonly: bool
    const exportsize: nat
    const eflags: nat
    const stray: Option<nat>    // what comes of calling a context without a plugin is left open

    var ctx: Option<nat>
    var state: ClientState

    ghost predicate Apart()
      reads this
    {
      && buffer.Length == max + 1 < 0x1_0000_0000 && gflags < 0x1_0000_0000
      && (stray.Some? ==> stray.value < MAX_CONTEXTS)
    }

    ghost predicate Valid()
      reads this, sock, pool, pool.contexts, pool.status, pool.plugins
    {
      Apart() && sock.Valid() && sock.endCode == 0 && pool.Valid()
    }

    /** The flags that EXPORT_NAME advertises. */
    function Advertised(): nat
      reads this
    {
      if readonly then Or(eflags, NBD_FLAG_READ_ONLY) else eflags
    }

    ghost function Offer(): Terms
      reads this
    {
      Terms(max, gflags, exportsize, Advertised(), stray)
    }

    constructor (sock: Socket, pool: Pool, max: nat, gflags: nat, readonly: bool, exportsize: nat, eflags: nat,
                 stray: Option<nat>, ctx: Option<nat>)
      requires sock.Valid() && sock.endCode == 0 && pool.Valid() && max + 1 < 0x1_0000_0000 && gflags < 0x1_0000_0000
      requires stray.Some? ==> stray.value < MAX_CONTEXTS
      ensures Valid() && state == HANDSHAKE && this.ctx == ctx && this.sock == sock && this.pool == pool
      ensures fresh(buffer)
      ensures this.max == max && this.gflags == gflags && this.readonly == readonly && this.exportsize == exportsize
      ensures this.eflags == eflags && this.stray == stray
    {
      this.sock, this.pool, this.max, this.gflags, this.readonly := sock, pool, max, gflags, readonly;
      this.exportsize, this.eflags, this.stray, this.ctx, state := exportsize, eflags, stray, ctx, HANDSHAKE;
      buffer := new byte[max + 1];
    }

    /** A send that was not noticed to be short. */
    method Sent(data: seq<byte>) returns (ok: bool)
      modifies sock`output, sock`sends, sock`short, sock`last
      ensures old(sock.short) || !ok ==> sock.short
      ensures sock.Complete() ==> ok && sock.short == old(sock.short)
      ensures !sock.short ==> sock.output == old(sock.output) + data
    {
      var size := sock.Send(data);
      ok := !(0 <= size < |data|);
    }

    /** The SERVER reply for one context, in four sends. */
    method SendEntry(context: Context) returns (ok: bool)
      modifies sock`output, sock`sends, sock`short, sock`last
      ensures old(sock.short) || !ok ==> sock.short
      ensures sock.Complete() ==> ok && sock.short == old(sock.short)
      ensures !sock.short ==> sock.output == old(sock.output) + EncodeReply(ServerReply(context))
    {
      hide Socket.Complete, ReplyHeader, BE;
      var len := |context.name| + 4 + |context.description|;
      EntryIsReply(sock.output, context);
      ok := Sent(ReplyHeader(NBD_OPT_LIST, NBD_REP_SERVER, len));
      if ok {
        ok := Sent(BE(|context.name|, 4));
      }
      if ok {
        ok := Sent(context.name);
      }
      if ok {
        ok := Sent(context.description);
      }
    }

    /** The answer to LIST. */
    method SendList() returns (ok: bool)
      requires Valid()
      modifies sock`output, sock`sends, sock`short, sock`last
      ensures Valid() && (old(sock.short) || !ok ==> sock.short)
      ensures sock.Complete() ==> ok && sock.short == old(sock.short)
      ensures !sock.short ==>
                sock.output == old(sock.output) + EncodeReplies(ServerReplies(pool.Contexts()) + [ListAck])
    {
      hide Socket.Complete, EncodeReply, EncodeReplies, ServerReplies, ReplyHeader, BE;
      ghost var cs, out := pool.Contexts(), sock.output;
      NoReplies(out);
      var i := 0;
      var n := pool.Count();
      while i < n
        invariant i <= n == pool.made && (old(sock.short) ==> sock.short)
        invariant sock.Complete() ==> sock.short == old(sock.short)
        invariant !sock.short ==> sock.output == out + EncodeReplies(ServerReplies(cs[..i]))
      {
        ok := SendEntry(pool.contexts[i]);
        if !ok {
          return;
        }
        ListMore(out, cs, i);
        i := i + 1;
        n := pool.Count();
      }
      ok := Sent(ReplyHeader(NBD_OPT_LIST, NBD_REP_ACK, 0));
      assert cs[..i] == cs;
      ListEnd(out, cs);
    }

    /** The answer to an option that does not end the phase. */
    method AnswerOption(code: nat, ghost o: Opt) returns (ok: bool)
      requires Valid() && o.code == code
      modifies sock`output, sock`sends, sock`short, sock`last
      ensures Valid() && (old(sock.short) || !ok ==> sock.short)
      ensures sock.Complete() ==> ok && sock.short == old(sock.short)
      ensures !sock.short ==> sock.output == old(sock.output) + EncodeReplies(Answer(pool.Contexts(), o))
    {
      hide Socket.Complete, EncodeReplies, ServerReplies, ReplyHeader;
      UnsupportedIsReply(code);
      if code == NBD_OPT_LIST {
        ok := SendList();
      } else {
        ok := Sent(ReplyHeader(code, NBD_REP_ERR_UNSUP, 0));
      }
    }

    /** The next option, its data in the buffer. */
    method NextOption() returns (got: bool, code: nat, len: nat)
      requires Valid()
      modifies sock`input, sock`recvs, buffer
      ensures Valid()
      ensures var n := NextOpt(old(sock.input), max);
              if got then len <= max && n == Got(Opt(code, buffer[..len]), sock.input) && (len > 0 ==> buffer[len] == 0)
              else n.Stop? && n.left == sock.input
      ensures buffer[max] == if got && len == max && max > 0 then 0 else old(buffer[max])
    {
      hide FromBE;
      var new_opt := new byte[16];
      ghost var s := sock.input;
      var size := sock.RecvBlock(new_opt, 16);
      got, code, len := false, 0, 0;
      if size < 16 {
        return;
      }
      ghost var rest := sock.input;
      HeaderFields(s, new_opt[..]);
      if FromBE(new_opt[0..8]) != NBD_NEW_VERSION {
        return;
      }
      code, len := FromBE(new_opt[8..12]), FromBE(new_opt[12..16]);
      if len > max {
        return;
      }
      if len > 0 {
        size := sock.RecvBlock(buffer, len);
        if size < len {
          return;
        }
        buffer[len] := 0;
      }
      DataFields(s, rest, len);
      got := true;
    }

    /** The context that the name in the buffer leads to. */
    method FindContext(len: nat)
      requires Valid() && len <= max && (len > 0 ==> buffer[len] == 0)
      modifies this`ctx, buffer, pool.contexts
      ensures Valid() && pool.made == old(pool.made) && buffer[max] == old(buffer[max])
      ensures ctx == Found(Offer(), old(pool.Contexts()), old(ctx), old(buffer[..len]))
      ensures pool.Contexts() == PoolAfter(old(pool.Contexts()), old(buffer[..len]))
    {
      hide CStr, KeptFrom, Resolve, Updated, UriIn;
      if len == 0 {
        return;
      }
      NameInBuffer(buffer[..], len);
      ghost var s := buffer[..];
      var c := GetContext(pool, buffer);
      LastKept(s, buffer[..], |CStr(s, 0)|, max);
      match c {
        case Resolved(k) => ctx := Some(k);
        case Unresolved => ctx := None;
        case NullPlugin => ctx := stray;
      }
    }

    /** EXPORT_NAME */
    method ExportName(cflags: nat, len: nat) returns (r: int)
      requires Valid() && state == HANDSHAKE && len <= max && (len > 0 ==> buffer[len] == 0)
      modifies this`ctx, this`state, sock`output, sock`sends, sock`short, sock`last, buffer, pool.contexts
      ensures Valid() && pool.made == old(pool.made) && (old(sock.short) ==> sock.short)
      ensures (sock.Complete() ==> sock.short == old(sock.short)) && buffer[max] == old(buffer[max])
      ensures (r == 0 && state == TRANSMISSION && ctx.Some?) || (r == -1 && state == HANDSHAKE)
      ensures ctx == Found(Offer(), old(pool.Contexts()), old(ctx), old(buffer[..len]))
      ensures pool.Contexts() == PoolAfter(old(pool.Contexts()), old(buffer[..len]))
      ensures !sock.short ==>
                && r == (if ctx.Some? then 0 else -1)
                && sock.output
                   == old(sock.output) + if ctx.Some? then ExportReply(exportsize, Advertised(), cflags) else []
    {
      hide Found, PoolAfter, ExportReply, Socket.Complete;
      FindContext(len);
      if ctx.None? {
        assert sock.output == sock.output + [];
        return -1;
      }
      var ok := Sent(ExportReply(exportsize, Advertised(), cflags));
      if !ok {
        return -1;
      }
      state := TRANSMISSION;
      r := 0;
    }

    /** ABORT */
    method AbortSession() returns (r: int)
      requires Valid() && state == HANDSHAKE
      modifies this`state, sock`output, sock`sends, sock`short, sock`last
      ensures Valid() && (old(sock.short) ==> sock.short) && (sock.Complete() ==> sock.short == old(sock.short))
      ensures (r == 0 && state == ABORT) || (r == -1 && state == HANDSHAKE && sock.short)
      ensures sock.Complete() ==> r == 0
      ensures !sock.short ==> sock.output == old(sock.output) + EncodeReply(AbortAck)
    {
      AckIsReply();
      var ok := Sent(ReplyHeader(NBD_OPT_ABORT, NBD_REP_ACK, 0));
      if !ok {
        return -1;
      }
      state := ABORT;
      r := 0;
    }

    /** What a handshake is once it has returned. */
    ghost predicate Ends(o: Outcome, r: int, out: seq<byte>)
      requires pool.Valid()
      reads this, sock, pool, pool.contexts, pool.status, pool.plugins
    {
      && r == o.r && state == o.state && ctx == o.ctx && pool.Contexts() == o.pool
      && sock.output == out + o.output && sock.input == o.left
    }

    /** The haggling loop. */
    method HaggleOptions(cflags: nat) returns (r: int)
      requires Valid() && state == HANDSHAKE
      modifies this`ctx, this`state, sock`input, sock`recvs, sock`output, sock`sends, sock`short, sock`last
      modifies buffer, pool.contexts
      ensures Valid() && pool.made == old(pool.made) && (old(sock.short) ==> sock.short)
      ensures sock.Complete() ==> sock.short == old(sock.short)
      ensures (r == 0 && (state == ABORT || (state == TRANSMISSION && ctx.Some?))) || (r == -1 && state == HANDSHAKE)
      ensures !sock.short ==>
                && Ends(Closed(Offer(), old(pool.Contexts()), old(ctx), cflags, Haggle(old(sock.input), max)),
                        r, old(sock.output))
                && buffer[max] == if Overruns(old(sock.input), max) then 0 else old(buffer[max])
    {
      hide Socket.Complete, Haggle, Overruns, NextOpt, Answers, Answer, EncodeReplies, ReplyHeader, Found, PoolAfter,
           ExportReply;
      ghost var s0, out, cs, ctx0 := sock.input, sock.output, pool.Contexts(), ctx;
      ghost var done: seq<Opt>, past := [], false;
      Begin(cs, out, Haggle(s0, max));
      while true
        invariant Valid() && pool.made == old(pool.made) && pool.Contexts() == cs && state == HANDSHAKE && ctx == ctx0
        invariant (old(sock.short) ==> sock.short) && (sock.Complete() ==> sock.short == old(sock.short))
        invariant Overruns(s0, max) <==> past || Overruns(sock.input, max)
        invariant buffer[max] == if past then 0 else old(buffer[max])
        invariant Haggle(s0, max) == After(done, Haggle(sock.input, max))
        invariant !sock.short ==> sock.output == out + Answers(cs, done)
        decreases |sock.input|
      {
        ghost var s := sock.input;
        OverrunsNext(s, max);
        var got, code, len := NextOption();
        past := past || (got && len == max && max > 0);
        if !got {
          Stopped(s, max, done);
          return -1;
        }
        ghost var o := Opt(code, buffer[..len]);
        if code == NBD_OPT_EXPORT_NAME {
          Stopped(s, max, done);
          r := ExportName(cflags, len);
          return;
        }
        if code == NBD_OPT_ABORT {
          Stopped(s, max, done);
          r := AbortSession();
          return;
        }
        var ok := AnswerOption(code, o);
        if !ok {
          return -1;
        }
        GoOn(s, max, done, cs, out);
        done := done + [o];
      }
    }

    /**
     * `protocol_handshake`. Whatever the client sends and however the sends go, it returns 0 only in another state, and
     * enters transmission only with a context. With complete sends it is `Conclude`.
     */
    method ProtocolHandshake() returns (r: int)
      requires Valid() && state == HANDSHAKE
      modifies this`ctx, this`state, sock`input, sock`recvs, sock`output, sock`sends, sock`short, sock`last
      modifies buffer, pool.contexts
      ensures Valid() && pool.made == old(pool.made) && (old(sock.short) ==> sock.short)
      ensures sock.Complete() ==> sock.short == old(sock.short)
      ensures (r == 0 && (state == ABORT || (state == TRANSMISSION && ctx.Some?))) || (r == -1 && state == HANDSHAKE)
      ensures !sock.short ==>
                && Ends(Conclude(Offer(), old(pool.Contexts()), old(ctx), old(sock.input)), r, old(sock.output))
                && buffer[max] == if WritesPast(Offer(), old(sock.input)) then 0 else old(buffer[max])
    {
      hide Haggle, Closed, BE, FromBE;
      var ok := Sent(Greeting(gflags));
      if !ok {
        return -1;
      }
      var word := new byte[4];
      ghost var s := sock.input;
      var size := sock.RecvBlock(word, 4);
      if size < 4 {
        return -1;
      }
      assert word[..4] == s[..4];
      var cflags := FromBE(word[..4]);
      if cflags != gflags {
        return -1;
      }
      ghost var out := sock.output;
      r := HaggleOptions(cflags);
    }
  }

  lemma Begin(cs: seq<Context>, out: seq<byte>, run: Run)
    ensures out + Answers(cs, []) == out && After([], run) == run
  {
    assert [] + run.opts == run.opts;
  }

  lemma AckIsReply()
    ensures EncodeReply(AbortAck) == ReplyHeader(NBD_OPT_ABORT, NBD_REP_ACK, 0)
  {
    assert EncodeReply(AbortAck) == ReplyHeader(NBD_OPT_ABORT, NBD_REP_ACK, 0) + [];
  }

  /** An option that ends the phase, or the end of the stream. */
  lemma Stopped(s: seq<byte>, max: nat, done: seq<Opt>)
    ensures match NextOpt(s, max) {
              case Stop(end, left) => After(done, Haggle(s, max)) == Run(done, end, left)
              case Got(o, rest) =>
                && (o.code == NBD_OPT_EXPORT_NAME ==>
                      After(done, Haggle(s, max)) == Run(done, End.ExportName(o.data), rest))
                && (o.code == NBD_OPT_ABORT ==> After(done, Haggle(s, max)) == Run(done, End.Abort(o.data), rest))
            }
  {
    assert done + [] == done;
  }

  /** An option that was answered. */
  lemma GoOn(s: seq<byte>, max: nat, done: seq<Opt>, cs: seq<Context>, out: seq<byte>)
    requires NextOpt(s, max).Got? && NextOpt(s, max).opt.code != NBD_OPT_EXPORT_NAME
    requires NextOpt(s, max).opt.code != NBD_OPT_ABORT
    ensures var n := NextOpt(s, max);
            && After(done, Haggle(s, max)) == After(done + [n.opt], Haggle(n.rest, max))
            && out + Answers(cs, done) + EncodeReplies(Answer(cs, n.opt)) == out + Answers(cs, done + [n.opt])
  {
    hide NextOpt, EncodeReplies, ReplyHeader;
    var n := NextOpt(s, max);
    var run := Haggle(n.rest, max);
    assert Haggle(s, max) == After([n.opt], run);
    assert done + ([n.opt] + run.opts) == (done + [n.opt]) + run.opts;
    AnswersAppend(cs, done, n.opt);
  }

  lemma UnsupportedIsReply(code: nat)
    ensures EncodeReplies([Reply(code, NBD_REP_ERR_UNSUP, [])]) == ReplyHeader(code, NBD_REP_ERR_UNSUP, 0)
  {
    hide ReplyHeader;
    OneReply(Reply(code, NBD_REP_ERR_UNSUP, []));
    assert EncodeReply(Reply(code, NBD_REP_ERR_UNSUP, [])) == ReplyHeader(code, NBD_REP_ERR_UNSUP, 0) + [];
  }

  lemma {:induction false} AnswersAppend(cs: seq<Context>, done: seq<Opt>, o: Opt)
    ensures Answers(cs, done + [o]) == Answers(cs, done) + EncodeReplies(Answer(cs, o))
    decreases |done|
  {
    hide Answer, EncodeReplies;
    if done == [] {
      assert done + [o] == [o] && Answers(cs, [o]) == EncodeReplies(Answer(cs, o)) + [];
    } else {
      assert (done + [o])[0] == done[0] && (done + [o])[1..] == done[1..] + [o];
      AnswersAppend(cs, done[1..], o);
    }
  }

  lemma HeaderFields(s: seq<byte>, h: seq<byte>)
    requires |s| >= 16 && h == s[..16]
    ensures h[0..8] == s[0..8] && h[8..12] == s[8..12] && h[12..16] == s[12..16]
  {
  }

  lemma DataFields(s: seq<byte>, rest: seq<byte>, len: nat)
    requires |s| >= 16 && rest == s[16..] && len <= |rest|
    ensures rest[..len] == s[16..16 + len] && rest[len..] == s[16 + len..]
  {
  }

  /** The string in the buffer is the URI in the data. */
  lemma NameInBuffer(s: seq<byte>, len: nat)
    requires len < |s| && s[len] == 0
    ensures CStr(s, 0) == UriIn(s[..len]) && Terminated(s, 0) && |CStr(s, 0)| <= len
  {
    var d := s[..len] + [0];
    assert d == s[..len + 1];
    CStrEnd(d, 0);
    CStrStops(d, 0);
    CStrLocal(d, s, 0, len + 1);
  }

  lemma LastKept(s: seq<byte>, r: seq<byte>, from: nat, k: nat)
    requires KeptFrom(s, r, from) && from <= k < |s|
    ensures r[k] == s[k]
  {
    assert r[from..][k - from] == s[from..][k - from];
  }

  lemma {:induction false} CStrStops(d: seq<byte>, at: nat)
    requires at < |d| && d[|d| - 1] == 0
    ensures at + |CStr(d, at)| < |d|
    decreases |d| - at
  {
    if d[at] != 0 {
      CStrStops(d, at + 1);
    }
  }

  lemma {:induction false} RepliesAppend(a: seq<Reply>, b: seq<Reply>)
    ensures EncodeReplies(a + b) == EncodeReplies(a) + EncodeReplies(b)
    decreases |a|
  {
    hide EncodeReply;
    if a == [] {
      assert a + b == b;
    } else {
      assert (a + b)[0] == a[0] && (a + b)[1..] == a[1..] + b;
      RepliesAppend(a[1..], b);
    }
  }

  lemma OneReply(r: Reply)
    ensures EncodeReplies([r]) == EncodeReply(r)
  {
    assert EncodeReplies([r]) == EncodeReply(r) + [];
  }

  lemma NoReplies(out: seq<byte>)
    ensures out + EncodeReplies(ServerReplies([])) == out
  {
  }

  lemma EntryIsReply(out: seq<byte>, c: Context)
    ensures out + ReplyHeader(NBD_OPT_LIST, NBD_REP_SERVER, |c.name| + 4 + |c.description|)
            + BE(|c.name|, 4) + c.name + c.description
         == out + EncodeReply(ServerReply(c))
  {
    hide ReplyHeader, BE;
    assert |Item(c)| == |c.name| + 4 + |c.description|;
    var h := ReplyHeader(NBD_OPT_LIST, NBD_REP_SERVER, |Item(c)|);
    assert out + h + BE(|c.name|, 4) + c.name + c.description == out + (h + (BE(|c.name|, 4) + c.name + c.description));
  }

  lemma ListMore(out: seq<byte>, cs: seq<Context>, i: nat)
    requires i < |cs|
    ensures out + EncodeReplies(ServerReplies(cs[..i])) + EncodeReply(ServerReply(cs[i]))
         == out + EncodeReplies(ServerReplies(cs[..i + 1]))
  {
    hide EncodeReply, EncodeReplies;
    var c := cs[i];
    assert cs[..i + 1][..i] == cs[..i];
    assert ServerReplies(cs[..i + 1]) == ServerReplies(cs[..i]) + [ServerReply(c)];
    RepliesAppend(ServerReplies(cs[..i]), [ServerReply(c)]);
    OneReply(ServerReply(c));
  }

  lemma ListEnd(out: seq<byte>, cs: seq<Context>)
    ensures out + EncodeReplies(ServerReplies(cs)) + ReplyHeader(NBD_OPT_LIST, NBD_REP_ACK, 0)
         == out + EncodeReplies(ServerReplies(cs) + [ListAck])
  {
    hide EncodeReplies, ReplyHeader, BE;
    RepliesAppend(ServerReplies(cs), [ListAck]);
    OneReply(ListAck);
    assert EncodeReply(ListAck) == ReplyHeader(NBD_OPT_LIST, NBD_REP_ACK, 0) + [];
  }

  // ---------- The client's view of the messages ----------

  lemma CutGreeting<T>(a: seq<T>, b: seq<T>, c: seq<T>, rest: seq<T>)
    requires |a| == 8 && |b| == 8 && |c| == 2
    ensures var s := a + b + c + rest;
            s[0..8] == a && s[8..16] == b && s[16..18] == c && s[18..] == rest
  {
  }

  /** The greeting as a client reads it: both magics, and the low 16 bits of the flags. */
  lemma GreetingReads(gflags: nat, rest: seq<byte>)
    requires gflags < 0x1_0000
    ensures var s := Greeting(gflags) + rest;
            && FromBE(s[0..8]) == NBD_MAGIC && FromBE(s[8..16]) == NBD_NEW_VERSION
            && FromBE(s[16..18]) == gflags && s[18..] == rest
  {
    hide BE, FromBE, Pow256;
    Widths();
    FromBEOfBE(NBD_MAGIC, 8);
    FromBEOfBE(NBD_NEW_VERSION, 8);
    FromBEOfBE(gflags, 2);
    CutGreeting(BE(NBD_MAGIC, 8), BE(NBD_NEW_VERSION, 8), BE(gflags, 2), rest);
  }

  lemma CutExport<T>(a: seq<T>, b: seq<T>, c: seq<T>, rest: seq<T>)
    requires |a| == 8 && |b| == 2
    ensures var s := a + b + c + rest;
            s[0..8] == a && s[8..10] == b && s[10..10 + |c|] == c && s[10 + |c|..] == rest
  {
  }

  /** The reply to EXPORT_NAME as a client reads it: size, flags, and 124 zeros unless it asked for none. */
  lemma ExportReplyReads(size: nat, eflags: nat, cflags: nat, rest: seq<byte>)
    requires size < 0x1_0000_0000_0000_0000 && eflags < 0x1_0000
    ensures var s, n := ExportReply(size, eflags, cflags) + rest, if Has(cflags, NBD_FLAG_NO_ZEROES) then 10 else 134;
            && |s| >= n && FromBE(s[0..8]) == size && FromBE(s[8..10]) == eflags && s[n..] == rest
            && forall k :: 10 <= k < n ==> s[k] == 0
  {
    hide BE, FromBE, Pow256, Has, ZeroBytes;
    Widths();
    FromBEOfBE(size, 8);
    FromBEOfBE(eflags, 2);
    var zeroes := if Has(cflags, NBD_FLAG_NO_ZEROES) then [] else ZeroBytes(124);
    CutExport(BE(size, 8), BE(eflags, 2), zeroes, rest);
    var s := ExportReply(size, eflags, cflags) + rest;
    assert forall k :: 10 <= k < 10 + |zeroes| ==> s[k] == zeroes[k - 10];
  }

  // ---------- Whole handshakes ----------

  /** The client's side of a handshake that names an export. */
  function Hello(gflags: nat, os: seq<Opt>, uri: seq<byte>): seq<byte> {
    BE(gflags, 4) + EncodeOpts(os) + EncodeOpt(Opt(NBD_OPT_EXPORT_NAME, uri))
  }

  /**
   * A client that repeats the server's flags, asks whatever it likes and then names a context gets the greeting, one
   * answer for each question and the reply to the name, and is in transmission with that context; what it sent after
   * that is left for the transmission phase.
   */
  lemma NamedExport(terms: Terms, cs: seq<Context>, ctx: Option<nat>, os: seq<Opt>, uri: seq<byte>, rest: seq<byte>)
    requires terms.gflags < 0x1_0000_0000 && terms.max < 0x1_0000_0000 && AllPlain(os, terms.max)
    requires 0 < |uri| <= terms.max && NoZero(uri) && Resolve(cs, uri).Resolved?
    ensures Conclude(terms, cs, ctx, Hello(terms.gflags, os, uri) + rest) ==
              Outcome(0, TRANSMISSION, Some(Resolve(cs, uri).k), Updated(cs, uri),
                      Greeting(terms.gflags)
                      + (Answers(cs, os) + ExportReply(terms.exportsize, terms.eflags, terms.gflags)), rest)
  {
    hide BE, FromBE, Haggle, EncodeOpt, Answers, Pow256;
    var input := Hello(terms.gflags, os, uri) + rest;
    var opts := EncodeOpts(os) + Last(End.ExportName(uri)) + rest;
    assert input == BE(terms.gflags, 4) + opts;
    assert input[..4] == BE(terms.gflags, 4) && input[4..] == opts;
    Widths();
    FromBEOfBE(terms.gflags, 4);
    HaggleScript(os, End.ExportName(uri), rest, terms.max);
    UriIsData(uri);
  }

  /**
   * What a client hears that asked `os`: the greeting, the pool at each LIST and a refusal otherwise, and then
   * `tail`.
   */
  ghost predicate Hears(terms: Terms, cs: seq<Context>, os: seq<Opt>, output: seq<byte>, tail: seq<byte>) {
    |output| >= 18 && output[..18] == Greeting(terms.gflags) && Tells(cs, os, output[18..], tail)
  }

  /** The handshake after the options that are only answered. */
  lemma Concluded(terms: Terms, cs: seq<Context>, ctx: Option<nat>, os: seq<Opt>, s: seq<byte>)
    requires terms.gflags < 0x1_0000_0000 && AllPlain(os, terms.max)
    ensures var o := Closed(terms, cs, ctx, terms.gflags, After(os, Haggle(s, terms.max)));
            Conclude(terms, cs, ctx, BE(terms.gflags, 4) + EncodeOpts(os) + s)
            == o.(output := Greeting(terms.gflags) + o.output)
  {
    hide BE, FromBE, Haggle, EncodeOpts, Closed, Pow256, After, AllPlain;
    var input := BE(terms.gflags, 4) + EncodeOpts(os) + s;
    assert input[..4] == BE(terms.gflags, 4) && input[4..] == EncodeOpts(os) + s;
    Widths();
    FromBEOfBE(terms.gflags, 4);
    HaggleFront(os, s, terms.max);
  }

  lemma HearsAnswers(terms: Terms, cs: seq<Context>, os: seq<Opt>, tail: seq<byte>)
    requires AllFit(cs) && AllPlain(os, terms.max)
    ensures Hears(terms, cs, os, Greeting(terms.gflags) + (Answers(cs, os) + tail), tail)
  {
    hide Greeting, Answers, Tells, AllPlain;
    var output := Greeting(terms.gflags) + (Answers(cs, os) + tail);
    assert output[..18] == Greeting(terms.gflags) && output[18..] == Answers(cs, os) + tail;
    TalkDecodes(cs, os, terms.max, tail);
  }

  /** A client that ends with ABORT hears it acknowledged, and nothing else is changed. */
  lemma AbortConcludes(terms: Terms, cs: seq<Context>, ctx: Option<nat>, os: seq<Opt>, data: seq<byte>, rest: seq<byte>)
    requires terms.gflags < 0x1_0000_0000 && terms.max < 0x1_0000_0000 && AllPlain(os, terms.max) && AllFit(cs)
    requires |data| <= terms.max
    ensures var o := Conclude(terms, cs, ctx,
                              BE(terms.gflags, 4) + EncodeOpts(os) + (EncodeOpt(Opt(NBD_OPT_ABORT, data)) + rest));
            && o.r == 0 && o.state == ABORT && o.ctx == ctx && o.pool == cs && o.left == rest
            && exists tail :: Hears(terms, cs, os, o.output, tail)
                              && DecodeReply(tail) == Some((Reply(NBD_OPT_ABORT, NBD_REP_ACK, []), []))
  {
    hide BE, Conclude, Haggle, EncodeOpt, EncodeOpts, AllPlain, Hears, Answers, DecodeReply, EncodeReply, Greeting;
    Concluded(terms, cs, ctx, os, EncodeOpt(Opt(NBD_OPT_ABORT, data)) + rest);
    LastHaggled(End.Abort(data), rest, terms.max);
    assert os + [] == os;
    var tail := EncodeReply(AbortAck);
    HearsAnswers(terms, cs, os, tail);
    ReplyDecodes(AbortAck, []);
    assert tail + [] == tail;
  }

  /**
   * A client that ends with a name: an empty one leads to the context of the session, and any other to the one its URI
   * resolves to. Where it leads nowhere nothing is sent for it and the handshake has failed.
   */
  lemma NameConcludes(terms: Terms, cs: seq<Context>, ctx: Option<nat>, os: seq<Opt>, uri: seq<byte>, rest: seq<byte>)
    requires terms.gflags < 0x1_0000_0000 && terms.max < 0x1_0000_0000 && AllPlain(os, terms.max) && AllFit(cs)
    requires |uri| <= terms.max && NoZero(uri)
    ensures var o := Conclude(terms, cs, ctx, BE(terms.gflags, 4) + EncodeOpts(os)
                                              + (EncodeOpt(Opt(NBD_OPT_EXPORT_NAME, uri)) + rest));
            && o.left == rest
            && (uri == [] ==> o.ctx == ctx && o.pool == cs)
            && (uri != [] ==>
                  match Resolve(cs, uri)
                  case Resolved(k) => o.ctx == Some(k) && o.pool == Updated(cs, uri)
                  case Unresolved => o.ctx.None? && o.pool == cs
                  case NullPlugin => o.ctx == terms.stray && o.pool == cs)
            && (o.ctx.Some? ==> o.r == 0 && o.state == TRANSMISSION)
            && (o.ctx.Some? ==>
                  Hears(terms, cs, os, o.output, ExportReply(terms.exportsize, terms.eflags, terms.gflags)))
            && (o.ctx.None? ==> o.r == -1 && o.state == HANDSHAKE && Hears(terms, cs, os, o.output, []))
  {
    hide BE, Conclude, Haggle, EncodeOpt, EncodeOpts, AllPlain, Hears, Answers, ExportReply, Greeting, Resolve, UriIn;
    Concluded(terms, cs, ctx, os, EncodeOpt(Opt(NBD_OPT_EXPORT_NAME, uri)) + rest);
    LastHaggled(End.ExportName(uri), rest, terms.max);
    assert os + [] == os;
    UriIsData(uri);
    HearsAnswers(terms, cs, os, ExportReply(terms.exportsize, terms.eflags, terms.gflags));
    HearsAnswers(terms, cs, os, []);
    assert Answers(cs, os) + [] == Answers(cs, os);
  }

  lemma UriIsData(uri: seq<byte>)
    requires NoZero(uri)
    ensures UriIn(uri) == uri
  {
    assert [] + uri + [0] + [] == uri + [0];
    CStrAt([], uri, []);
  }

  /**
   * A client that ends with what is no option: all of it was taken if the stream ran out, and otherwise just a header
   * of the wrong version or with too much data to come. The handshake has failed after the answers, and changed
   * nothing.
   */
  lemma StopConcludes(terms: Terms, cs: seq<Context>, ctx: Option<nat>, os: seq<Opt>, s: seq<byte>)
    requires terms.gflags < 0x1_0000_0000 && terms.max < 0x1_0000_0000 && AllPlain(os, terms.max) && AllFit(cs)
    requires !StartsWithOpt(s, terms.max)
    ensures var o := Conclude(terms, cs, ctx, BE(terms.gflags, 4) + EncodeOpts(os) + s);
            && o.r == -1 && o.state == HANDSHAKE && o.ctx == ctx && o.pool == cs && Hears(terms, cs, os, o.output, [])
            && o.left == if |s| >= 16 && (FromBE(s[0..8]) != NBD_NEW_VERSION || FromBE(s[12..16]) > terms.max)
                         then s[16..] else []
  {
    hide BE, FromBE, Conclude, EncodeOpt, EncodeOpts, AllPlain, Hears, Answers, Greeting, NextOpt, StartsWithOpt;
    Concluded(terms, cs, ctx, os, s);
    TakenIff(s, terms.max);
    StopsAt(s, terms.max);
    assert os + [] == os;
    HearsAnswers(terms, cs, os, []);
    assert Answers(cs, os) + [] == Answers(cs, os);
  }

  /** A client that does not repeat the flags hears only the greeting. */
  lemma OtherFlagsConclude(terms: Terms, cs: seq<Context>, ctx: Option<nat>, flags: nat, rest: seq<byte>)
    requires flags < 0x1_0000_0000 && flags != terms.gflags
    ensures Conclude(terms, cs, ctx, BE(flags, 4) + rest)
            == Outcome(-1, HANDSHAKE, ctx, cs, Greeting(terms.gflags), rest)
  {
    hide BE, FromBE, Pow256, Closed, Greeting;
    var input := BE(flags, 4) + rest;
    assert input[..4] == BE(flags, 4) && input[4..] == rest;
    Widths();
    FromBEOfBE(flags, 4);
  }

  /** A client that repeats the flags, asks `os`, and ends with an abort or with a name that leads somewhere. */
  ghost predicate Says(terms: Terms, cs: seq<Context>, ctx: Option<nat>, input: seq<byte>,
                       os: seq<Opt>, end: End, rest: seq<byte>) {
    && input == BE(terms.gflags, 4) + EncodeOpts(os) + Last(end) + rest
    && AllPlain(os, terms.max) && Final(end) && |end.data| <= terms.max
    && (end.ExportName? ==> Found(terms, cs, ctx, end.data).Some?)
  }

  ghost predicate SaysSome(terms: Terms, cs: seq<Context>, ctx: Option<nat>, input: seq<byte>) {
    exists os, end, rest :: Says(terms, cs, ctx, input, os, end, rest)
  }

  /** A handshake succeeds exactly for such clients. */
  lemma SucceedsIff(terms: Terms, cs: seq<Context>, ctx: Option<nat>, input: seq<byte>)
    requires terms.gflags < 0x1_0000_0000 && terms.max < 0x1_0000_0000
    ensures Conclude(terms, cs, ctx, input).r == 0 <==> SaysSome(terms, cs, ctx, input)
  {
    hide Conclude, Says;
    if Conclude(terms, cs, ctx, input).r == 0 {
      SaidWhenDone(terms, cs, ctx, input);
    }
    if os, end, rest :| Says(terms, cs, ctx, input, os, end, rest) {
      DoneWhenSaid(terms, cs, ctx, input, os, end, rest);
    }
  }

  lemma SaidWhenDone(terms: Terms, cs: seq<Context>, ctx: Option<nat>, input: seq<byte>)
    requires terms.gflags < 0x1_0000_0000 && terms.max < 0x1_0000_0000 && Conclude(terms, cs, ctx, input).r == 0
    ensures var run := Haggle(input[4..], terms.max);
            Says(terms, cs, ctx, input, run.opts, run.end, run.left)
  {
    hide BE, FromBE, Haggle, EncodeOpts, Last, Answers, AllPlain, Found;
    HaggleConsumes(input[4..], terms.max);
    BEOfFromBE(input[..4]);
    var run := Haggle(input[4..], terms.max);
    Prepend(input, BE(terms.gflags, 4), EncodeOpts(run.opts), Last(run.end), run.left);
  }

  lemma Prepend(s: seq<byte>, a: seq<byte>, b: seq<byte>, c: seq<byte>, d: seq<byte>)
    requires |s| >= 4 && s[..4] == a && s[4..] == b + c + d
    ensures s == a + b + c + d
  {
    assert s == s[..4] + s[4..];
  }

  lemma DoneWhenSaid(terms: Terms, cs: seq<Context>, ctx: Option<nat>, input: seq<byte>,
                     os: seq<Opt>, end: End, rest: seq<byte>)
    requires terms.gflags < 0x1_0000_0000 && terms.max < 0x1_0000_0000 && Says(terms, cs, ctx, input, os, end, rest)
    ensures Conclude(terms, cs, ctx, input).r == 0
  {
    hide BE, FromBE, Haggle, EncodeOpts, Last, Answers, AllPlain, Found, Pow256;
    Unprepend(input, BE(terms.gflags, 4), EncodeOpts(os), Last(end), rest);
    Widths();
    FromBEOfBE(terms.gflags, 4);
    HaggleScript(os, end, rest, terms.max);
  }

  lemma Unprepend(s: seq<byte>, a: seq<byte>, b: seq<byte>, c: seq<byte>, d: seq<byte>)
    requires s == a + b + c + d && |a| == 4
    ensures |s| >= 4 && s[..4] == a && s[4..] == b + c + d
  {
    assert s == a + (b + c + d);
  }

  /** The flags are compared as 32 bits but greeted as 16: a client can repeat them exactly if they fit. */
  lemma FlagsRepeatable(terms: Terms)
    requires terms.gflags < 0x1_0000_0000
    ensures FromBE(Greeting(terms.gflags)[16..18]) == terms.gflags <==> terms.gflags < 0x1_0000
  {
    assert Greeting(terms.gflags)[16..18] == BE(terms.gflags, 2);
    Widths();
    if terms.gflags < 0x1_0000 {
      FromBEOfBE(terms.gflags, 2);
    } else {
      FromBEBound(BE(terms.gflags, 2));
    }
  }

  /** The read-only flag is added to flags that lack it. */
  lemma OrSetsReadOnly(flags: nat)
    ensures Has(Or(flags, NBD_FLAG_READ_ONLY), NBD_FLAG_READ_ONLY)
    ensures Or(flags, NBD_FLAG_READ_ONLY) == flags + if Has(flags, NBD_FLAG_READ_ONLY) then 0 else NBD_FLAG_READ_ONLY
  {
    assert Or(flags, 2) / 2 == Or(flags / 2, 1) && And(flags, 2) == 2 * And(flags / 2, 1);
    assert Or(flags / 2, 1) == flags / 2 + (if And(flags / 2, 1) == 0 then 1 else 0);
  }

  /** EXPORT_NAME advertises the export's own flags, and read-only besides on a server configured so. */
  lemma AdvertisedFlags(hs: Handshake)
    ensures hs.Advertised() == hs.eflags + if hs.readonly && !Has(hs.eflags, NBD_FLAG_READ_ONLY) then NBD_FLAG_READ_ONLY
                                           else 0
  {
    OrSetsReadOnly(hs.eflags);
  }

  /**
   * A server configured read-only says so to its clients, but writes are refused by the flags of the export alone: the
   * two agree exactly if the server is not configured so, or the plugin cannot write anyway.
   */
  lemma AdvertisedIsEnforcedIff(hs: Handshake)
    ensures (Has(hs.Advertised(), NBD_FLAG_READ_ONLY) <==> Has(hs.eflags, NBD_FLAG_READ_ONLY)) <==>
            !hs.readonly || Has(hs.eflags, NBD_FLAG_READ_ONLY)
  {
    OrSetsReadOnly(hs.eflags);
  }
}
