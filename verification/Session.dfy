/** One client: the loop over the phases of its session. */
module Session {
  import opened Bytes
  import opened Text
  import opened Wire
  import opened Transport
  import opened Contexts
  import opened Options
  import opened Calls
  import opened Exports
  import opened Phase
  import opened Transmission
  import opened Negotiation
  import Haggling
  import Runs
  import Uri
  import Masks

  function Rank(s: ClientState): nat {
    match s case HANDSHAKE => 0 case TRANSMISSION => 1 case ABORT => 2
  }

  /** Phases are entered in order, and none twice. */
  ghost predicate Forward(trace: seq<ClientState>) {
    forall j, k :: 0 <= j < k < |trace| ==> Rank(trace[j]) < Rank(trace[k])
  }

  /** What happened in the transmission phase, if the session came to it. */
  datatype Transcript = Transcript(run: seq<Exchange>, end: End, left: seq<byte>)

  /** The transmission phase accounts for these bytes, and for the change of the disk. */
  ghost predicate Accounts(conf: Conf, t: Transcript, d0: seq<byte>, d1: seq<byte>, input: seq<byte>, output: seq<byte>)
    requires conf.Valid()
  {
    && RunOk(conf, t.run, d0, d1) && HandlesFit(t.run)
    && output == Render(t.run) && input == Consumed(t.run) + t.left && Ended(t.run, t.end, t.left)
  }

  /** What a session amounted to: the phases it was in, what the handshake said, and what followed. */
  datatype Record = Record(trace: seq<ClientState>, said: seq<byte>, left: seq<byte>, phase: Option<Transcript>)

  function Heard(said: seq<byte>, phase: Option<Transcript>): seq<byte> {
    said + if phase.Some? then Render(phase.value.run) else []
  }

  /** The plugin calls of a session. */
  function CallsIn(phase: Option<Transcript>): seq<Call> {
    if phase.Some? then CallsOf(phase.value.run) else []
  }

  /** The calls were made, and if the plugin always serves what it can, none of those failed that it could serve. */
  ghost predicate Called(dev: Device, faultless: bool, before: seq<Call>, phase: Option<Transcript>, now: seq<Call>) {
    now == before + CallsIn(phase) && (faultless && phase.Some? ==> SoundRun(dev, phase.value.run))
  }

  lemma CalledNothing(dev: Device, faultless: bool, calls: seq<Call>)
    ensures Called(dev, faultless, calls, None, calls)
  {
    assert calls + [] == calls;
  }

  lemma Heard3(out: seq<byte>, a: seq<byte>, b: seq<byte>, c: seq<byte>)
    ensures out + (a + b + c) == out + a + b + c
  {
  }

  /** A run over its streams is accounted for. */
  lemma RanAccounts(conf: Conf, t: Transcript, d0: seq<byte>, in0: seq<byte>, out0: seq<byte>, d1: seq<byte>,
                    output: seq<byte>)
    requires conf.Valid() && Ran(conf, d0, in0, out0, t.run, d1, output, t.left) && Ended(t.run, t.end, t.left)
    ensures Accounts(conf, t, d0, d1, in0, Render(t.run)) && output == out0 + Render(t.run)
  {
    hide RunOk, Render, Consumed, Ended;
  }

  /** What is heard before the transmission phase, and with it. */
  lemma HeardMore(out: seq<byte>, said: seq<byte>, t: Transcript)
    ensures Heard(said, None) == said
    ensures out + said + Render(t.run) == out + Heard(said, Some(t))
  {
    hide Render;
    assert said + [] == said;
  }

  /** The transmission phase comes at most once, is accounted for, and without it the disk is untouched. */
  ghost predicate Settled(conf: Conf, rec: Record, d0: seq<byte>, d1: seq<byte>, input: seq<byte>) {
    match rec.phase
    case None => d1 == d0 && input == rec.left
    case Some(t) => conf.Valid() && Accounts(conf, t, d0, d1, rec.left, Render(t.run))
  }

  /** The same, while the transmission phase may still be to come. */
  ghost predicate Opened(rec: Record, preinit: bool, o: Outcome, input: seq<byte>, state: ClientState) {
    if preinit then rec.said == [] && rec.left == input && rec.phase.Some?
    else rec.said == o.output && rec.left == o.left && o.state == if rec.phase.Some? then TRANSMISSION else state
  }

  /** The record against the handshake: without one, all of the input is left for the transmission phase. */
  ghost predicate Matches(rec: Record, preinit: bool, o: Outcome, input: seq<byte>) {
    if preinit then rec.said == [] && rec.left == input && rec.phase.Some?
    else rec.said == o.output && rec.left == o.left && (rec.phase.Some? <==> o.state == TRANSMISSION)
  }

  class Client {
    const sock: Socket
    const pool: Pool
    const exp: Export
    const buflen: nat
    const retries: nat
    const gflags: nat
    const readonly: bool
    const preinit: bool
    const stray: Option<nat>

    ghost function Shared(): set<object> {
      {pool, pool.contexts, pool.status, pool.plugins}
    }

    ghost predicate Valid()
      reads this, sock, pool, pool.contexts, pool.status, pool.plugins, exp, exp.Repr()
    {
      && sock.Valid() && sock.endCode == 0 && pool.Valid() && exp.Valid() && exp.blocksize <= buflen
      && buflen + 1 < 0x1_0000_0000 && gflags < 0x1_0000_0000 && (stray.Some? ==> stray.value < MAX_CONTEXTS)
      && sock !in exp.Repr() && exp !in exp.Repr() && Shared() !! exp.Repr()
    }

    constructor (sock: Socket, pool: Pool, exp: Export, buflen: nat, retries: nat, gflags: nat, readonly: bool,
                 preinit: bool, stray: Option<nat>)
      requires sock.Valid() && sock.endCode == 0 && pool.Valid() && exp.Valid() && exp.blocksize <= buflen
      requires buflen + 1 < 0x1_0000_0000 && gflags < 0x1_0000_0000 && (stray.Some? ==> stray.value < MAX_CONTEXTS)
      requires sock !in exp.Repr() && exp !in exp.Repr()
      requires {pool, pool.contexts, pool.status, pool.plugins} !! exp.Repr()
      ensures Valid()
    {
      this.sock, this.pool, this.exp, this.buflen, this.retries := sock, pool, exp, buflen, retries;
      this.gflags, this.readonly, this.preinit, this.stray := gflags, readonly, preinit, stray;
    }

    ghost function Offer(): Terms
      reads exp
    {
      Terms(buflen, gflags, exp.exportsize,
            if readonly then Masks.Or(exp.eflags, NBD_FLAG_READ_ONLY) else exp.eflags, stray)
    }

    ghost function Settings(): Conf
      reads exp
    {
      Conf(exp.blocksize, exp.exportsize, Masks.Has(exp.eflags, NBD_FLAG_READ_ONLY), buflen, retries,
           exp.Grain(), exp.hasFlush, exp.plugin.File?)
    }

    /** The handshake of this client, when every send is complete. */
    ghost function Greeted(cs: seq<Context>, ctx: Option<nat>, input: seq<byte>): Outcome
      reads exp
    {
      Conclude(Offer(), cs, ctx, input)
    }

    method Handshake(ctx: Option<nat>) returns (r: int, state: ClientState, c: Option<nat>)
      requires Valid()
      modifies sock`input, sock`recvs, sock`output, sock`sends, sock`short, sock`last, pool.contexts
      ensures Valid() && pool.made == old(pool.made) && (old(sock.short) ==> sock.short)
      ensures exp.Disk() == old(exp.Disk())
      ensures Settings() == old(Settings()) && Offer() == old(Offer())
      ensures (sock.Complete() ==> sock.short == old(sock.short))
      ensures (r == 0 && (state == ABORT || (state == TRANSMISSION && c.Some?))) || (r == -1 && state == HANDSHAKE)
      ensures !sock.short ==>
                var o := Greeted(old(pool.Contexts()), ctx, old(sock.input));
                && r == o.r && state == o.state && c == o.ctx && pool.Contexts() == o.pool
                && sock.output == old(sock.output) + o.output && sock.input == o.left
    {
      hide Conclude, Export.PluginValid, Export.Disk;
      var hs := new Negotiation.Handshake(sock, pool, buflen, gflags, readonly, exp.exportsize, exp.eflags, stray, ctx);
      r := hs.ProtocolHandshake();
      state, c := hs.state, hs.ctx;
    }

    method Transmit() returns (r: int, ghost t: Transcript)
      requires Valid()
      modifies sock`input, sock`recvs, sock`output, sock`sends, sock`short, sock`last, exp`strays, exp`calls, exp.Repr()
      ensures Valid() && Settings().Valid() && Settings() == old(Settings()) && Offer() == old(Offer())
      ensures pool.made == old(pool.made) && pool.Contexts() == old(pool.Contexts()) && (old(sock.short) ==> sock.short)
      ensures (r == 0 || r == -1) && (r == 0 <==> t.end.Disconnect?)
      ensures (sock.Complete() ==> sock.short == old(sock.short))
      ensures Called(Settings().Plugin(), exp.Faultless(), old(exp.calls), Some(t), exp.calls)
      ensures !sock.short ==>
                && Accounts(Settings(), t, old(exp.Disk()), exp.Disk(), old(sock.input), Render(t.run))
                && sock.output == old(sock.output) + Render(t.run)
    {
      hide Ran, Accounts, Render, Ended, CallsOf, SoundRun, Export.Valid, Export.PluginValid, Export.Disk,
           Export.Faultless, Socket.Complete;
      ghost var d0, in0, out0 := exp.Disk(), sock.input, sock.output;
      var server := new Server(sock, exp, buflen, retries);
      ghost var h, end, left;
      r, h, end, left := server.TransmissionPhase();
      t := Transcript(h, end, left);
      if !sock.short {
        RanAccounts(Settings(), t, d0, in0, out0, exp.Disk(), sock.output);
      }
    }

    /** The state of the session loop: the phase it is in comes after all those it was in. */
    static ghost predicate Stage(trace: seq<ClientState>, phase: Option<Transcript>, state: ClientState, r: int) {
      && Forward(trace) && (r == 0 ==> forall k :: 0 <= k < |trace| ==> Rank(trace[k]) < Rank(state))
      && (phase.Some? <==> TRANSMISSION in trace)
      && (r == 0 && state == HANDSHAKE ==> trace == []) && (state == TRANSMISSION ==> (r == 0 <==> phase.None?))
    }

    static lemma StageStart(state: ClientState)
      requires state != ABORT
      ensures Stage([], None, state, 0)
    {
    }

    static lemma StageMeans(trace: seq<ClientState>, phase: Option<Transcript>, state: ClientState, r: int)
      requires Stage(trace, phase, state, r)
      ensures Forward(trace) && (r == 0 && state == HANDSHAKE ==> trace == [])
      ensures state == TRANSMISSION ==> (r == 0 <==> phase.None?)
    {
    }

    /** One more phase. */
    static lemma StageMore(trace: seq<ClientState>, was: Option<Transcript>, state: ClientState, next: ClientState,
                           r: int, phase: Option<Transcript>)
      requires Stage(trace, was, state, 0) && (r == 0 ==> Rank(state) < Rank(next))
      requires r != 0 ==> next == state
      requires if state == TRANSMISSION then phase.Some? else phase == was
      ensures Stage(trace + [state], phase, next, r)
    {
    }

    /** The loop over the phases, from the state the session starts in. */
    method Phases(ctx0: Option<nat>, first: ClientState) returns (r: int, ghost rec: Record)
      requires Valid() && first == if preinit then TRANSMISSION else HANDSHAKE
      modifies sock`input, sock`recvs, sock`output, sock`sends, sock`short, sock`last, pool.contexts
      modifies exp`strays, exp`calls, exp.Repr()
      ensures Valid() && r == -1 && Forward(rec.trace) && Settings() == old(Settings()) && Offer() == old(Offer())
      ensures rec.trace != [] && rec.trace[0] == first && pool.made == old(pool.made)
      ensures (old(sock.short) ==> sock.short)
      ensures sock.Complete() ==> sock.short == old(sock.short)
      ensures Called(Settings().Plugin(), exp.Faultless(), old(exp.calls), rec.phase, exp.calls)
      ensures !sock.short ==>
                && sock.output == old(sock.output) + Heard(rec.said, rec.phase)
                && Settled(Settings(), rec, old(exp.Disk()), exp.Disk(), sock.input)
                && Matches(rec, preinit, Greeted(old(pool.Contexts()), ctx0, old(sock.input)), old(sock.input))
    {
      hide Socket.Complete, Called, Conclude, Export.PluginValid, Export.Disk, Export.Faultless, Accounts,
           Export.Valid, RunOk, Stage, Render, Heard;
      ghost var out, in0, d0, conf := sock.output, sock.input, exp.Disk(), Settings();
      ghost var cs := pool.Contexts();
      ghost var o := Greeted(cs, ctx0, in0);
      rec := Record([], [], in0, None);
      var ctx, state := ctx0, first;
      r := 0;
      StageStart(state);
      CalledNothing(conf.Plugin(), exp.Faultless(), exp.calls);
      HeardMore(out, rec.said, Transcript([], Disconnect, []));
      while r == 0
        invariant Valid() && Settings() == conf && Offer() == old(Offer()) && pool.made == |cs| && (r == 0 || r == -1)
        invariant Stage(rec.trace, rec.phase, state, r) && (old(sock.short) ==> sock.short)
        invariant if rec.trace == [] then r == 0 && rec == Record([], [], in0, None) && state == first
                  else rec.trace[0] == first
        invariant sock.Complete() ==> sock.short == old(sock.short)
        invariant Called(conf.Plugin(), exp.Faultless(), old(exp.calls), rec.phase, exp.calls)
        invariant rec.phase.None? ==> exp.calls == old(exp.calls)
        invariant rec.trace == [] ==> sock.input == in0 && pool.Contexts() == cs && ctx == ctx0
        invariant !sock.short ==> sock.output == out + Heard(rec.said, rec.phase)
        invariant !sock.short ==> Settled(conf, rec, d0, exp.Disk(), sock.input)
        invariant !sock.short && rec.trace != [] ==> Opened(rec, preinit, o, in0, state)
        decreases if r == 0 then 3 - Rank(state) else 0
      {
        ghost var was, before := rec, state;
        StageMeans(rec.trace, rec.phase, state, r);
        rec := rec.(trace := rec.trace + [state]);
        match state {
          case HANDSHAKE =>
            r, state, ctx := Handshake(ctx);
            rec := rec.(said := o.output, left := o.left);
            HeardMore(out, rec.said, Transcript([], Disconnect, []));
          case TRANSMISSION =>
            ghost var t;
            r, t := Transmit();
            HeardMore(out, rec.said, t);
            rec := rec.(phase := Some(t));
            if r == 0 {
              state := ABORT;
            }
          case ABORT =>
            r := -1;
        }
        StageMore(was.trace, was.phase, before, state, r, rec.phase);
      }
      StageMeans(rec.trace, rec.phase, state, r);
    }

    /**
     * `nbd_synchronous_client_thread_cb`. The phases come in order, none twice, and the session always ends with -1.
     * With complete sends, the peer has been sent the handshake of `Conclude` and the replies of one allowed run over
     * the export, and nothing else. A session that negotiates keeps one context of the pool for good.
     */
    method Serve(defaultexport: Option<nat>) returns (r: int, ghost rec: Record)
      requires Valid()
      modifies sock`input, sock`recvs, sock`output, sock`sends, sock`short, sock`last, pool`made, pool.status
      modifies pool.contexts
      modifies exp`strays, exp`calls, exp.Repr()
      ensures Valid() && r == -1 && Forward(rec.trace) && Settings() == old(Settings()) && Offer() == old(Offer())
      ensures rec.trace == [] <==> if preinit then defaultexport.None? else old(pool.made) == MAX_CONTEXTS
      ensures rec.trace != [] ==> rec.trace[0] == if preinit then TRANSMISSION else HANDSHAKE
      ensures sock.Complete() ==> sock.short == old(sock.short)
      ensures Called(Settings().Plugin(), exp.Faultless(), old(exp.calls), rec.phase, exp.calls)
      ensures pool.made == old(pool.made) + if preinit || rec.trace == [] then 0 else 1
      ensures !sock.short ==>
                && sock.output == old(sock.output) + Heard(rec.said, rec.phase)
                && Settled(Settings(), rec, old(exp.Disk()), exp.Disk(), sock.input)
      ensures !sock.short && rec.trace != [] ==>
                var o := Greeted(old(pool.Contexts()) + [Blank], Some(old(pool.made)), old(sock.input));
                Matches(rec, preinit, o, old(sock.input))
    {
      hide Socket.Complete, Called, Conclude, Export.PluginValid, Export.Disk, Export.Faultless, Settled, Export.Valid,
           Render;
      if !preinit {
        var ctx := pool.NewContext();
        if ctx.None? {
          r, rec := NoSession();
          return;
        }
        r, rec := Phases(ctx, HANDSHAKE);
      } else {
        if defaultexport.None? {
          r, rec := NoSession();
          return;
        }
        r, rec := Phases(defaultexport, TRANSMISSION);
      }
    }

    method NoSession() returns (r: int, ghost rec: Record)
      requires Valid()
      ensures r == -1 && rec == Record([], [], sock.input, None)
      ensures Settled(Settings(), rec, exp.Disk(), exp.Disk(), sock.input)
      ensures Forward(rec.trace) && sock.output == sock.output + Heard(rec.said, rec.phase)
      ensures Called(Settings().Plugin(), exp.Faultless(), exp.calls, rec.phase, exp.calls)
    {
      CalledNothing(Settings().Plugin(), exp.Faultless(), exp.calls);
      r, rec := -1, Record([], [], sock.input, None);
    }

    /**
     * From the wire to the disk: over a transport that takes every send, with a plugin under which nothing fails, a
     * client that asks what it likes, names a context, sends a proper script and closes gets what a plain array of
     * bytes would answer, and the plugin's content ends up as that array does.
     */
    method ServeScript(ghost os: seq<Opt>, ghost uri: seq<byte>, ghost script: seq<Runs.Command>, ghost tail: seq<byte>)
      returns (r: int, ghost rec: Record)
      requires Valid() && Settings().Valid() && !preinit && pool.made < MAX_CONTEXTS
      requires sock.Complete() && !sock.short && exp.Faultless()
      requires Haggling.AllPlain(os, buflen) && 0 < |uri| <= buflen && NoZero(uri)
      requires Uri.Resolve(pool.Contexts() + [Blank], uri).Resolved?
      requires Runs.ProperScript(Settings(), script) && Runs.Closing(tail)
      requires forall k :: 0 <= k < |script| ==> |script[k].req.handle| == 8
      requires sock.input == Hello(gflags, os, uri) + (Runs.Sent(script) + tail)
      modifies sock`input, sock`recvs, sock`output, sock`sends, sock`short, sock`last, pool`made, pool.status
      modifies pool.contexts
      modifies exp`strays, exp`calls, exp.Repr()
      ensures Valid() && r == -1 && !sock.short && Settings() == old(Settings())
      ensures sock.output == old(sock.output) + Greeting(gflags)
                             + (Haggling.Answers(old(pool.Contexts()) + [Blank], os)
                                + ExportReply(old(exp.exportsize), old(Offer()).eflags, gflags))
                             + Runs.Answers(old(Settings()), old(exp.Disk()), script)
      ensures exp.Disk() == Runs.FinalDisk(old(Settings()), old(exp.Disk()), script)
    {
      hide Socket.Complete, Conclude, Export.PluginValid, Export.Disk, Export.Faultless, Export.Valid, Settled, Heard,
           Hello, Matches, ExportReply, Greeting, Runs.ProperScript, Runs.Closing, Runs.Answers, Runs.FinalDisk,
           Runs.Sent, Haggling.AllPlain, Haggling.Answers;
      ghost var conf, terms, cs, d0 := Settings(), Offer(), pool.Contexts(), exp.Disk();
      ghost var out, made := sock.output, pool.made;
      r, rec := Serve(None);
      WholeSession(conf, terms, cs + [Blank], Some(made), os, uri, script, tail, rec, d0, exp.Disk(), sock.input);
      Heard3(out, Greeting(gflags),
             Haggling.Answers(cs + [Blank], os) + ExportReply(terms.exportsize, terms.eflags, gflags),
             Runs.Answers(conf, d0, script));
    }
  }

  /**
   * A whole session, as its client sees it: a handshake that asks what it likes and names a context, a proper script
   * of commands, and a close. If no plugin call fails, the client has been sent the greeting, the answers, the reply
   * to the name and then exactly what a plain array of bytes would answer; and the export is left as that array ends
   * up.
   */
  lemma WholeSession(conf: Conf, terms: Terms, cs: seq<Context>, ctx: Option<nat>, os: seq<Opt>, uri: seq<byte>,
                     script: seq<Runs.Command>, tail: seq<byte>, rec: Record, d0: seq<byte>, d1: seq<byte>,
                     left: seq<byte>)
    requires conf.Valid() && terms.gflags < 0x1_0000_0000 && terms.max < 0x1_0000_0000
    requires Haggling.AllPlain(os, terms.max) && 0 < |uri| <= terms.max && NoZero(uri)
    requires Uri.Resolve(cs, uri).Resolved?
    requires Runs.ProperScript(conf, script) && Runs.Closing(tail)
    requires (forall k :: 0 <= k < |script| ==> |script[k].req.handle| == 8)
    requires var input := Hello(terms.gflags, os, uri) + (Runs.Sent(script) + tail);
             Matches(rec, false, Conclude(terms, cs, ctx, input), input)
    requires Settled(conf, rec, d0, d1, left)
    requires rec.phase.Some? ==> SoundRun(conf.Plugin(), rec.phase.value.run)
    ensures rec.phase.Some? && rec.phase.value.left == tail && |rec.phase.value.run| == |script|
    ensures Heard(rec.said, rec.phase) == Greeting(terms.gflags)
                        + (Haggling.Answers(cs, os) + ExportReply(terms.exportsize, terms.eflags, terms.gflags))
                        + Runs.Answers(conf, d0, script)
    ensures d1 == Runs.FinalDisk(conf, d0, script)
  {
    hide Conclude, Hello, Runs.ProperScript, Runs.Closing, RunOk, Ended, Runs.Sent, Runs.Answers, Runs.FinalDisk,
         Render, Consumed;
    NamedExport(terms, cs, ctx, os, uri, Runs.Sent(script) + tail);
    var t := rec.phase.value;
    Runs.RunIsReference(conf, script, tail, t.run, d0, d1, t.end, t.left);
  }
}
