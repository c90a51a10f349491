/** What a stream of options comes to, and what it is answered. */
module Haggling {
  import opened Bytes
  import opened Text
  import opened Wire
  import opened Contexts
  import opened Options

  // ---------- The stream of the client ----------

  datatype End = ExportName(data: seq<byte>) | Abort(data: seq<byte>) | EndOfStream | WrongVersion | TooLong

  /** The options that are only answered, why the phase ends, and what is left of the stream. */
  datatype Run = Run(opts: seq<Opt>, end: End, left: seq<byte>)

  /** One option off the stream, or the end of the phase. */
  datatype Next = Got(opt: Opt, rest: seq<byte>) | Stop(end: End, left: seq<byte>)

  function NextOpt(s: seq<byte>, max: nat): (n: Next)
    ensures n.Got? ==> |n.rest| + 16 <= |s|
    ensures n.Stop? ==> !Final(n.end)
  {
    if |s| < 16 then Stop(EndOfStream, [])
    else if FromBE(s[0..8]) != NBD_NEW_VERSION then Stop(WrongVersion, s[16..])
    else
      var len := FromBE(s[12..16]);
      if len > max then Stop(TooLong, s[16..])
      else if |s| - 16 < len then Stop(EndOfStream, [])
      else Got(Opt(FromBE(s[8..12]), s[16..16 + len]), s[16 + len..])
  }

  function Haggle(s: seq<byte>, max: nat): Run
    decreases |s|
  {
    match NextOpt(s, max)
    case Stop(end, left) => Run([], end, left)
    case Got(o, rest) =>
      if o.code == NBD_OPT_EXPORT_NAME then Run([], ExportName(o.data), rest)
      else if o.code == NBD_OPT_ABORT then Run([], Abort(o.data), rest)
      else After([o], Haggle(rest, max))
  }

  function After(done: seq<Opt>, run: Run): Run {
    Run(done + run.opts, run.end, run.left)
  }

  function EncodeOpts(os: seq<Opt>): seq<byte> {
    if os == [] then [] else EncodeOpt(os[0]) + EncodeOpts(os[1..])
  }

  /** The option that ends a run, as the client sent it. */
  function Last(end: End): seq<byte> {
    match end
    case ExportName(data) => EncodeOpt(Opt(NBD_OPT_EXPORT_NAME, data))
    case Abort(data) => EncodeOpt(Opt(NBD_OPT_ABORT, data))
    case _ => []
  }

  predicate Final(end: End) {
    end.ExportName? || end.Abort?
  }

  predicate Plain(o: Opt, max: nat) {
    o.Fits(max) && o.code != NBD_OPT_EXPORT_NAME && o.code != NBD_OPT_ABORT
  }

  ghost predicate AllPlain(os: seq<Opt>, max: nat) {
    forall k :: 0 <= k < |os| ==> Plain(os[k], max)
  }

  lemma CutOpt<T>(a: seq<T>, b: seq<T>, c: seq<T>, d: seq<T>, e: seq<T>)
    requires |a| == 8 && |b| == 4 && |c| == 4
    ensures var s := a + b + c + d + e;
            s[0..8] == a && s[8..12] == b && s[12..16] == c && s[16..16 + |d|] == d && s[16 + |d|..] == e
  {
  }

  /** An option that fits is taken off the stream as it was sent. */
  lemma OptDecodes(o: Opt, rest: seq<byte>, max: nat)
    requires o.Fits(max)
    ensures NextOpt(EncodeOpt(o) + rest, max) == Got(o, rest)
  {
    hide BE, FromBE, Pow256;
    Widths();
    FromBEOfBE(NBD_NEW_VERSION, 8);
    FromBEOfBE(o.code, 4);
    FromBEOfBE(|o.data|, 4);
    CutOpt(BE(NBD_NEW_VERSION, 8), BE(o.code, 4), BE(|o.data|, 4), o.data, rest);
  }

  /** Where the fields of an option that was taken off were in the stream. */
  lemma OptFields(s: seq<byte>, max: nat)
    requires NextOpt(s, max).Got?
    ensures |s| >= 16
    ensures var n := NextOpt(s, max);
            && n.opt.code == Word(s[8], s[9], s[10], s[11])
            && |n.opt.data| == Word(s[12], s[13], s[14], s[15])
            && s[16..] == n.opt.data + n.rest
  {
    hide FromBE, Word;
    BigEndian4(s, 8);
    BigEndian4(s, 12);
  }

  /** And an option that was taken off is exactly the bytes consumed. */
  lemma OptEncodes(s: seq<byte>, max: nat)
    requires NextOpt(s, max).Got? && max < 0x1_0000_0000
    ensures NextOpt(s, max).opt.Fits(max) && EncodeOpt(NextOpt(s, max).opt) + NextOpt(s, max).rest == s
  {
    hide BE, FromBE, Pow256;
    Widths();
    BEOfFromBE(s[0..8]);
    BEOfFromBE(s[8..12]);
    BEOfFromBE(s[12..16]);
    FromBEBound(s[8..12]);
    var len := FromBE(s[12..16]);
    assert |s[16..16 + len]| == len;
    Sixteen(s, len);
  }

  lemma Sixteen(s: seq<byte>, len: nat)
    requires 16 + len <= |s|
    ensures s == s[0..8] + s[8..12] + s[12..16] + s[16..16 + len] + s[16 + len..]
  {
  }

  /** The option that ends the phase. */
  lemma LastHaggled(end: End, rest: seq<byte>, max: nat)
    requires Final(end) && |end.data| <= max < 0x1_0000_0000
    ensures Haggle(Last(end) + rest, max) == Run([], end, rest)
  {
    hide NextOpt, EncodeOpt;
    if end.ExportName? {
      OptDecodes(Opt(NBD_OPT_EXPORT_NAME, end.data), rest, max);
    } else {
      OptDecodes(Opt(NBD_OPT_ABORT, end.data), rest, max);
    }
  }

  /** An option that is only answered. */
  lemma FirstHaggled(o: Opt, rest: seq<byte>, max: nat)
    requires Plain(o, max)
    ensures Haggle(EncodeOpt(o) + rest, max) == After([o], Haggle(rest, max))
  {
    hide NextOpt, EncodeOpt;
    OptDecodes(o, rest, max);
  }

  /** Options that are only answered are haggled one by one, and then what follows them. */
  lemma {:induction false} HaggleFront(os: seq<Opt>, s: seq<byte>, max: nat)
    requires AllPlain(os, max)
    ensures Haggle(EncodeOpts(os) + s, max) == After(os, Haggle(s, max))
    decreases |os|
  {
    hide Haggle, EncodeOpt, Plain;
    if os == [] {
      assert [] + s == s && [] + Haggle(s, max).opts == Haggle(s, max).opts;
    } else {
      var o, more := os[0], EncodeOpts(os[1..]) + s;
      Associate(EncodeOpt(o), EncodeOpts(os[1..]), s);
      FirstHaggled(o, more, max);
      HaggleFront(os[1..], s, max);
      Associate([o], os[1..], Haggle(s, max).opts);
      assert os == [o] + os[1..];
    }
  }

  /** And so is one that ends the phase after them. */
  lemma HaggleScript(os: seq<Opt>, end: End, rest: seq<byte>, max: nat)
    requires AllPlain(os, max) && Final(end) && |end.data| <= max < 0x1_0000_0000
    ensures Haggle(EncodeOpts(os) + Last(end) + rest, max) == Run(os, end, rest)
  {
    hide Haggle, Last, EncodeOpts, AllPlain;
    Associate(EncodeOpts(os), Last(end), rest);
    HaggleFront(os, Last(end) + rest, max);
    LastHaggled(end, rest, max);
    assert os + [] == os;
  }

  lemma Prefixed(s: seq<byte>, a: seq<byte>, rest: seq<byte>, e: seq<byte>, last: seq<byte>, left: seq<byte>)
    requires s == a + rest && |e| <= |rest| && rest[..|e|] == e
    ensures |a + e| <= |s| && s[..|a + e|] == a + e
    ensures rest == e + last + left ==> s == (a + e) + last + left
  {
  }

  /**
   * Whatever the stream: the options of a run are only-answered ones, they consume exactly their headers and data, and
   * so does the one that ends the phase.
   */
  lemma {:induction false} HaggleConsumes(s: seq<byte>, max: nat)
    requires max < 0x1_0000_0000
    ensures var run := Haggle(s, max);
            && AllPlain(run.opts, max)
            && |EncodeOpts(run.opts)| <= |s| && s[..|EncodeOpts(run.opts)|] == EncodeOpts(run.opts)
            && (Final(run.end) ==> |run.end.data| <= max && s == EncodeOpts(run.opts) + Last(run.end) + run.left)
    decreases |s|
  {
    hide EncodeOpt, NextOpt;
    var n := NextOpt(s, max);
    if n.Got? {
      OptEncodes(s, max);
      if n.opt.code != NBD_OPT_EXPORT_NAME && n.opt.code != NBD_OPT_ABORT {
        var run := Haggle(n.rest, max);
        HaggleConsumes(n.rest, max);
        var opts := [n.opt] + run.opts;
        assert opts[1..] == run.opts && opts[0] == n.opt;
        assert Haggle(s, max) == Run(opts, run.end, run.left);
        assert EncodeOpts(opts) == EncodeOpt(n.opt) + EncodeOpts(run.opts);
        Prefixed(s, EncodeOpt(n.opt), n.rest, EncodeOpts(run.opts), Last(run.end), run.left);
      } else {
        assert n.opt == Opt(n.opt.code, n.opt.data);
        assert [] + EncodeOpt(n.opt) + n.rest == s;
      }
    }
  }

  // ---------- The buffer ----------

  /** Reading the stream, the code terminates some option's data one past the end of a buffer of `max` bytes. */
  function Overruns(s: seq<byte>, max: nat): bool
    decreases |s|
  {
    match NextOpt(s, max)
    case Stop(_, _) => false
    case Got(o, rest) =>
      (|o.data| == max && max > 0)
      || (o.code != NBD_OPT_EXPORT_NAME && o.code != NBD_OPT_ABORT && Overruns(rest, max))
  }

  /** The data of an option that a run took off the stream, the one that ended it included. */
  ghost predicate Takes(run: Run, data: seq<byte>) {
    (exists k :: 0 <= k < |run.opts| && run.opts[k].data == data) || (Final(run.end) && run.end.data == data)
  }

  ghost predicate TakesOfSize(run: Run, size: nat) {
    exists data :: Takes(run, data) && |data| == size
  }

  /** It writes past the end exactly if some option it takes is as long as the buffer. */
  lemma {:induction false} OverrunsIff(s: seq<byte>, max: nat)
    requires max > 0
    ensures Overruns(s, max) <==> TakesOfSize(Haggle(s, max), max)
    decreases |s|
  {
    hide NextOpt;
    match NextOpt(s, max) {
      case Stop(end, left) =>
      case Got(o, rest) =>
        if o.code == NBD_OPT_EXPORT_NAME || o.code == NBD_OPT_ABORT {
          assert Takes(Haggle(s, max), o.data);
        } else {
          OverrunsIff(rest, max);
          TakesFirst(o, Haggle(rest, max), max);
        }
    }
  }

  lemma OverrunsNext(s: seq<byte>, max: nat)
    ensures match NextOpt(s, max) {
              case Stop(_, _) => !Overruns(s, max)
              case Got(o, rest) =>
                Overruns(s, max) <==>
                (|o.data| == max && max > 0)
                || (o.code != NBD_OPT_EXPORT_NAME && o.code != NBD_OPT_ABORT && Overruns(rest, max))
            }
  {
  }

  lemma TakesFirst(o: Opt, run: Run, size: nat)
    ensures TakesOfSize(After([o], run), size) <==> |o.data| == size || TakesOfSize(run, size)
  {
    var all := After([o], run);
    assert all.opts[0] == o && forall k :: 0 <= k < |run.opts| ==> all.opts[k + 1] == run.opts[k];
    if |o.data| == size {
      assert Takes(all, o.data);
    }
    if data :| Takes(run, data) && |data| == size {
      assert Takes(all, data);
    }
    if data :| Takes(all, data) && |data| == size && |o.data| != size {
      assert Takes(run, data);
    }
  }

  /** Any data of that length does it. */
  lemma LongestOverruns(code: nat, data: seq<byte>, rest: seq<byte>, max: nat)
    requires 0 < |data| == max < 0x1_0000_0000 && code < 0x1_0000_0000
    ensures Overruns(EncodeOpt(Opt(code, data)) + rest, max)
  {
    hide EncodeOpt, NextOpt;
    OptDecodes(Opt(code, data), rest, max);
  }

  // ---------- The answers ----------

  /** What an option that does not end the phase is answered. */
  function Answer(cs: seq<Context>, o: Opt): seq<Reply> {
    if o.code == NBD_OPT_LIST then ServerReplies(cs) + [ListAck] else [Reply(o.code, NBD_REP_ERR_UNSUP, [])]
  }

  function Answers(cs: seq<Context>, os: seq<Opt>): seq<byte> {
    if os == [] then [] else EncodeReplies(Answer(cs, os[0])) + Answers(cs, os[1..])
  }

  /** An acknowledgement or an error: no more replies for this option. */
  predicate Terminal(r: Reply) {
    r.kind == NBD_REP_ACK || r.kind >= 0x8000_0000
  }

  /** Replies to one option: all echo it, and the last one alone is terminal. */
  ghost predicate OneAnswer(rs: seq<Reply>, o: Opt) {
    && rs != [] && Terminal(rs[|rs| - 1])
    && (forall k :: 0 <= k < |rs| ==> rs[k].option == o.code && rs[k].Fits())
    && (forall k :: 0 <= k < |rs| - 1 ==> !Terminal(rs[k]))
  }

  lemma AnswerIsOne(cs: seq<Context>, o: Opt, max: nat)
    requires AllFit(cs) && Plain(o, max)
    ensures OneAnswer(Answer(cs, o), o)
  {
    hide Item;
  }

  /** How a client reads the replies to one option: up to the terminal one. */
  function TakeAnswer(s: seq<byte>): Option<(seq<Reply>, seq<byte>)>
    decreases |s|
  {
    match DecodeReply(s)
    case None => None
    case Some((r, rest)) =>
      if Terminal(r) then Some(([r], rest))
      else
        match TakeAnswer(rest)
        case Some((rs, left)) => Some(([r] + rs, left))
        case None => None
  }

  /** And to as many options as it sent. */
  function TakeAnswers(s: seq<byte>, n: nat): Option<(seq<seq<Reply>>, seq<byte>)>
    decreases n
  {
    if n == 0 then Some(([], s))
    else
      match TakeAnswer(s)
      case None => None
      case Some((rs, rest)) =>
        match TakeAnswers(rest, n - 1)
        case Some((more, left)) => Some(([rs] + more, left))
        case None => None
  }

  lemma {:induction false} AnswerDecodes(rs: seq<Reply>, o: Opt, rest: seq<byte>)
    requires OneAnswer(rs, o)
    ensures TakeAnswer(EncodeReplies(rs) + rest) == Some((rs, rest))
    decreases |rs|
  {
    hide EncodeReply, DecodeReply;
    var more := EncodeReplies(rs[1..]) + rest;
    assert EncodeReplies(rs) + rest == EncodeReply(rs[0]) + more;
    ReplyDecodes(rs[0], more);
    assert DecodeReply(EncodeReplies(rs) + rest) == Some((rs[0], more));
    assert rs == [rs[0]] + rs[1..];
    if |rs| > 1 {
      assert forall k :: 0 <= k < |rs[1..]| ==> rs[1..][k] == rs[k + 1];
      AnswerDecodes(rs[1..], o, rest);
    } else {
      assert rs[1..] == [] && rs == [rs[0]];
      assert more == [] + rest == rest;
    }
  }

  function AllAnswers(cs: seq<Context>, os: seq<Opt>): seq<seq<Reply>> {
    if os == [] then [] else [Answer(cs, os[0])] + AllAnswers(cs, os[1..])
  }

  /** A client gets back exactly one answer for each option it sent, in order, and nothing else is sent for them. */
  lemma {:induction false} AnswersDecode(cs: seq<Context>, os: seq<Opt>, max: nat, rest: seq<byte>)
    requires AllFit(cs) && AllPlain(os, max)
    ensures TakeAnswers(Answers(cs, os) + rest, |os|) == Some((AllAnswers(cs, os), rest))
    decreases |os|
  {
    hide Answer, TakeAnswer, EncodeReplies, Plain;
    if os == [] {
      assert [] + rest == rest;
    } else {
      var more := Answers(cs, os[1..]) + rest;
      assert Answers(cs, os) + rest == EncodeReplies(Answer(cs, os[0])) + more;
      AnswerIsOne(cs, os[0], max);
      AnswerDecodes(Answer(cs, os[0]), os[0], more);
      assert forall k :: 0 <= k < |os[1..]| ==> os[1..][k] == os[k + 1];
      AnswersDecode(cs, os[1..], max, rest);
    }
  }

  // ---------- What a client is told ----------

  /** The answer to one option, as its client understands it. */
  datatype Told = Listing(entries: seq<(seq<byte>, seq<byte>)>) | Unsupported

  /** How a client reads the answer to an option of this code: a list for LIST, and one refusal for any other. */
  function ReadTold(code: nat, s: seq<byte>): Option<(Told, seq<byte>)> {
    if code == NBD_OPT_LIST then
      match DecodeList(s)
      case Some((entries, rest)) => Some((Listing(entries), rest))
      case None => None
    else
      match DecodeReply(s)
      case Some((r, rest)) => if r == Reply(code, NBD_REP_ERR_UNSUP, []) then Some((Unsupported, rest)) else None
      case None => None
  }

  /** And the answers to the options it sent. */
  function ReadTalk(os: seq<Opt>, s: seq<byte>): Option<(seq<Told>, seq<byte>)>
    decreases |os|
  {
    if os == [] then Some(([], s))
    else
      match ReadTold(os[0].code, s)
      case None => None
      case Some((told, rest)) =>
        match ReadTalk(os[1..], rest)
        case Some((more, left)) => Some(([told] + more, left))
        case None => None
  }

  /** LIST is answered with the pool, and nothing else is. */
  lemma AnswerTold(cs: seq<Context>, o: Opt, max: nat, rest: seq<byte>)
    requires AllFit(cs) && Plain(o, max)
    ensures o.code == NBD_OPT_LIST ==>
              DecodeList(EncodeReplies(Answer(cs, o)) + rest) == Some((Entries(cs), rest))
    ensures o.code != NBD_OPT_LIST ==>
              DecodeReply(EncodeReplies(Answer(cs, o)) + rest) == Some((Reply(o.code, NBD_REP_ERR_UNSUP, []), rest))
  {
    hide DecodeList, DecodeReply, EncodeReply, Entries, ServerReplies;
    if o.code == NBD_OPT_LIST {
      ListRoundTrip(cs, rest);
    } else {
      var r := Reply(o.code, NBD_REP_ERR_UNSUP, []);
      ReplyDecodes(r, rest);
      assert [r][1..] == [] && EncodeReplies([r]) == EncodeReply(r) + [] == EncodeReply(r);
    }
  }

  /** From `s` the client reads an answer for each option, and then has `rest` before it. */
  ghost predicate Tells(cs: seq<Context>, os: seq<Opt>, s: seq<byte>, rest: seq<byte>) {
    var talk := ReadTalk(os, s);
    && talk.Some? && |talk.value.0| == |os| && talk.value.1 == rest
    && forall k :: 0 <= k < |os| ==>
         talk.value.0[k] == if os[k].code == NBD_OPT_LIST then Listing(Entries(cs)) else Unsupported
  }

  /**
   * A client that reads one answer for each option it sent is told the names and descriptions of the whole pool at
   * each LIST, that the option is unsupported at each other one, and has the rest of the stream before it.
   */
  lemma {:induction false} TalkDecodes(cs: seq<Context>, os: seq<Opt>, max: nat, rest: seq<byte>)
    requires AllFit(cs) && AllPlain(os, max)
    ensures Tells(cs, os, Answers(cs, os) + rest, rest)
    decreases |os|
  {
    hide Answer, DecodeList, DecodeReply, EncodeReplies, Entries, Plain;
    if os == [] {
      assert [] + rest == rest;
    } else {
      var more := Answers(cs, os[1..]) + rest;
      assert Answers(cs, os) + rest == EncodeReplies(Answer(cs, os[0])) + more;
      AnswerTold(cs, os[0], max, more);
      assert forall k :: 0 <= k < |os[1..]| ==> os[1..][k] == os[k + 1];
      TalkDecodes(cs, os[1..], max, rest);
    }
  }

  // ---------- Where haggling stops ----------

  /** An option is taken exactly if one that fits stands at the front of the stream. */
  lemma TakenIff(s: seq<byte>, max: nat)
    requires max < 0x1_0000_0000
    ensures NextOpt(s, max).Got? <==> StartsWithOpt(s, max)
  {
    hide NextOpt, EncodeOpt;
    if NextOpt(s, max).Got? {
      OptEncodes(s, max);
      assert OptFirst(s, max, NextOpt(s, max).opt, NextOpt(s, max).rest);
    }
    if o, rest :| OptFirst(s, max, o, rest) {
      OptDecodes(o, rest, max);
    }
  }

  ghost predicate OptFirst(s: seq<byte>, max: nat, o: Opt, rest: seq<byte>) {
    o.Fits(max) && s == EncodeOpt(o) + rest
  }

  ghost predicate StartsWithOpt(s: seq<byte>, max: nat) {
    exists o, rest :: OptFirst(s, max, o, rest)
  }

  /**
   * Where none does, the stream has run out, and then all of it was taken; or the header in front is of another
   * version or announces too much data, and then just the header was.
   */
  lemma StopsAt(s: seq<byte>, max: nat)
    requires NextOpt(s, max).Stop?
    ensures var n := NextOpt(s, max);
            && (n.end.WrongVersion? <==> |s| >= 16 && FromBE(s[0..8]) != NBD_NEW_VERSION)
            && (n.end.TooLong? <==> |s| >= 16 && FromBE(s[0..8]) == NBD_NEW_VERSION && FromBE(s[12..16]) > max)
            && (n.end.EndOfStream? <==> !n.end.WrongVersion? && !n.end.TooLong?)
            && n.left == if n.end.EndOfStream? then [] else s[16..]
  {
  }
}
