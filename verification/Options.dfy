/** Option haggling on values: the messages, what each option is answered, and what a stream of options comes to. */
module Options {
  import opened Bytes
  import opened Text
  import opened Wire
  import opened Contexts

  const NBD_OPT_EXPORT_NAME := 1
  const NBD_OPT_ABORT := 2
  const NBD_OPT_LIST := 3

  const NBD_REP_ACK := 1
  const NBD_REP_SERVER := 2
  const NBD_REP_ERR_UNSUP := 0x8000_0001

  // ---------- Messages ----------

  /** An option of the client. */
  datatype Opt = Opt(code: nat, data: seq<byte>) {
    predicate Fits(max: nat) {
      code < 0x1_0000_0000 && |data| <= max < 0x1_0000_0000
    }
  }

  function EncodeOpt(o: Opt): (b: seq<byte>)
    ensures |b| == 16 + |o.data|
  {
    BE(NBD_NEW_VERSION, 8) + BE(o.code, 4) + BE(|o.data|, 4) + o.data
  }

  /** A reply of the server. */
  datatype Reply = Reply(option: nat, kind: nat, data: seq<byte>) {
    predicate Fits() {
      option < 0x1_0000_0000 && kind < 0x1_0000_0000 && |data| < 0x1_0000_0000
    }
  }

  function ReplyHeader(option: nat, kind: nat, len: nat): (b: seq<byte>)
    ensures |b| == 20
  {
    BE(NBD_REP_MAGIC, 8) + BE(option, 4) + BE(kind, 4) + BE(len, 4)
  }

  function EncodeReply(r: Reply): (b: seq<byte>)
    ensures |b| == 20 + |r.data|
  {
    ReplyHeader(r.option, r.kind, |r.data|) + r.data
  }

  function EncodeReplies(rs: seq<Reply>): seq<byte> {
    if rs == [] then [] else EncodeReply(rs[0]) + EncodeReplies(rs[1..])
  }

  /** How a client reads one reply off the stream: the length says where it ends. */
  function DecodeReply(s: seq<byte>): Option<(Reply, seq<byte>)> {
    if |s| < 20 || FromBE(s[0..8]) != NBD_REP_MAGIC || |s| - 20 < FromBE(s[16..20]) then None
    else
      var len := FromBE(s[16..20]);
      Some((Reply(FromBE(s[8..12]), FromBE(s[12..16]), s[20..20 + len]), s[20 + len..]))
  }

  lemma CutReply<T>(a: seq<T>, b: seq<T>, c: seq<T>, d: seq<T>, e: seq<T>, f: seq<T>)
    requires |a| == 8 && |b| == 4 && |c| == 4 && |d| == 4
    ensures var s := a + b + c + d + e + f;
            && s[0..8] == a && s[8..12] == b && s[12..16] == c && s[16..20] == d
            && s[20..20 + |e|] == e && s[20 + |e|..] == f
  {
  }

  /** A reply comes back from the wire, and the rest of the stream with it. */
  lemma ReplyDecodes(r: Reply, rest: seq<byte>)
    requires r.Fits()
    ensures DecodeReply(EncodeReply(r) + rest) == Some((r, rest))
  {
    hide BE, FromBE, Pow256;
    Widths();
    FromBEOfBE(NBD_REP_MAGIC, 8);
    FromBEOfBE(r.option, 4);
    FromBEOfBE(r.kind, 4);
    FromBEOfBE(|r.data|, 4);
    CutReply(BE(NBD_REP_MAGIC, 8), BE(r.option, 4), BE(r.kind, 4), BE(|r.data|, 4), r.data, rest);
  }

  // ---------- LIST ----------

  /** The name and description of a context, in a SERVER reply. */
  function Item(c: Context): (b: seq<byte>)
    ensures |b| == 4 + |c.name| + |c.description|
  {
    BE(|c.name|, 4) + c.name + c.description
  }

  function ServerReply(c: Context): Reply {
    Reply(NBD_OPT_LIST, NBD_REP_SERVER, Item(c))
  }

  function ServerReplies(cs: seq<Context>): (rs: seq<Reply>)
    ensures |rs| == |cs| && forall k :: 0 <= k < |cs| ==> rs[k] == ServerReply(cs[k])
  {
    if cs == [] then [] else ServerReplies(cs[..|cs| - 1]) + [ServerReply(cs[|cs| - 1])]
  }

  function Entries(cs: seq<Context>): (es: seq<(seq<byte>, seq<byte>)>)
    ensures |es| == |cs| && forall k :: 0 <= k < |cs| ==> es[k] == (cs[k].name, cs[k].description)
  {
    if cs == [] then [] else [(cs[0].name, cs[0].description)] + Entries(cs[1..])
  }

  /** How a client reads the payload of a SERVER reply. */
  function DecodeItem(data: seq<byte>): Option<(seq<byte>, seq<byte>)> {
    if |data| < 4 || |data| - 4 < FromBE(data[0..4]) then None
    else
      var n := FromBE(data[0..4]);
      Some((data[4..4 + n], data[4 + n..]))
  }

  /** How a client reads the answer to a LIST: SERVER replies up to an ACK, all for this option. */
  function DecodeList(s: seq<byte>): Option<(seq<(seq<byte>, seq<byte>)>, seq<byte>)>
    decreases |s|
  {
    match DecodeReply(s)
    case None => None
    case Some((r, rest)) =>
      if r.option != NBD_OPT_LIST then None
      else if r.kind == NBD_REP_ACK && r.data == [] then Some(([], rest))
      else if r.kind != NBD_REP_SERVER then None
      else
        match (DecodeItem(r.data), DecodeList(rest))
        case (Some(item), Some((items, left))) => Some(([item] + items, left))
        case _ => None
  }

  lemma ItemDecodes(c: Context)
    requires c.Fits()
    ensures DecodeItem(Item(c)) == Some((c.name, c.description))
  {
    hide BE, FromBE, Pow256;
    Widths();
    FromBEOfBE(|c.name|, 4);
    assert Item(c)[0..4] == BE(|c.name|, 4);
  }

  const ListAck := Reply(NBD_OPT_LIST, NBD_REP_ACK, [])

  /**
   * A client that decodes the answer to a LIST gets exactly the names and descriptions of the pool, in order, and the
   * rest of the stream untouched.
   */
  lemma {:induction false} ListRoundTrip(cs: seq<Context>, rest: seq<byte>)
    requires AllFit(cs)
    ensures DecodeList(EncodeReplies(ServerReplies(cs) + [ListAck]) + rest) == Some((Entries(cs), rest))
    decreases |cs|
  {
    hide EncodeReply, DecodeReply, Item, DecodeItem, ServerReplies;
    var rs := ServerReplies(cs) + [ListAck];
    if cs == [] {
      assert rs == [ListAck] && EncodeReplies(rs) + rest == EncodeReply(ListAck) + rest;
      ReplyDecodes(ListAck, rest);
    } else {
      var tail := ServerReplies(cs[1..]) + [ListAck];
      assert rs[1..] == tail && rs[0] == ServerReply(cs[0]);
      assert EncodeReplies(rs) + rest == EncodeReply(rs[0]) + (EncodeReplies(tail) + rest);
      ReplyDecodes(rs[0], EncodeReplies(tail) + rest);
      ItemDecodes(cs[0]);
      ListRoundTrip(cs[1..], rest);
      assert DecodeReply(EncodeReplies(rs) + rest) == Some((rs[0], EncodeReplies(tail) + rest));
    }
  }
}
