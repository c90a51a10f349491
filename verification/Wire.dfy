/** The packed messages of the NBD protocol, fields in network byte order. */
module Wire {
  import opened Bytes

  const NBD_MAGIC := 0x4e42444d41474943
  const NBD_NEW_VERSION := 0x49484156454F5054
  const NBD_REP_MAGIC := 0x3e889045565a9
  const NBD_REQUEST_MAGIC := 0x25609513
  const NBD_SIMPLE_REPLY_MAGIC := 0x67446698

  const NBD_FLAG_NO_ZEROES := 2

  const NBD_FLAG_HAS_FLAGS := 1
  const NBD_FLAG_READ_ONLY := 2
  const NBD_FLAG_SEND_FLUSH := 4

  const NBD_CMD_READ := 0
  const NBD_CMD_WRITE := 1
  const NBD_CMD_DISC := 2
  const NBD_CMD_FLUSH := 3

  const NBD_SUCCESS := 0
  const NBD_EPERM := 1
  const NBD_EIO := 5
  const NBD_EINVAL := 22
  const NBD_ENOSPC := 28
  const NBD_EOVERFLOW := 75

  // ---------- Integers ----------

  function Pow256(w: nat): (p: nat)
    ensures p > 0
  {
    if w == 0 then 1 else 256 * Pow256(w - 1)
  }

  lemma Widths()
    ensures Pow256(2) == 0x1_0000 && Pow256(4) == 0x1_0000_0000 && Pow256(8) == 0x1_0000_0000_0000_0000
  {
    assert Pow256(1) == 256 && Pow256(2) == 256 * Pow256(1);
    assert Pow256(3) == 256 * Pow256(2) && Pow256(4) == 256 * Pow256(3);
    assert Pow256(5) == 256 * Pow256(4) && Pow256(6) == 256 * Pow256(5) && Pow256(7) == 256 * Pow256(6);
  }

  /** `v` in `w` bytes, the most significant first. */
  function BE(v: nat, w: nat): (s: seq<byte>)
    ensures |s| == w
  {
    if w == 0 then [] else BE(v / 256, w - 1) + [v % 256]
  }

  function FromBE(s: seq<byte>): nat {
    if s == [] then 0 else FromBE(s[..|s| - 1]) * 256 + s[|s| - 1]
  }

  lemma {:induction false} FromBEBound(s: seq<byte>)
    ensures FromBE(s) < Pow256(|s|)
  {
    if s != [] {
      FromBEBound(s[..|s| - 1]);
    }
  }

  /** An integer that fits comes back from its bytes. */
  lemma {:induction false} FromBEOfBE(v: nat, w: nat)
    requires v < Pow256(w)
    ensures FromBE(BE(v, w)) == v
  {
    if w > 0 {
      FromBEOfBE(v / 256, w - 1);
      assert BE(v, w)[..w - 1] == BE(v / 256, w - 1);
    }
  }

  /** Bytes come back from the integer they stand for. */
  lemma {:induction false} BEOfFromBE(s: seq<byte>)
    ensures BE(FromBE(s), |s|) == s
  {
    if s != [] {
      var init := s[..|s| - 1];
      BEOfFromBE(init);
      assert FromBE(s) / 256 == FromBE(init) && FromBE(s) % 256 == s[|s| - 1];
      assert s == init + [s[|s| - 1]];
    }
  }

  /** The integer of four digits. */
  function Word(a: nat, b: nat, c: nat, d: nat): nat {
    0x100_0000 * a + 0x1_0000 * b + 0x100 * c + d
  }

  /** The last byte is the least significant. */
  lemma LastDigit(s: seq<byte>, i: nat, n: nat)
    requires 0 < n && i + n <= |s|
    ensures FromBE(s[i..i + n]) == 0x100 * FromBE(s[i..i + n - 1]) + s[i + n - 1]
  {
    assert s[i..i + n][..n - 1] == s[i..i + n - 1];
  }

  lemma BigEndian2(s: seq<byte>, i: nat)
    requires i + 2 <= |s|
    ensures FromBE(s[i..i + 2]) == Word(0, 0, s[i], s[i + 1])
  {
    LastDigit(s, i, 2);
    LastDigit(s, i, 1);
  }

  lemma BigEndian4(s: seq<byte>, i: nat)
    requires i + 4 <= |s|
    ensures FromBE(s[i..i + 4]) == Word(s[i], s[i + 1], s[i + 2], s[i + 3])
  {
    LastDigit(s, i, 4);
    LastDigit(s, i, 3);
    BigEndian2(s, i);
  }

  lemma BigEndian8(s: seq<byte>, i: nat)
    requires i + 8 <= |s|
    ensures FromBE(s[i..i + 8])
            == 0x1_0000_0000 * Word(s[i], s[i + 1], s[i + 2], s[i + 3]) + Word(s[i + 4], s[i + 5], s[i + 6], s[i + 7])
  {
    hide FromBE;
    LastDigit(s, i, 8);
    LastDigit(s, i, 7);
    LastDigit(s, i, 6);
    LastDigit(s, i, 5);
    BigEndian4(s, i);
  }

  // ---------- Transmission phase ----------

  /** A request; the handle is opaque and travels as it is. */
  datatype Request = Request(flags: nat, kind: nat, handle: seq<byte>, offset: nat, count: nat) {
    ghost predicate Fits() {
      flags < Pow256(2) && kind < Pow256(2) && |handle| == 8 && offset < Pow256(8) && count < Pow256(4)
    }
  }

  function EncodeRequest(r: Request): (b: seq<byte>)
    requires |r.handle| == 8
    ensures |b| == 28
  {
    BE(NBD_REQUEST_MAGIC, 4) + BE(r.flags, 2) + BE(r.kind, 2) + r.handle + BE(r.offset, 8) + BE(r.count, 4)
  }

  function MagicOf(b: seq<byte>): nat
    requires |b| == 28
  {
    FromBE(b[0..4])
  }

  function DecodeRequest(b: seq<byte>): Request
    requires |b| == 28
  {
    Request(FromBE(b[4..6]), FromBE(b[6..8]), b[8..16], FromBE(b[16..24]), FromBE(b[24..28]))
  }

  lemma DecodedFits(b: seq<byte>)
    requires |b| == 28
    ensures DecodeRequest(b).Fits()
  {
    FromBEBound(b[4..6]);
    FromBEBound(b[6..8]);
    FromBEBound(b[16..24]);
    FromBEBound(b[24..28]);
  }

  /** Where the fields of a request are among its 28 bytes. */
  lemma RequestFields(b: seq<byte>)
    requires |b| == 28
    ensures MagicOf(b) == Word(b[0], b[1], b[2], b[3])
    ensures var r := DecodeRequest(b);
            && r.flags == Word(0, 0, b[4], b[5]) && r.kind == Word(0, 0, b[6], b[7]) && r.handle == b[8..16]
            && r.offset == 0x1_0000_0000 * Word(b[16], b[17], b[18], b[19]) + Word(b[20], b[21], b[22], b[23])
            && r.count == Word(b[24], b[25], b[26], b[27])
  {
    hide FromBE, Word;
    BigEndian4(b, 0);
    BigEndian2(b, 4);
    BigEndian2(b, 6);
    BigEndian8(b, 16);
    BigEndian4(b, 24);
  }

  lemma Cut6<T>(a: seq<T>, b: seq<T>, c: seq<T>, d: seq<T>, e: seq<T>, f: seq<T>)
    requires |a| == 4 && |b| == 2 && |c| == 2 && |d| == 8 && |e| == 8 && |f| == 4
    ensures var s := a + b + c + d + e + f;
            s[0..4] == a && s[4..6] == b && s[6..8] == c && s[8..16] == d && s[16..24] == e && s[24..28] == f
  {
  }

  /** A request comes back from the wire. */
  lemma RequestRoundTrip(r: Request)
    requires r.Fits()
    ensures MagicOf(EncodeRequest(r)) == NBD_REQUEST_MAGIC && DecodeRequest(EncodeRequest(r)) == r
  {
    hide BE, FromBE, Pow256;
    Widths();
    Cut6(BE(NBD_REQUEST_MAGIC, 4), BE(r.flags, 2), BE(r.kind, 2), r.handle, BE(r.offset, 8), BE(r.count, 4));
    FromBEOfBE(NBD_REQUEST_MAGIC, 4);
    FromBEOfBE(r.flags, 2);
    FromBEOfBE(r.kind, 2);
    FromBEOfBE(r.offset, 8);
    FromBEOfBE(r.count, 4);
  }

  /** The 28 bytes of a request are determined by what they decode to. */
  lemma RequestBytes(b: seq<byte>)
    requires |b| == 28 && MagicOf(b) == NBD_REQUEST_MAGIC
    ensures EncodeRequest(DecodeRequest(b)) == b
  {
    hide BE, FromBE;
    BEOfFromBE(b[0..4]);
    BEOfFromBE(b[4..6]);
    BEOfFromBE(b[6..8]);
    BEOfFromBE(b[16..24]);
    BEOfFromBE(b[24..28]);
    assert b == b[0..4] + b[4..6] + b[6..8] + b[8..16] + b[16..24] + b[24..28];
  }

  function SimpleReply(error: nat, handle: seq<byte>): (b: seq<byte>)
    ensures |b| == 8 + |handle|
  {
    BE(NBD_SIMPLE_REPLY_MAGIC, 4) + BE(error, 4) + handle
  }

  /** A reply header comes back from the wire, whatever follows it. */
  lemma ReplyRoundTrip(error: nat, handle: seq<byte>, rest: seq<byte>)
    requires error < Pow256(4) && |handle| == 8
    ensures var b := SimpleReply(error, handle) + rest;
            && FromBE(b[0..4]) == NBD_SIMPLE_REPLY_MAGIC && FromBE(b[4..8]) == error && b[8..16] == handle
            && b[16..] == rest
  {
    hide BE, FromBE, Pow256;
    Widths();
    FromBEOfBE(NBD_SIMPLE_REPLY_MAGIC, 4);
    FromBEOfBE(error, 4);
    var b := SimpleReply(error, handle) + rest;
    assert b[0..4] == BE(NBD_SIMPLE_REPLY_MAGIC, 4) && b[4..8] == BE(error, 4);
    assert b[8..16] == handle && b[16..] == rest;
  }
}
