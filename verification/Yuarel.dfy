/** Destructive in-place parsing of URIs; a pointer into the buffer is its index. */
module Yuarel {
  import opened Bytes
  import opened Text
  import opened Split

  // ---------- One cut ----------

  /** A zero written over the first `c`. */
  function Punch(t: seq<byte>, c: byte): (r: seq<byte>)
    ensures |r| == |t|
    ensures c in t ==> r == Before(t, c) + [0] + After(t, c).value
    ensures c !in t ==> r == t
  {
    if c in t then t[IndexOf(t, c) := 0] else t
  }

  /** Where the part after the first `c` starts, for a string at `at`. */
  function Next(at: nat, t: seq<byte>, c: byte): Option<nat> {
    if c in t then Some(at + |Before(t, c)| + 1) else None
  }

  /** The string at `at` ends inside the buffer. */
  predicate Terminated(s: seq<byte>, at: nat) {
    at + |CStr(s, at)| < |s|
  }

  /** find_and_terminate: cut the string at its first `c`, and give the place after it. */
  method FindAndTerminate(buf: array<byte>, at: nat, c: byte) returns (r: Option<nat>)
    requires c != 0 && Terminated(buf[..], at)
    modifies buf
    ensures var t := CStr(old(buf[..]), at);
            r == Next(at, t, c) && buf[..] == Splice(old(buf[..]), at, Punch(t, c))
  {
    hide CStr, IndexOf;
    ghost var s, t := buf[..], CStr(buf[..], at);
    assert t == s[at..at + |t|];
    r := Strchr(buf, at, c);
    if r.None? {
      return;
    }
    buf[r.value] := 0;
    r := Some(r.value + 1);
    PunchedAt(s, at, t, c);
  }

  lemma PunchedAt(s: seq<byte>, at: nat, t: seq<byte>, c: byte)
    requires at + |t| < |s| && t == s[at..at + |t|] && c in t
    ensures s[at + IndexOf(t, c) := 0] == Splice(s, at, Punch(t, c))
  {
    hide IndexOf;
    assert s == Splice(s, at, t);
    SpliceSet(s, at, t, IndexOf(t, c), 0);
  }

  lemma FirstByte(s: seq<byte>, at: Option<nat>)
    requires at.Some? ==> Terminated(s, at.value)
    ensures at.Some? ==> (s[at.value] == 0 <==> CStr(s, at.value) == [])
  {
    if at.Some? {
      CStrEnd(s, at.value);
    }
  }

  // ---------- Strings laid out in a buffer ----------

  /** `s` is `x`, the string `t` with its terminator, and `y`. */
  ghost predicate Laid(s: seq<byte>, x: seq<byte>, t: seq<byte>, y: seq<byte>) {
    NoZero(t) && s == x + t + [0] + y
  }

  lemma LaidReads(s: seq<byte>, x: seq<byte>, t: seq<byte>, y: seq<byte>)
    requires Laid(s, x, t, y)
    ensures CStr(s, |x|) == t && Terminated(s, |x|)
  {
    CStrAt(x, t, y);
  }

  /** Any terminated string is laid out somewhere. */
  lemma LaidAt(s: seq<byte>, at: nat)
    requires Terminated(s, at)
    ensures Laid(s, s[..at], CStr(s, at), s[at + |CStr(s, at)| + 1..])
  {
    CStrEnd(s, at);
    hide CStr;
    var t := CStr(s, at);
    assert s == s[..at] + s[at..at + |t|] + [s[at + |t|]] + s[at + |t| + 1..];
  }

  /** A cut string: two strings laid out, or the one as it was. */
  lemma LaidCut(s: seq<byte>, x: seq<byte>, t: seq<byte>, y: seq<byte>, c: byte, r: seq<byte>)
    requires Laid(s, x, t, y) && r == Splice(s, |x|, Punch(t, c))
    ensures c in t ==> Laid(r, x, Before(t, c), After(t, c).value + [0] + y)
    ensures c in t ==> Laid(r, x + Before(t, c) + [0], After(t, c).value, y)
    ensures c in t ==> Next(|x|, t, c) == Some(|x + Before(t, c) + [0]|)
    ensures c !in t ==> r == s
    ensures r == x + Punch(t, c) + [0] + y
  {
    hide IndexOf, Before, After, Punch;
    BeforeAfter(t, c);
    assert r == x + Punch(t, c) + [0] + y;
    if c in t {
      assert r == x + Before(t, c) + [0] + (After(t, c).value + [0] + y);
    }
  }

  // ---------- yuarel_parse ----------

  datatype Url = Url(path: nat, query: Option<nat>, fragment: Option<nat>)

  /** The buffer holds the string `t` at `at`, if there is a `t`. */
  ghost predicate Holds(s: seq<byte>, at: Option<nat>, t: Option<seq<byte>>) {
    && (at.Some? <==> t.Some?)
    && (at.Some? ==> Terminated(s, at.value) && CStr(s, at.value) == t.value)
  }

  lemma LaidHolds(s: seq<byte>, x: seq<byte>, t: seq<byte>, y: seq<byte>)
    requires Laid(s, x, t, y)
    ensures Holds(s, Some(|x|), Some(t))
  {
    LaidReads(s, x, t, y);
  }

  /** A string that was cut off, with its terminator, and then `y`. */
  function Tail(t: Option<seq<byte>>, y: seq<byte>): seq<byte> {
    if t.Some? then t.value + [0] + y else y
  }

  /**
   * What the string `u` has become: its first '#', the first '?' before that and the first '/' before both are
   * zeros.
   */
  function ParsedBytes(u: seq<byte>): seq<byte> {
    var body := Before(u, HASH);
    Punch(Before(body, QUESTION), SLASH) + [0] + Tail(After(body, QUESTION), Tail(After(u, HASH), []))
  }

  /** One cut, and what is then read at the same place. */
  lemma CutOff(s: seq<byte>, x: seq<byte>, t: seq<byte>, y: seq<byte>, c: byte, r: seq<byte>)
    requires Laid(s, x, t, y) && r == Splice(s, |x|, Punch(t, c))
    ensures Laid(r, x, Before(t, c), Tail(After(t, c), y))
    ensures CStr(r, |x|) == Before(t, c) && Terminated(r, |x|)
  {
    LaidCut(s, x, t, y, c, r);
    BeforeAfter(t, c);
    LaidReads(r, x, Before(t, c), Tail(After(t, c), y));
  }

  /** The string after the cut, whatever happens before it. */
  lemma CutHolds(r: seq<byte>, x: seq<byte>, t: seq<byte>, y: seq<byte>, c: byte)
    requires NoZero(t) && r == x + Tail(After(t, c), y)
    ensures Holds(r, if c in t then Some(|x|) else None, After(t, c))
  {
    BeforeAfter(t, c);
    if c in t {
      assert r == x + After(t, c).value + [0] + y;
      LaidHolds(r, x, After(t, c).value, y);
    }
  }

  /** The buffer holds the parts of a URI where `url` says, the path before the query. */
  ghost predicate UrlOf(s: seq<byte>, url: Url, parts: Parts) {
    && Holds(s, Some(url.path), Some(parts.path))
    && Holds(s, url.query, parts.query) && Holds(s, url.fragment, parts.fragment)
    && (url.query.Some? ==> url.path + |parts.path| < url.query.value)
  }

  /** Parsing changes no length, and leaves the terminator. */
  lemma ParsedBytesEnd(u: seq<byte>)
    ensures |ParsedBytes(u)| == |u| + 1 && ParsedBytes(u)[|u|] == 0
  {
    hide IndexOf, Punch;
    BeforeAfter(u, HASH);
    BeforeAfter(Before(u, HASH), QUESTION);
  }

  /** Where the parser finds the parts of the string `u` at `at`. */
  function Places(at: nat, u: seq<byte>): Url {
    var body := Before(u, HASH);
    var head := Before(body, QUESTION);
    Url(if SLASH in head then at + |Before(head, SLASH)| + 1 else at, Next(at, body, QUESTION), Next(at, u, HASH))
  }

  /** The buffer after the three cuts. */
  lemma ParsedIs(r: seq<byte>, x: seq<byte>, u: seq<byte>, y: seq<byte>)
    requires NoZero(u)
    requires var body := Before(u, HASH);
             r == x + Punch(Before(body, QUESTION), SLASH) + [0] + Tail(After(body, QUESTION), Tail(After(u, HASH), y))
    ensures r == x + ParsedBytes(u) + y
    ensures UrlOf(r, Places(|x|, u), Parsed(u))
  {
    hide IndexOf, Before, After, Punch, Holds;
    var body := Before(u, HASH);
    var head := Before(body, QUESTION);
    var rest := Tail(After(body, QUESTION), Tail(After(u, HASH), y));
    BeforeAfter(u, HASH);
    BeforeAfter(body, QUESTION);
    BeforeAfter(head, SLASH);
    PathHolds(r, x, head, rest);
    CutsHold(r, x + Punch(head, SLASH) + [0], u, y);
  }

  lemma CutsHold(r: seq<byte>, upto: seq<byte>, u: seq<byte>, y: seq<byte>)
    requires NoZero(u)
    requires var body := Before(u, HASH);
             r == upto + Tail(After(body, QUESTION), Tail(After(u, HASH), y)) && NoZero(body)
    ensures var body := Before(u, HASH);
            Holds(r, if QUESTION in body then Some(|upto|) else None, After(body, QUESTION))
    ensures var body := Before(u, HASH);
            var at := |upto| + if QUESTION in body then |After(body, QUESTION).value| + 1 else 0;
            Holds(r, if HASH in u then Some(at) else None, After(u, HASH))
  {
    hide IndexOf, Before, After, Holds;
    var body := Before(u, HASH);
    CutHolds(r, upto, body, Tail(After(u, HASH), y), QUESTION);
    if QUESTION in body {
      CutHolds(r, upto + After(body, QUESTION).value + [0], u, y, HASH);
    } else {
      CutHolds(r, upto, u, y, HASH);
    }
  }

  /** The query ends inside the string. */
  lemma QueryInside(at: nat, u: seq<byte>)
    ensures var url := Places(at, u);
            url.query.Some? ==> Parsed(u).query.Some? && url.query.value + |Parsed(u).query.value| <= at + |u|
  {
    hide IndexOf;
    BeforeAfter(u, HASH);
    BeforeAfter(Before(u, HASH), QUESTION);
  }

  lemma PathHolds(r: seq<byte>, x: seq<byte>, head: seq<byte>, rest: seq<byte>)
    requires NoZero(head) && r == x + Punch(head, SLASH) + [0] + rest
    ensures Holds(r, Some(if SLASH in head then |x| + |Before(head, SLASH)| + 1 else |x|), Some(PathOf(head)))
  {
    hide IndexOf, Before, After, Punch, Holds;
    BeforeAfter(head, SLASH);
    if SLASH in head {
      assert r == (x + Before(head, SLASH) + [0]) + After(head, SLASH).value + [0] + rest;
      LaidHolds(r, x + Before(head, SLASH) + [0], After(head, SLASH).value, rest);
    } else {
      LaidHolds(r, x, head, rest);
    }
  }

  /** yuarel_parse: take off the fragment, then the query, then find the path. */
  method Parse(buf: array<byte>, at: nat) returns (url: Url)
    requires Terminated(buf[..], at)
    modifies buf
    ensures UrlOf(buf[..], url, Parsed(CStr(old(buf[..]), at))) && url == Places(at, CStr(old(buf[..]), at))
    ensures var u := CStr(old(buf[..]), at);
            Rewrote(old(buf[..]), buf[..], at, |u|, ParsedBytes(u))
  {
    hide CStr, Splice, IndexOf, Before, After, Laid, Punch, ParsedBytes, Parsed, UrlOf, Tail, PathOf;
    ghost var s0 := buf[..];
    ghost var u, x := CStr(s0, at), s0[..at];
    ghost var y := s0[at + |u| + 1..];
    ghost var body := Before(u, HASH);
    ghost var y1 := Tail(After(u, HASH), y);
    LaidAt(s0, at);
    var fragment := FindAndTerminate(buf, at, HASH);
    ghost var s1 := buf[..];
    CutOff(s0, x, u, y, HASH, s1);
    var query := FindAndTerminate(buf, at, QUESTION);
    ghost var s2 := buf[..];
    CutOff(s1, x, body, y1, QUESTION, s2);
    var path := FindAndTerminate(buf, at, SLASH);
    LaidCut(s2, x, Before(body, QUESTION), Tail(After(body, QUESTION), y1), SLASH, buf[..]);
    ParsedIs(buf[..], x, u, y);
    url := Url(if path.None? then at else path.value, query, fragment);
    assert url == Places(|x|, u);
  }
}
