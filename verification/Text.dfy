/** C strings in byte buffers, and `strchr`. */
module Text {
  import opened Bytes

  datatype Option<+T> = None | Some(value: T)

  predicate NoZero(s: seq<byte>) {
    0 !in s
  }

  /** The C string that starts at `at`. */
  function CStr(s: seq<byte>, at: nat): (t: seq<byte>)
    ensures NoZero(t)
    ensures at <= |s| ==> at + |t| <= |s| && t == s[at..at + |t|]
    decreases |s| - at
  {
    if at >= |s| || s[at] == 0 then [] else [s[at]] + CStr(s, at + 1)
  }

  /** A string laid out in a buffer is read back. */
  lemma {:induction false} CStrAt(pre: seq<byte>, t: seq<byte>, post: seq<byte>)
    requires NoZero(t)
    ensures CStr(pre + t + [0] + post, |pre|) == t
    decreases |t|
  {
    if t != [] {
      CStrAt(pre + [t[0]], t[1..], post);
      assert pre + t + [0] + post == (pre + [t[0]]) + t[1..] + [0] + post;
      assert (pre + t + [0] + post)[|pre|] == t[0] && t[0] in t;
    }
  }

  /** Position of the first `c`, or the length. */
  function IndexOf(s: seq<byte>, c: byte): (i: nat)
    ensures i <= |s|
    ensures i < |s| ==> s[i] == c
    ensures c !in s[..i]
    ensures i == |s| <==> c !in s
  {
    if s == [] then 0
    else if s[0] == c then 0
    else
      var i := IndexOf(s[1..], c);
      assert s[..1 + i] == [s[0]] + s[1..][..i];
      assert s == [s[0]] + s[1..];
      1 + i
  }

  /** `IndexOf` is determined by what it promises. */
  lemma {:induction false} IndexOfIs(s: seq<byte>, c: byte, i: nat)
    requires i < |s| && s[i] == c && c !in s[..i]
    ensures IndexOf(s, c) == i
  {
    if i > 0 {
      assert s[1..][..i - 1] == s[..i][1..];
      IndexOfIs(s[1..], c, i - 1);
    }
  }

  /** The string ends at a zero. */
  lemma {:induction false} CStrEnd(s: seq<byte>, at: nat)
    requires at <= |s|
    ensures var e := at + |CStr(s, at)|; e <= |s| && (e < |s| ==> s[e] == 0)
    decreases |s| - at
  {
    if at < |s| && s[at] != 0 {
      CStrEnd(s, at + 1);
    }
  }

  /** A terminated string does not depend on what follows it. */
  lemma {:induction false} CStrLocal(s: seq<byte>, r: seq<byte>, at: nat, end: nat)
    requires at + |CStr(s, at)| < end <= |s| && end <= |r| && s[..end] == r[..end]
    ensures CStr(r, at) == CStr(s, at)
    decreases end - at
  {
    assert s[at] == s[..end][at] == r[..end][at] == r[at];
    if s[at] != 0 {
      CStrLocal(s, r, at + 1, end);
    }
  }

  /** The `n` bytes at `at` and the one after them were replaced by `x`. */
  ghost predicate Rewrote(s: seq<byte>, r: seq<byte>, at: nat, n: nat, x: seq<byte>) {
    at + n < |s| && r == s[..at] + x + s[at + n + 1..]
  }

  lemma TakeMore<T>(t: seq<T>, k: nat)
    requires k < |t|
    ensures t[..k + 1] == t[..k] + [t[k]]
  {
  }

  lemma SetLast<T>(r: seq<T>, s: seq<T>, k: nat, v: T)
    requires k < |s| && r == s[k := v]
    ensures r[..k + 1] == s[..k] + [v] && r[k + 1..] == s[k + 1..]
  {
  }

  /** One step of a search for `c`: past another byte, or a stop. */
  lemma SearchStep(s: seq<byte>, at: nat, c: byte, i: nat)
    requires c != 0 && at <= i <= at + |CStr(s, at)| < |s| && c !in CStr(s, at)[..i - at]
    ensures s[i] != 0 && s[i] != c ==> i < at + |CStr(s, at)| && c !in CStr(s, at)[..i + 1 - at]
    ensures s[i] == c ==> c in CStr(s, at) && IndexOf(CStr(s, at), c) == i - at
    ensures s[i] == 0 ==> c !in CStr(s, at)
  {
    var t := CStr(s, at);
    CStrEnd(s, at);
    assert i < at + |t| ==> t[i - at] == s[i];
    hide CStr;
    if s[i] == 0 {
      assert t[..i - at] == t;
    } else {
      TakeMore(t, i - at);
      if s[i] == c {
        IndexOfIs(t, c, i - at);
      }
    }
  }

  /** strchr: the place of the first `c` of the string at `at`, if it has one. */
  method Strchr(buf: array<byte>, at: nat, c: byte) returns (r: Option<nat>)
    requires c != 0 && at + |CStr(buf[..], at)| < buf.Length
    ensures var t := CStr(buf[..], at);
            r == if c in t then Some(at + IndexOf(t, c)) else None
  {
    hide CStr, IndexOf;
    ghost var s := buf[..];
    var i: nat := at;
    SearchStep(s, at, c, i);
    while buf[i] != 0 && buf[i] != c
      invariant at <= i <= at + |CStr(s, at)| && c !in CStr(s, at)[..i - at]
      decreases buf.Length - i
    {
      SearchStep(s, at, c, i);
      i := i + 1;
    }
    SearchStep(s, at, c, i);
    r := if buf[i] == c then Some(i) else None;
  }
}
