/** Splitting a string at separators: what the in-place parsers compute, as functions on values. */
module Split {
  import opened Bytes
  import opened Text

  /** The part before the first `c`, or everything. */
  function Before(t: seq<byte>, c: byte): seq<byte> {
    t[..IndexOf(t, c)]
  }

  /** The part after the first `c`, if there is one. */
  function After(t: seq<byte>, c: byte): (rest: Option<seq<byte>>)
    ensures rest.Some? <==> c in t
  {
    if c in t then Some(t[IndexOf(t, c) + 1..]) else None
  }

  lemma BeforeAfter(t: seq<byte>, c: byte)
    ensures c !in Before(t, c)
    ensures c in t ==> t == Before(t, c) + [c] + After(t, c).value
    ensures c !in t ==> t == Before(t, c)
    ensures NoZero(t) ==> NoZero(Before(t, c)) && (c in t ==> NoZero(After(t, c).value))
  {
  }

  /** A string put together at its first `c` is taken apart there. */
  lemma CutBack(a: seq<byte>, c: byte, b: seq<byte>)
    requires c !in a
    ensures Before(a + [c] + b, c) == a && After(a + [c] + b, c) == Some(b)
  {
    var t := a + [c] + b;
    assert t[|a|] == c && t[..|a|] == a;
    IndexOfIs(t, c, |a|);
  }

  lemma NothingToCut(a: seq<byte>, c: byte)
    requires c !in a
    ensures Before(a, c) == a && After(a, c) == None
  {
  }

  // ---------- A limited split ----------

  /** At most `n` parts of `q` between `d`; the last of `n` keeps the rest unsplit. */
  function SplitN(q: seq<byte>, d: byte, n: nat): (parts: seq<seq<byte>>)
    requires n > 0
    ensures 0 < |parts| <= n
    decreases n
  {
    if n == 1 || d !in q then [q] else [Before(q, d)] + SplitN(After(q, d).value, d, n - 1)
  }

  function Join(parts: seq<seq<byte>>, d: byte): seq<byte>
    requires parts != []
  {
    if |parts| == 1 then parts[0] else parts[0] + [d] + Join(parts[1..], d)
  }

  /** `parts` is a split of `q` that stopped only at the limit. */
  ghost predicate IsSplit(parts: seq<seq<byte>>, q: seq<byte>, d: byte, n: nat) {
    && 0 < |parts| <= n && Join(parts, d) == q
    && (forall k :: 0 <= k < |parts| - 1 ==> d !in parts[k])
    && (|parts| < n ==> d !in parts[|parts| - 1])
  }

  /** There is exactly one such split, and `SplitN` is it. */
  lemma {:induction false} SplitIff(q: seq<byte>, d: byte, n: nat, parts: seq<seq<byte>>)
    requires n > 0
    ensures IsSplit(parts, q, d, n) <==> parts == SplitN(q, d, n)
    decreases n
  {
    SplitIsSplit(q, d, n);
    if IsSplit(parts, q, d, n) {
      SplitUnique(q, d, n, parts);
    }
  }

  lemma {:induction false} SplitIsSplit(q: seq<byte>, d: byte, n: nat)
    requires n > 0
    ensures IsSplit(SplitN(q, d, n), q, d, n)
    decreases n
  {
    if n > 1 && d in q {
      var rest := After(q, d).value;
      BeforeAfter(q, d);
      SplitIsSplit(rest, d, n - 1);
      assert SplitN(q, d, n)[1..] == SplitN(rest, d, n - 1);
    }
  }

  lemma {:induction false} SplitUnique(q: seq<byte>, d: byte, n: nat, parts: seq<seq<byte>>)
    requires n > 0 && IsSplit(parts, q, d, n)
    ensures parts == SplitN(q, d, n)
    decreases n
  {
    hide IsSplit;
    if |parts| > 1 {
      SplitTail(parts, q, d, n);
      SplitUnique(Join(parts[1..], d), d, n - 1, parts[1..]);
      ConsSplit(parts[0], d, Join(parts[1..], d), n);
    } else {
      SplitWhole(parts, q, d, n);
    }
  }

  lemma SplitTail(parts: seq<seq<byte>>, q: seq<byte>, d: byte, n: nat)
    requires IsSplit(parts, q, d, n) && |parts| > 1
    ensures n > 1 && d !in parts[0] && IsSplit(parts[1..], Join(parts[1..], d), d, n - 1)
    ensures q == parts[0] + [d] + Join(parts[1..], d) && parts == [parts[0]] + parts[1..]
  {
    var rest := parts[1..];
    assert forall k :: 0 <= k < |rest| ==> rest[k] == parts[k + 1];
  }

  lemma SplitWhole(parts: seq<seq<byte>>, q: seq<byte>, d: byte, n: nat)
    requires IsSplit(parts, q, d, n) && |parts| <= 1
    ensures n > 0 && parts == [q] && (n == 1 || d !in q)
  {
  }

  lemma ConsSplit(a: seq<byte>, d: byte, b: seq<byte>, n: nat)
    requires n > 1 && d !in a
    ensures SplitN(a + [d] + b, d, n) == [a] + SplitN(b, d, n - 1)
  {
    hide IndexOf, Before, After;
    CutBack(a, d, b);
    assert (a + [d] + b)[|a|] == d;
  }

  /** Splitting off one more part. */
  lemma SplitStep(q: seq<byte>, d: byte, n: nat, done: seq<seq<byte>>, rest: seq<byte>)
    requires n > |done| && SplitN(q, d, n) == done + SplitN(rest, d, n - |done|)
    ensures n > |done| + 1 && d in rest ==>
              SplitN(q, d, n) == (done + [Before(rest, d)]) + SplitN(After(rest, d).value, d, n - |done| - 1)
    ensures n == |done| + 1 || d !in rest ==> SplitN(q, d, n) == done + [rest]
  {
  }

  // ---------- Parameters ----------

  const EQUALS: byte := 61

  /** A query parameter; `None` is a key without '='. */
  datatype Pair = Pair(key: seq<byte>, val: Option<seq<byte>>)

  /** A part of a query, cut at its first '='. */
  function Cut(part: seq<byte>): Pair {
    Pair(Before(part, EQUALS), After(part, EQUALS))
  }

  function Uncut(p: Pair): seq<byte> {
    if p.val.Some? then p.key + [EQUALS] + p.val.value else p.key
  }

  function Cuts(parts: seq<seq<byte>>): (ps: seq<Pair>)
    ensures |ps| == |parts| && forall k :: 0 <= k < |parts| ==> ps[k] == Cut(parts[k])
  {
    if parts == [] then [] else [Cut(parts[0])] + Cuts(parts[1..])
  }

  function Uncuts(ps: seq<Pair>): (parts: seq<seq<byte>>)
    ensures |parts| == |ps| && forall k :: 0 <= k < |ps| ==> parts[k] == Uncut(ps[k])
  {
    if ps == [] then [] else [Uncut(ps[0])] + Uncuts(ps[1..])
  }

  /** A pair that can be written in a query with delimiter `d`. */
  predicate Clean(p: Pair, d: byte) {
    EQUALS !in p.key && d !in p.key && (p.val.Some? ==> d !in p.val.value)
  }

  /** No part of a query is lost by cutting it. */
  lemma UncutCut(part: seq<byte>)
    ensures Uncut(Cut(part)) == part
  {
    BeforeAfter(part, EQUALS);
  }

  lemma CutUncut(p: Pair)
    requires EQUALS !in p.key
    ensures Cut(Uncut(p)) == p
  {
    if p.val.Some? {
      CutBack(p.key, EQUALS, p.val.value);
    } else {
      NothingToCut(p.key, EQUALS);
    }
  }

  /** Up to `n` clean pairs joined by `d` come back unchanged. */
  lemma PairsRoundTrip(ps: seq<Pair>, d: byte, n: nat)
    requires 0 < |ps| <= n && d != EQUALS && forall k :: 0 <= k < |ps| ==> Clean(ps[k], d)
    ensures Cuts(SplitN(Join(Uncuts(ps), d), d, n)) == ps
  {
    var parts := Uncuts(ps);
    forall k | 0 <= k < |ps|
      ensures d !in parts[k] && Cut(parts[k]) == ps[k]
    {
      CutUncut(ps[k]);
    }
    SplitUnique(Join(parts, d), d, n, parts);
  }

  /** Any query is the join of the pairs it was split into. */
  lemma QueryIsItsPairs(q: seq<byte>, d: byte, n: nat)
    requires n > 0
    ensures Join(Uncuts(Cuts(SplitN(q, d, n))), d) == q
  {
    var parts := SplitN(q, d, n);
    SplitIsSplit(q, d, n);
    forall k | 0 <= k < |parts|
      ensures Uncuts(Cuts(parts))[k] == parts[k]
    {
      UncutCut(parts[k]);
    }
    SameItems(Uncuts(Cuts(parts)), parts);
  }

  // ---------- URIs ----------

  const HASH: byte := 35
  const QUESTION: byte := 63
  const SLASH: byte := 47

  /** The parts of a URI. */
  datatype Parts = Parts(path: seq<byte>, query: Option<seq<byte>>, fragment: Option<seq<byte>>)

  /** A path is what follows the first '/', or everything. */
  function PathOf(t: seq<byte>): seq<byte> {
    if SLASH in t then After(t, SLASH).value else t
  }

  /** The fragment is taken off first, then the query, then the path is found. */
  function Parsed(u: seq<byte>): Parts {
    var body := Before(u, HASH);
    Parts(PathOf(Before(body, QUESTION)), After(body, QUESTION), After(u, HASH))
  }

  function Suffix(c: byte, o: Option<seq<byte>>): seq<byte> {
    if o.Some? then [c] + o.value else []
  }

  /** A URI written from its parts. */
  function Uri(p: Parts): seq<byte> {
    p.path + Suffix(QUESTION, p.query) + Suffix(HASH, p.fragment)
  }

  /** Parts that can be written: only the fragment may hold anything. */
  predicate Writable(p: Parts) {
    SLASH !in p.path && QUESTION !in p.path && HASH !in p.path && (p.query.Some? ==> HASH !in p.query.value)
  }

  /** A URI written from its parts parses to those parts. */
  lemma UriRoundTrip(p: Parts)
    requires Writable(p)
    ensures Parsed(Uri(p)) == p
  {
    hide IndexOf, Before, After;
    var body := p.path + Suffix(QUESTION, p.query);
    assert HASH !in body;
    TakeApart(body, HASH, p.fragment);
    TakeApart(p.path, QUESTION, p.query);
    NothingToCut(p.path, SLASH);
  }

  lemma TakeApart(a: seq<byte>, c: byte, o: Option<seq<byte>>)
    requires c !in a
    ensures Before(a + Suffix(c, o), c) == a && After(a + Suffix(c, o), c) == o
  {
    if o.Some? {
      CutBack(a, c, o.value);
      assert a + Suffix(c, o) == a + [c] + o.value;
    } else {
      assert a + Suffix(c, o) == a;
      NothingToCut(a, c);
    }
  }

  /** What precedes the path: up to the first '/' before any '?' or '#'. */
  function Lead(u: seq<byte>): seq<byte> {
    var head := Before(Before(u, HASH), QUESTION);
    if SLASH in head then Before(head, SLASH) + [SLASH] else []
  }

  lemma Regrouped(a: seq<byte>, b: seq<byte>, c: seq<byte>, d: seq<byte>)
    ensures a + b + c + d == a + (b + c + d)
  {
  }

  /** Every URI is what precedes its path, and then its parts: nothing else is lost. */
  lemma ParsedKeepsAll(u: seq<byte>)
    ensures u == Lead(u) + Uri(Parsed(u))
  {
    hide IndexOf, Before, After;
    var body := Before(u, HASH);
    var head := Before(body, QUESTION);
    BeforeAfter(head, SLASH);
    assert head == Lead(u) + PathOf(head);
    PutTogether(body, QUESTION);
    PutTogether(u, HASH);
    Regrouped(Lead(u), PathOf(head), Suffix(QUESTION, After(body, QUESTION)), Suffix(HASH, After(u, HASH)));
  }

  /**
   * `u` is `lead`, which ends with the only '/' it holds, and then the parts; the path has no '/' if there is no
   * lead.
   */
  ghost predicate IsParse(u: seq<byte>, lead: seq<byte>, p: Parts) {
    && u == lead + Uri(p)
    && (if lead == [] then SLASH !in p.path else lead[|lead| - 1] == SLASH && SLASH !in lead[..|lead| - 1])
    && QUESTION !in lead + p.path && HASH !in lead + p.path && (p.query.Some? ==> HASH !in p.query.value)
  }

  /** A URI has one parse only. */
  lemma ParsedIff(u: seq<byte>, p: Parts)
    ensures Parsed(u) == p <==> exists lead :: IsParse(u, lead, p)
  {
    if Parsed(u) == p {
      ParsedIsParse(u);
    }
    if lead :| IsParse(u, lead, p) {
      ParseIsParsed(u, lead, p);
    }
  }

  lemma ParsedIsParse(u: seq<byte>)
    ensures IsParse(u, Lead(u), Parsed(u))
  {
    hide IndexOf, Before, After;
    var body := Before(u, HASH);
    var head := Before(body, QUESTION);
    ParsedKeepsAll(u);
    BeforeAfter(u, HASH);
    BeforeAfter(body, QUESTION);
    BeforeAfter(head, SLASH);
    assert Lead(u) + PathOf(head) == head;
  }

  lemma ParseIsParsed(u: seq<byte>, lead: seq<byte>, p: Parts)
    requires IsParse(u, lead, p)
    ensures Parsed(u) == p
  {
    hide IndexOf, Before, After;
    var head := lead + p.path;
    var body := head + Suffix(QUESTION, p.query);
    assert HASH !in body && u == body + Suffix(HASH, p.fragment);
    TakeApart(body, HASH, p.fragment);
    TakeApart(head, QUESTION, p.query);
    if lead == [] {
      assert head == p.path;
    } else {
      var n := |lead| - 1;
      assert head == lead[..n] + [SLASH] + p.path && head[n] == SLASH;
      CutBack(lead[..n], SLASH, p.path);
    }
  }

  lemma PutTogether(t: seq<byte>, c: byte)
    ensures t == Before(t, c) + Suffix(c, After(t, c))
  {
    BeforeAfter(t, c);
  }
}
