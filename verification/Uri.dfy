/** lwnbd_get_context: from a URI to a context, by parsing it in place. */
module Uri {
  import opened Bytes
  import opened Text
  import opened Split
  import opened Yuarel
  import opened Query
  import opened Contexts

  const AMPERSAND: byte := 38
  const MAX_QUERY: nat := 3

  /** The pairs of a query that is there and not empty. */
  function PairsOf(query: Option<seq<byte>>): seq<Pair> {
    if query.None? || query.value == [] then [] else Cuts(SplitN(query.value, AMPERSAND, MAX_QUERY))
  }

  /** The count a plugin gets with them. */
  function CountOf(query: Option<seq<byte>>): int {
    if query.None? || query.value == [] then -1 else |PairsOf(query)|
  }

  /** What a URI comes to; `NullPlugin` if the code calls through the null plugin of the context it found. */
  datatype Resolution = Resolved(k: nat) | Unresolved | NullPlugin

  /** The context a URI names, unless there is none or its plugin refuses the query. */
  function Resolve(cs: seq<Context>, uri: seq<byte>): (r: Resolution)
    ensures r.Resolved? ==> r.k < |cs| && cs[r.k].plugin.Some?
  {
    match FirstMatch(cs, Parsed(uri).path)
    case None => Unresolved
    case Some(k) =>
      if cs[k].plugin.None? then NullPlugin
      else if Refuses(cs[k].plugin.value, Parsed(uri).query) then Unresolved
      else Resolved(k)
  }

  function Refuses(p: Plugin, query: Option<seq<byte>>): bool {
    p.query.Some? && p.query.value(PairsOf(query), CountOf(query)) != 0
  }

  /** The pool after a lookup: a resolved context has its size updated. */
  function Updated(cs: seq<Context>, uri: seq<byte>): seq<Context> {
    match Resolve(cs, uri)
    case Resolved(k) => cs[k := cs[k].(exportsize := cs[k].plugin.value.getSize(PairsOf(Parsed(uri).query)))]
    case _ => cs
  }

  // ---------- The null plugin ----------

  /** The code calls through a null plugin exactly if the first context of the path's name has none. */
  lemma NullPluginIff(cs: seq<Context>, uri: seq<byte>, k: nat)
    requires FirstMatch(cs, Parsed(uri).path) == Some(k)
    ensures Resolve(cs, uri).NullPlugin? <==> cs[k].plugin.None?
    ensures cs[k].name == Parsed(uri).path && Unnamed(cs[..k], Parsed(uri).path)
  {
    FirstMatchIff(cs, Parsed(uri).path, k);
  }

  /**
   * In a session, whose own unnamed context comes after registered ones that have their plugins, the code calls
   * through a null plugin exactly for the URIs with an empty path, unless a registered context is unnamed.
   */
  lemma SessionNullPlugin(cs: seq<Context>, uri: seq<byte>)
    requires forall k :: 0 <= k < |cs| ==> cs[k].plugin.Some?
    ensures Resolve(cs + [Blank], uri).NullPlugin? <==> Parsed(uri).path == [] && Unnamed(cs, [])
  {
    var path := Parsed(uri).path;
    hide Parsed;
    LaterRegistrations(cs, [Blank], path);
    FirstMatchIff(cs, path, 0);
    assert [Blank][1..] == [];
  }

  /** And those are the URIs of nothing, or of no more than one '/' at the end, before any query or fragment. */
  lemma EmptyPathIff(uri: seq<byte>)
    ensures var head := Before(Before(uri, HASH), QUESTION);
            Parsed(uri).path == [] <==>
            head == [] || (head[|head| - 1] == SLASH && SLASH !in head[..|head| - 1])
  {
    var head := Before(Before(uri, HASH), QUESTION);
    BeforeAfter(head, SLASH);
    if head != [] && head[|head| - 1] == SLASH && SLASH !in head[..|head| - 1] {
      IndexOfIs(head, SLASH, |head| - 1);
    }
  }

  /** Such as a '/' alone. */
  lemma SlashIsNullPlugin(cs: seq<Context>)
    requires (forall k :: 0 <= k < |cs| ==> cs[k].plugin.Some?) && Unnamed(cs, [])
    ensures Resolve(cs + [Blank], [SLASH]).NullPlugin?
  {
    NothingToCut([SLASH], HASH);
    NothingToCut([SLASH], QUESTION);
    EmptyPathIff([SLASH]);
    SessionNullPlugin(cs, [SLASH]);
  }

  /** Sizes are not names: later lookups are not affected. */
  lemma {:induction false} SameNames(cs: seq<Context>, ds: seq<Context>, name: seq<byte>)
    requires |cs| == |ds| && forall k :: 0 <= k < |cs| ==> cs[k].name == ds[k].name
    ensures FirstMatch(cs, name) == FirstMatch(ds, name)
    decreases |cs|
  {
    if cs != [] {
      SameNames(cs[1..], ds[1..], name);
    }
  }

  /** Parameters that fit a query in which the delimiter is '&'. */
  ghost predicate Sendable(ps: seq<Pair>) {
    && 0 < |ps| <= MAX_QUERY && Join(Uncuts(ps), AMPERSAND) != []
    && forall k :: 0 <= k < |ps| ==> Clean(ps[k], AMPERSAND) && NoHash(ps[k])
  }

  predicate NoHash(p: Pair) {
    HASH !in p.key && (p.val.Some? ==> HASH !in p.val.value)
  }

  lemma {:induction false} JoinWithout(parts: seq<seq<byte>>, d: byte, c: byte)
    requires parts != [] && c != d && forall k :: 0 <= k < |parts| ==> c !in parts[k]
    ensures c !in Join(parts, d)
    decreases |parts|
  {
    if |parts| > 1 {
      JoinWithout(parts[1..], d, c);
    }
  }

  /**
   * The URI of a name, parameters and any fragment: it finds what the name itself finds, and the plugin is asked with
   * exactly those parameters.
   */
  lemma UriFindsName(cs: seq<Context>, name: seq<byte>, ps: seq<Pair>, fragment: Option<seq<byte>>)
    requires SLASH !in name && QUESTION !in name && HASH !in name && Sendable(ps)
    ensures var uri := Split.Uri(Parts(name, Some(Join(Uncuts(ps), AMPERSAND)), fragment));
            && Parsed(uri).path == name && FirstMatch(cs, Parsed(uri).path) == FirstMatch(cs, name)
            && PairsOf(Parsed(uri).query) == ps && CountOf(Parsed(uri).query) == |ps|
  {
    var query := Join(Uncuts(ps), AMPERSAND);
    forall k | 0 <= k < |ps|
      ensures HASH !in Uncuts(ps)[k]
    {
    }
    JoinWithout(Uncuts(ps), AMPERSAND, HASH);
    hide Parsed, Split.Uri, Join, SplitN, Uncuts, Cuts;
    UriRoundTrip(Parts(name, Some(query), fragment));
    PairsRoundTrip(ps, AMPERSAND, MAX_QUERY);
  }

  /** The query hook, if there is one, answers the parameters with 0. */
  predicate Accepts(p: Plugin, ps: seq<Pair>, count: int) {
    p.query.None? || p.query.value(ps, count) == 0
  }

  /** The first context of that name is the `k`-th, and it has a plugin, which accepts the parameters. */
  ghost predicate Offered(cs: seq<Context>, name: seq<byte>, ps: seq<Pair>, count: int, k: nat) {
    && k < |cs| && cs[k].name == name && Unnamed(cs[..k], name)
    && cs[k].plugin.Some? && Accepts(cs[k].plugin.value, ps, count)
  }

  /** `now` is `cs` with the size that the `k`-th context's plugin gives for the parameters. */
  ghost predicate Resized(cs: seq<Context>, now: seq<Context>, ps: seq<Pair>, k: nat)
    requires k < |cs| && cs[k].plugin.Some?
  {
    && |now| == |cs| && (forall j :: 0 <= j < |cs| && j != k ==> now[j] == cs[j])
    && now[k] == Context(cs[k].name, cs[k].description, cs[k].plugin, cs[k].plugin.value.getSize(ps))
  }

  /**
   * A URI leads to a context exactly if that is the first of its name, has a plugin, and the plugin accepts the
   * parameters; then that context alone gets a new size, and otherwise none.
   */
  lemma ResolvesIff(cs: seq<Context>, uri: seq<byte>, k: nat)
    ensures var parts := Parsed(uri);
            var ps, count := PairsOf(parts.query), CountOf(parts.query);
            && (Resolve(cs, uri) == Resolved(k) <==> Offered(cs, parts.path, ps, count, k))
            && (Resolve(cs, uri) == Resolved(k) ==> Resized(cs, Updated(cs, uri), ps, k))
    ensures !Resolve(cs, uri).Resolved? ==> Updated(cs, uri) == cs
  {
    hide Parsed, PairsOf, CountOf, FirstMatch, Unnamed;
    FirstMatchIff(cs, Parsed(uri).path, k);
  }

  /** So the URI of a name and parameters leads exactly where the name does, if the plugin accepts just those. */
  lemma UriResolvesIff(cs: seq<Context>, name: seq<byte>, ps: seq<Pair>, fragment: Option<seq<byte>>, k: nat)
    requires SLASH !in name && QUESTION !in name && HASH !in name && Sendable(ps)
    ensures var uri := Split.Uri(Parts(name, Some(Join(Uncuts(ps), AMPERSAND)), fragment));
            && (Resolve(cs, uri) == Resolved(k) <==> Offered(cs, name, ps, |ps|, k))
            && (Resolve(cs, uri) == Resolved(k) ==> Resized(cs, Updated(cs, uri), ps, k))
            && (!Resolve(cs, uri).Resolved? ==> Updated(cs, uri) == cs)
  {
    hide Parsed, Split.Uri, Join, Uncuts, PairsOf, CountOf, Resolve, Updated, Offered, Resized;
    UriFindsName(cs, name, ps, fragment);
    ResolvesIff(cs, Split.Uri(Parts(name, Some(Join(Uncuts(ps), AMPERSAND)), fragment)), k);
  }

  /** And without a query, or with an empty one, if it accepts none and a count of -1. */
  lemma BareResolvesIff(cs: seq<Context>, name: seq<byte>, query: Option<seq<byte>>, fragment: Option<seq<byte>>,
                        k: nat)
    requires SLASH !in name && QUESTION !in name && HASH !in name && (query.Some? ==> query.value == [])
    ensures var uri := Split.Uri(Parts(name, query, fragment));
            && (Resolve(cs, uri) == Resolved(k) <==> Offered(cs, name, [], -1, k))
            && (Resolve(cs, uri) == Resolved(k) ==> Resized(cs, Updated(cs, uri), [], k))
            && (!Resolve(cs, uri).Resolved? ==> Updated(cs, uri) == cs)
  {
    hide Parsed, Split.Uri, Resolve, Updated, Offered, Resized;
    UriRoundTrip(Parts(name, query, fragment));
    ResolvesIff(cs, Split.Uri(Parts(name, query, fragment)), k);
  }

  /** The strings at the places of the parameters. */
  function ReadPairs(s: seq<byte>, ps: seq<Param>): (pairs: seq<Pair>)
    ensures |pairs| == |ps|
  {
    if ps == [] then []
    else ReadPairs(s, Init(ps)) + [var p := ps[|ps| - 1];
                                         Pair(CStr(s, p.key), if p.val.Some? then Some(CStr(s, p.val.value)) else None)]
  }

  lemma {:induction false} ReadsPairs(s: seq<byte>, ps: seq<Param>, pairs: seq<Pair>)
    requires Reads(s, ps, pairs)
    ensures ReadPairs(s, ps) == pairs
    decreases |ps|
  {
    if ps != [] {
      ReadsInit(s, ps, pairs);
      hide Reads;
      ReadsPairs(s, Init(ps), Init(pairs));
    }
  }

  lemma ReadsInit(s: seq<byte>, ps: seq<Param>, pairs: seq<Pair>)
    requires Reads(s, ps, pairs) && ps != []
    ensures pairs != [] && Reads(s, Init(ps), Init(pairs))
    ensures var p := ps[|ps| - 1];
            pairs == Init(pairs) + [Pair(CStr(s, p.key), if p.val.Some? then Some(CStr(s, p.val.value)) else None)]
  {
    LastPair(s, ps[|ps| - 1], pairs[|ps| - 1]);
    hide HoldsPair;
  }

  lemma LastPair(s: seq<byte>, p: Param, pair: Pair)
    requires HoldsPair(s, p, pair)
    ensures Pair(CStr(s, p.key), if p.val.Some? then Some(CStr(s, p.val.value)) else None) == pair
  {
  }

  /** The path is read as before: the query lies after it. */
  lemma PathKept(s: seq<byte>, r: seq<byte>, url: Url, parts: Parts)
    requires UrlOf(s, url, parts)
    requires url.query.Some? ==> Kept(s, r, url.query.value)
    requires url.query.None? ==> r == s
    ensures CStr(r, url.path) == parts.path
  {
    if url.query.Some? {
      CStrLocal(s, r, url.path, url.query.value);
    }
  }

  /** Nothing before `upto` changed. */
  ghost predicate Kept(s: seq<byte>, r: seq<byte>, upto: nat) {
    upto <= |s| && upto <= |r| && r[..upto] == s[..upto]
  }

  lemma KeptBefore(s: seq<byte>, r: seq<byte>, at: nat, n: nat, x: seq<byte>)
    requires Rewrote(s, r, at, n, x)
    ensures Kept(s, r, at)
  {
  }

  lemma KeptSame(s: seq<byte>, upto: nat)
    requires Terminated(s, upto)
    ensures Kept(s, s, upto)
  {
  }

  /** Nothing from `from` on changed. */
  ghost predicate KeptFrom(s: seq<byte>, r: seq<byte>, from: nat) {
    from <= |s| == |r| && r[from..] == s[from..]
  }

  /** A string of the buffer was replaced by bytes of the same length that end in zero, as it did. */
  lemma KeptEnd(s: seq<byte>, r: seq<byte>, at: nat, n: nat, x: seq<byte>)
    requires at + n < |s| && s[at + n] == 0 && |x| == n + 1 && x[n] == 0
    requires Rewrote(s, r, at, n, x)
    ensures KeptFrom(s, r, at + n)
  {
    hide KeptFrom;
    LastZero(x, n);
    EndKept(s, s[..at], x[..n], 0, s[at + n + 1..], at + n);
  }

  lemma ZeroAt(s: seq<byte>, at: nat)
    requires Terminated(s, at)
    ensures s[at + |CStr(s, at)|] == 0
  {
    CStrEnd(s, at);
  }

  lemma LastZero(x: seq<byte>, n: nat)
    requires |x| == n + 1 && x[n] == 0
    ensures x == x[..n] + [0]
  {
  }

  lemma EndKept(s: seq<byte>, a: seq<byte>, x: seq<byte>, z: byte, y: seq<byte>, n: nat)
    requires n == |a| + |x| < |s| && s[n] == z && y == s[n + 1..]
    ensures KeptFrom(s, a + (x + [z]) + y, n)
  {
    assert a + (x + [z]) + y == (a + x) + ([z] + y);
    assert s[n..] == [z] + y;
  }

  lemma KeptAll(s: seq<byte>, at: nat)
    requires Terminated(s, at)
    ensures KeptFrom(s, s, at + |CStr(s, at)|)
  {
    hide CStr;
  }

  lemma KeptFurther(s: seq<byte>, r: seq<byte>, from: nat, later: nat)
    requires KeptFrom(s, r, from) && from <= later <= |s|
    ensures KeptFrom(s, r, later)
  {
    assert r[later..] == r[from..][later - from..] && s[later..] == s[from..][later - from..];
  }

  lemma UrlQuery(s: seq<byte>, url: Url, parts: Parts)
    requires UrlOf(s, url, parts)
    ensures url.query.Some? <==> parts.query.Some?
    ensures url.query.Some? ==> Terminated(s, url.query.value) && CStr(s, url.query.value) == parts.query.value
  {
  }

  /** The parameters of a query and their count. */
  method Params(uri: array<byte>, query: Option<nat>) returns (pairs: seq<Pair>, pa: int)
    requires query.Some? ==> Terminated(uri[..], query.value)
    modifies uri
    ensures var q := if query.Some? then Some(CStr(old(uri[..]), query.value)) else None;
            pairs == PairsOf(q) && pa == CountOf(q)
    ensures if query.Some? then Kept(old(uri[..]), uri[..], query.value) else uri[..] == old(uri[..])
    ensures query.Some? ==> KeptFrom(old(uri[..]), uri[..], query.value + |CStr(old(uri[..]), query.value)|)
  {
    hide CStr, Reads, SplitN, Cuts, Layout, Rewrote, Kept, KeptFrom, ReadPairs;
    var params := new Param[MAX_QUERY](_ => Param(0, None));
    ghost var s := uri[..];
    pa := ParseQuery(uri, query, AMPERSAND, params, MAX_QUERY);
    if pa < 0 {
      if query.Some? {
        KeptSame(s, query.value);
        KeptAll(s, query.value);
      }
      return [], pa;
    }
    ghost var at, q := query.value, CStr(s, query.value);
    KeptBefore(s, uri[..], at, |q|, Layout(SplitN(q, AMPERSAND, MAX_QUERY)));
    SplitIsSplit(q, AMPERSAND, MAX_QUERY);
    LayoutEnd(SplitN(q, AMPERSAND, MAX_QUERY), AMPERSAND);
    ZeroAt(s, at);
    KeptEnd(s, uri[..], at, |q|, Layout(SplitN(q, AMPERSAND, MAX_QUERY)));
    ReadsPairs(uri[..], params[..pa], Cuts(SplitN(q, AMPERSAND, MAX_QUERY)));
    pairs := ReadPairs(uri[..], params[..pa]);
  }

  /** The path and the parameters of the URI at the start of the buffer. */
  method Ask(uri: array<byte>) returns (path: seq<byte>, pairs: seq<Pair>, pa: int)
    requires Terminated(uri[..], 0)
    modifies uri
    ensures var parts := Parsed(CStr(old(uri[..]), 0));
            path == parts.path && pairs == PairsOf(parts.query) && pa == CountOf(parts.query)
    ensures KeptFrom(old(uri[..]), uri[..], |CStr(old(uri[..]), 0)|)
  {
    hide CStr, Parsed, ParsedBytes, Places, UrlOf, PairsOf, CountOf, Rewrote, Kept, KeptFrom;
    ghost var s0, u := uri[..], CStr(uri[..], 0);
    var url := Parse(uri, 0);
    ghost var s := uri[..];
    ParsedBytesEnd(u);
    ZeroAt(s0, 0);
    KeptEnd(s0, s, 0, |u|, ParsedBytes(u));
    UrlQuery(s, url, Parsed(u));
    QueryInside(0, u);
    pairs, pa := Params(uri, url.query);
    PathKept(s, uri[..], url, Parsed(u));
    KeptTwice(s0, s, uri[..], url.query, Parsed(u).query, |u|);
    path := CStr(uri[..], url.path);
  }

  lemma KeptTwice(s0: seq<byte>, s: seq<byte>, r: seq<byte>, query: Option<nat>, q: Option<seq<byte>>, n: nat)
    requires KeptFrom(s0, s, n) && (query.Some? <==> q.Some?)
    requires query.Some? ==> query.value + |q.value| <= n && KeptFrom(s, r, query.value + |q.value|)
    requires query.None? ==> r == s
    ensures KeptFrom(s0, r, n)
  {
    if query.Some? {
      KeptFurther(s, r, query.value + |q.value|, n);
    }
  }

  /** lwnbd_get_context, for the URI at the start of the buffer; nothing is changed past its end. */
  method GetContext(pool: Pool, uri: array<byte>) returns (c: Resolution)
    requires pool.Valid() && Terminated(uri[..], 0)
    modifies uri, pool.contexts
    ensures pool.Valid() && pool.made == old(pool.made)
    ensures var u := CStr(old(uri[..]), 0);
            c == Resolve(old(pool.Contexts()), u) && pool.Contexts() == Updated(old(pool.Contexts()), u)
    ensures KeptFrom(old(uri[..]), uri[..], |CStr(old(uri[..]), 0)|)
  {
    hide CStr, Parsed, FirstMatch, PairsOf, CountOf, KeptFrom;
    ghost var cs := pool.Contexts();
    var path, pairs, pa := Ask(uri);
    var k := pool.Lookup(path);
    if k.None? {
      return Unresolved;
    }
    if pool.contexts[k.value].plugin.None? {
      return NullPlugin;
    }
    var p := pool.contexts[k.value].plugin.value;
    if p.query.Some? && p.query.value(pairs, pa) != 0 {
      return Unresolved;
    }
    pool.contexts[k.value] := pool.contexts[k.value].(exportsize := p.getSize(pairs));
    c := Resolved(k.value);
  }
}
