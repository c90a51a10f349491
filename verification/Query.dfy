/** yuarel_parse_query: a query split in place into parameters. */
module Query {
  import opened Bytes
  import opened Text
  import opened Split
  import opened Yuarel

  /** A parameter as the caller gets it: places in the buffer; no value is NULL. */
  datatype Param = Param(key: nat, val: Option<nat>)

  /** What the buffer holds in place of a query: each part cut at its '=', and terminated. */
  function Layout(parts: seq<seq<byte>>): seq<byte> {
    if parts == [] then [] else Layout(Init(parts)) + Punch(parts[|parts| - 1], EQUALS) + [0]
  }

  function Slot(at: nat, part: seq<byte>): Param {
    Param(at, Next(at, part, EQUALS))
  }

  /** The places of the parts laid out from `at` on. */
  function Slots(at: nat, parts: seq<seq<byte>>): (ps: seq<Param>)
    ensures |ps| == |parts|
  {
    if parts == [] then [] else Slots(at, Init(parts)) + [Slot(at + |Layout(Init(parts))|, parts[|parts| - 1])]
  }

  /** The buffer holds the pair where `p` says. */
  ghost predicate HoldsPair(s: seq<byte>, p: Param, pair: Pair) {
    Holds(s, Some(p.key), Some(pair.key)) && Holds(s, p.val, pair.val)
  }

  /** The parameters read as the pairs. */
  ghost predicate Reads(s: seq<byte>, ps: seq<Param>, pairs: seq<Pair>) {
    |ps| == |pairs| && forall k :: 0 <= k < |ps| ==> HoldsPair(s, ps[k], pairs[k])
  }

  ghost predicate AllStrings(parts: seq<seq<byte>>) {
    forall k :: 0 <= k < |parts| ==> NoZero(parts[k])
  }

  lemma SlotHolds(s: seq<byte>, x: seq<byte>, part: seq<byte>, y: seq<byte>)
    requires NoZero(part) && s == x + Punch(part, EQUALS) + [0] + y
    ensures HoldsPair(s, Slot(|x|, part), Cut(part))
  {
    hide IndexOf, Before, After, Punch, Holds;
    BeforeAfter(part, EQUALS);
    if EQUALS in part {
      var key, val := Before(part, EQUALS), After(part, EQUALS).value;
      assert s == x + key + [0] + (val + [0] + y);
      assert s == (x + key + [0]) + val + [0] + y;
      LaidHolds(s, x, key, val + [0] + y);
      LaidHolds(s, x + key + [0], val, y);
    } else {
      LaidHolds(s, x, part, y);
      assert Holds(s, None, None) by { NoneHolds(s); }
    }
  }

  lemma NoneHolds(s: seq<byte>)
    ensures Holds(s, None, None)
  {
  }

  /** Splitting changes no length, and leaves the terminator. */
  lemma {:induction false} LayoutEnd(parts: seq<seq<byte>>, d: byte)
    requires parts != []
    ensures |Layout(parts)| == |Join(parts, d)| + 1 && Layout(parts)[|Layout(parts)| - 1] == 0
    decreases |parts|
  {
    hide Punch;
    if |parts| > 1 {
      LayoutEnd(Init(parts), d);
      JoinSnoc(parts, d);
    } else {
      assert Init(parts) == [];
    }
  }

  lemma {:induction false} JoinSnoc(parts: seq<seq<byte>>, d: byte)
    requires |parts| > 1
    ensures |Join(parts, d)| == |Join(Init(parts), d)| + 1 + |parts[|parts| - 1]|
    decreases |parts|
  {
    if |parts| > 2 {
      JoinSnoc(parts[1..], d);
      assert Init(parts)[1..] == Init(parts[1..]);
    }
  }

  lemma LaidLast(x: seq<byte>, a: seq<byte>, p: seq<byte>, z: seq<byte>, y: seq<byte>)
    ensures x + (a + p + z) + y == x + a + (p + z + y) == x + a + p + z + y
  {
  }

  /** One more part, where its slot says. */
  lemma ReadsMore(s: seq<byte>, at: nat, parts: seq<seq<byte>>)
    requires parts != [] && Reads(s, Slots(at, Init(parts)), Cuts(Init(parts)))
    requires HoldsPair(s, Slot(at + |Layout(Init(parts))|, parts[|parts| - 1]), Cut(parts[|parts| - 1]))
    ensures Reads(s, Slots(at, parts), Cuts(parts))
  {
    hide Slot, Cut, HoldsPair, Layout;
  }

  /** Parts laid out in a buffer read as the pairs they are. */
  lemma {:induction false} SlotsRead(s: seq<byte>, x: seq<byte>, parts: seq<seq<byte>>, y: seq<byte>)
    requires AllStrings(parts) && s == x + Layout(parts) + y
    ensures Reads(s, Slots(|x|, parts), Cuts(parts))
    decreases |parts|
  {
    hide Punch, Slot, Slots, Cut, Cuts, HoldsPair;
    if parts != [] {
      var init, last := Init(parts), parts[|parts| - 1];
      LaidLast(x, Layout(init), Punch(last, EQUALS), [0], y);
      SlotsRead(s, x, init, Punch(last, EQUALS) + [0] + y);
      SlotHolds(s, x + Layout(init), last, y);
      ReadsMore(s, |x|, parts);
    } else {
      NoneRead(s, |x|);
    }
  }

  lemma NoneRead(s: seq<byte>, at: nat)
    ensures Reads(s, Slots(at, []), Cuts([]))
  {
  }

  // ---------- The loop ----------

  /** Between two turns: `done` laid out after `x`, then the rest of the query. */
  ghost predicate Splitting(s: seq<byte>, x: seq<byte>, done: seq<seq<byte>>, rest: seq<byte>, y: seq<byte>) {
    AllStrings(done) && Laid(s, x + Layout(done), rest, y)
  }

  lemma LayoutMore(parts: seq<seq<byte>>, part: seq<byte>)
    ensures Layout(parts + [part]) == Layout(parts) + Punch(part, EQUALS) + [0]
  {
    assert Init(parts + [part]) == parts;
  }

  lemma StringsMore(parts: seq<seq<byte>>, part: seq<byte>)
    requires AllStrings(parts) && NoZero(part)
    ensures AllStrings(parts + [part])
  {
  }

  lemma Regroup(x: seq<byte>, a: seq<byte>, b: seq<byte>, y: seq<byte>)
    ensures (x + a) + b + [0] + y == x + (a + b + [0]) + y
    ensures |x + a| == |x| + |a|
  {
  }

  /** The last part is the rest. */
  lemma SplitLast(s: seq<byte>, x: seq<byte>, done: seq<seq<byte>>, rest: seq<byte>, y: seq<byte>, r: seq<byte>)
    requires Splitting(s, x, done, rest, y) && r == Splice(s, |x| + |Layout(done)|, Punch(rest, EQUALS))
    ensures AllStrings(done + [rest]) && r == x + Layout(done + [rest]) + y
  {
    hide Punch, IndexOf, Layout, AllStrings, Splice;
    Regroup(x, Layout(done), Punch(rest, EQUALS), y);
    LaidCut(s, x + Layout(done), rest, y, EQUALS, r);
    StringsMore(done, rest);
    LayoutMore(done, rest);
  }

  /** A delimiter found: the part before it is complete, and is cut next. */
  lemma PartFound(s: seq<byte>, x: seq<byte>, done: seq<seq<byte>>, rest: seq<byte>, y: seq<byte>, d: byte,
                  r: seq<byte>)
    requires Splitting(s, x, done, rest, y) && d in rest
    requires r == Splice(s, |x| + |Layout(done)|, Punch(rest, d))
    ensures Splitting(r, x, done, Before(rest, d), After(rest, d).value + [0] + y)
    ensures NoZero(After(rest, d).value)
    ensures Next(|x| + |Layout(done)|, rest, d) == Some(|x| + |Layout(done)| + |Before(rest, d)| + 1)
  {
    hide Punch, IndexOf, Layout, AllStrings, Splice;
    Regroup(x, Layout(done), Punch(rest, d), y);
    LaidCut(s, x + Layout(done), rest, y, d, r);
    BeforeAfter(rest, d);
  }

  /** The part cut: the rest of the query stands after it. */
  lemma PartCut(s: seq<byte>, x: seq<byte>, done: seq<seq<byte>>, part: seq<byte>, rest: seq<byte>, y: seq<byte>,
                r: seq<byte>)
    requires Splitting(s, x, done, part, rest + [0] + y) && NoZero(rest)
    requires r == Splice(s, |x| + |Layout(done)|, Punch(part, EQUALS))
    ensures Splitting(r, x, done + [part], rest, y)
    ensures |Layout(done + [part])| == |Layout(done)| + |part| + 1
  {
    hide Punch, IndexOf, Layout, AllStrings, Splice;
    SplitLast(s, x, done, part, rest + [0] + y, r);
    LayoutMore(done, part);
    Regroup3(x + Layout(done + [part]), rest, y);
  }

  lemma Regroup3(x: seq<byte>, rest: seq<byte>, y: seq<byte>)
    ensures x + (rest + [0] + y) == x + rest + [0] + y
  {
  }

  lemma SlotsMore(at: nat, parts: seq<seq<byte>>, part: seq<byte>)
    ensures Slots(at, parts + [part]) == Slots(at, parts) + [Slot(at + |Layout(parts)|, part)]
  {
    assert Init(parts + [part]) == parts;
  }

  lemma StandsAt(s: seq<byte>, x: seq<byte>, done: seq<seq<byte>>, rest: seq<byte>, y: seq<byte>)
    requires Splitting(s, x, done, rest, y)
    ensures Terminated(s, |x| + |Layout(done)|) && CStr(s, |x| + |Layout(done)|) == rest
  {
    hide CStr, Layout, AllStrings, Terminated;
    LaidReads(s, x + Layout(done), rest, y);
    assert |x + Layout(done)| == |x| + |Layout(done)|;
  }

  /** One turn of the loop: look for the delimiter, and if there is one start a parameter after it and cut the last. */
  method SplitTurn(buf: array<byte>, cur: nat, delimiter: byte, params: array<Param>, i: nat,
                   ghost x: seq<byte>, ghost done: seq<seq<byte>>, ghost rest: seq<byte>, ghost y: seq<byte>)
    returns (next: Option<nat>)
    requires delimiter != 0 && 0 < i < params.Length && cur == |x| + |Layout(done)| == params[i - 1].key
    requires Splitting(buf[..], x, done, rest, y)
    modifies buf, params
    ensures next.Some? <==> delimiter in rest
    ensures next.None? ==> buf[..] == old(buf[..]) && params[..] == old(params[..])
    ensures next.Some? ==>
              var part := Before(rest, delimiter);
              && Splitting(buf[..], x, done + [part], After(rest, delimiter).value, y)
              && next.value == |x| + |Layout(done + [part])|
              && params[..] == old(params[..])[i - 1 := Slot(cur, part)][i := Param(next.value, None)]
  {
    hide CStr, Splice, IndexOf, Before, After, Punch, Layout, Splitting;
    ghost var s := buf[..];
    StandsAt(s, x, done, rest, y);
    next := FindAndTerminate(buf, cur, delimiter);
    if next.None? {
      NothingFound(s, cur, rest, delimiter);
      return;
    }
    params[i] := Param(next.value, None);
    PartFound(s, x, done, rest, y, delimiter, buf[..]);
    ghost var part, after := Before(rest, delimiter), After(rest, delimiter).value;
    s := buf[..];
    StandsAt(s, x, done, part, after + [0] + y);
    var val := FindAndTerminate(buf, params[i - 1].key, EQUALS);
    params[i - 1] := params[i - 1].(val := val);
    PartCut(s, x, done, part, after, y, buf[..]);
  }

  lemma NothingFound(s: seq<byte>, at: nat, t: seq<byte>, c: byte)
    requires at + |t| <= |s| && t == s[at..at + |t|] && c !in t
    ensures Splice(s, at, Punch(t, c)) == s
  {
  }

  /** The rest of it, for a query that is there. */
  method SplitFrom(buf: array<byte>, at: nat, delimiter: byte, params: array<Param>, max: nat) returns (r: int)
    requires Terminated(buf[..], at) && delimiter != 0 && 0 < max <= params.Length && params[0].key == at
    modifies buf, params
    ensures var q := CStr(old(buf[..]), at);
            var parts := SplitN(q, delimiter, max);
            && r == |parts|
            && Rewrote(old(buf[..]), buf[..], at, |q|, Layout(parts))
            && Reads(buf[..], params[..r], Cuts(parts)) && params[r..] == old(params[r..])
  {
    hide CStr, Splice, IndexOf, Before, After, Punch, SplitN, Layout, Splitting, Reads, Cuts, Slots;
    ghost var s, q := buf[..], CStr(buf[..], at);
    ghost var x, y := s[..at], s[at + |q| + 1..];
    ghost var done: seq<seq<byte>>, rest := [], q;
    LaidAt(s, at);
    StartSplit(s, x, q, y);
    var i, cur := 1, at;
    while i < max
      invariant 0 < i == |done| + 1 <= max && cur == at + |Layout(done)| == params[i - 1].key
      invariant Splitting(buf[..], x, done, rest, y)
      invariant SplitN(q, delimiter, max) == done + SplitN(rest, delimiter, max - |done|)
      invariant params[..i - 1] == Slots(at, done) && params[i..] == old(params[i..])
    {
      SplitStep(q, delimiter, max, done, rest);
      var next := SplitTurn(buf, cur, delimiter, params, i, x, done, rest, y);
      if next.None? {
        break;
      }
      SlotsMore(at, done, Before(rest, delimiter));
      done, rest := done + [Before(rest, delimiter)], After(rest, delimiter).value;
      i, cur := i + 1, next.value;
    }
    SplitStep(q, delimiter, max, done, rest);
    CutRest(buf, cur, params, i, x, done, rest, y);
    r := i;
  }

  /** Go back and cut the last parameter. */
  method CutRest(buf: array<byte>, cur: nat, params: array<Param>, i: nat,
                 ghost x: seq<byte>, ghost done: seq<seq<byte>>, ghost rest: seq<byte>, ghost y: seq<byte>)
    requires 0 < i == |done| + 1 <= params.Length && cur == |x| + |Layout(done)| == params[i - 1].key
    requires Splitting(buf[..], x, done, rest, y) && params[..i - 1] == Slots(|x|, done)
    modifies buf, params
    ensures buf[..] == x + Layout(done + [rest]) + y
    ensures Reads(buf[..], params[..i], Cuts(done + [rest])) && params[i..] == old(params[i..])
  {
    hide CStr, Splice, IndexOf, Before, After, Punch, SplitN, Layout, Splitting, Reads, Cuts, Slots;
    ghost var s, ps := buf[..], params[..];
    StandsAt(s, x, done, rest, y);
    var val := FindAndTerminate(buf, params[i - 1].key, EQUALS);
    params[i - 1] := params[i - 1].(val := val);
    assert params[..] == ps[i - 1 := Slot(cur, rest)];
    SplitLast(s, x, done, rest, y, buf[..]);
    SlotsMore(|x|, done, rest);
    SetLast(params[..], ps, i - 1, Slot(cur, rest));
    SlotsRead(buf[..], x, done + [rest], y);
  }

  /**
   * yuarel_parse_query: split the query at the delimiter into at most `max` parts, each cut at its first '='. The
   * parameters read as those pairs, and the buffer differs from the old one only in the zeros of `Layout`.
   */
  method ParseQuery(buf: array<byte>, query: Option<nat>, delimiter: byte, params: array<Param>,
                    max: nat) returns (r: int)
    requires query.Some? ==> Terminated(buf[..], query.value)
    requires delimiter != 0 && 0 < max <= params.Length
    modifies buf, params
    ensures query.None? || CStr(old(buf[..]), query.value) == [] ==>
              r == -1 && buf[..] == old(buf[..]) && params[..] == old(params[..])
    ensures query.Some? && CStr(old(buf[..]), query.value) != [] ==>
              var at, q := query.value, CStr(old(buf[..]), query.value);
              var parts := SplitN(q, delimiter, max);
              && r == |parts|
              && Rewrote(old(buf[..]), buf[..], at, |q|, Layout(parts))
              && Reads(buf[..], params[..r], Cuts(parts)) && params[r..] == old(params[r..])
  {
    hide CStr, Splice, IndexOf, Before, After, Punch, SplitN, Layout, Splitting, Reads, Cuts, Slots;
    FirstByte(buf[..], query);
    if query.None? || buf[query.value] == 0 {
      return -1;
    }
    params[0] := params[0].(key := query.value);
    r := SplitFrom(buf, query.value, delimiter, params, max);
  }

  lemma StartSplit(s: seq<byte>, x: seq<byte>, q: seq<byte>, y: seq<byte>)
    requires Laid(s, x, q, y)
    ensures Splitting(s, x, [], q, y) && Layout([]) == [] && Slots(|x|, []) == []
  {
    assert x + Layout([]) == x;
  }
}
