/** yuarel_split_path: a path split in place at its slashes. */
module PathSplit {
  import opened Bytes
  import opened Text
  import opened Split
  import opened Yuarel

  /** The nonempty parts between slashes. */
  function Segments(t: seq<byte>): seq<seq<byte>>
    decreases |t|
  {
    if t == [] then []
    else if t[0] == SLASH then Segments(t[1..])
    else if SLASH in t then [Before(t, SLASH)] + Segments(After(t, SLASH).value)
    else [t]
  }

  /** Slashes only separate: any number of them, anywhere. */
  lemma {:induction false} SegmentsJoin(a: seq<byte>, b: seq<byte>)
    ensures Segments(a + [SLASH] + b) == Segments(a) + Segments(b)
    decreases |a|
  {
    hide IndexOf, Before, After;
    var t := a + [SLASH] + b;
    assert t[|a|] == SLASH;
    if a == [] {
      assert t[1..] == b;
    } else if a[0] == SLASH {
      assert t[1..] == a[1..] + [SLASH] + b;
      SegmentsJoin(a[1..], b);
    } else if SLASH in a {
      BeforeAfter(a, SLASH);
      var rest := After(a, SLASH).value;
      assert t == Before(a, SLASH) + [SLASH] + (rest + [SLASH] + b);
      CutBack(Before(a, SLASH), SLASH, rest + [SLASH] + b);
      SegmentsJoin(rest, b);
    } else {
      CutBack(a, SLASH, b);
    }
  }

  predicate IsWord(w: seq<byte>) {
    w != [] && SLASH !in w
  }

  /** Segments are nonempty and free of slashes. */
  lemma {:induction false} SegmentsAreWords(t: seq<byte>)
    ensures forall k :: 0 <= k < |Segments(t)| ==> IsWord(Segments(t)[k])
    decreases |t|
  {
    if t != [] {
      if t[0] == SLASH {
        SegmentsAreWords(t[1..]);
      } else if SLASH in t {
        SegmentsAreWords(After(t, SLASH).value);
      }
    }
  }

  /** Words joined by slashes come back. */
  lemma {:induction false} WordsRoundTrip(words: seq<seq<byte>>)
    requires words != [] && forall k :: 0 <= k < |words| ==> IsWord(words[k])
    ensures Segments(Join(words, SLASH)) == words
    decreases |words|
  {
    if |words| > 1 {
      WordsRoundTrip(words[1..]);
      SegmentsJoin(words[0], Join(words[1..], SLASH));
    }
  }

  /** The places hold the words, all of them before `limit`. */
  ghost predicate HoldsWords(s: seq<byte>, places: seq<Option<nat>>, words: seq<seq<byte>>, limit: nat) {
    && |places| == |words|
    && forall k :: 0 <= k < |places| ==>
         places[k].Some? && CStr(s, places[k].value) == words[k] && places[k].value + |words[k]| < limit
  }

  /** Only slashes of the string at `at` became zeros. */
  ghost predicate OnlySlashes(s: seq<byte>, r: seq<byte>, at: nat, len: nat) {
    && |r| == |s|
    && forall k :: 0 <= k < |s| ==> r[k] == s[k] || (r[k] == 0 && s[k] == SLASH && at <= k < at + len)
  }

  // ---------- The loop ----------

  /** Between two steps: `done` found, `t` still to be split at `cur`. */
  ghost predicate PathState(s0: seq<byte>, s: seq<byte>, at: nat, t0: seq<byte>, cur: nat, t: seq<byte>,
                            places: seq<Option<nat>>, done: seq<seq<byte>>) {
    && OnlySlashes(s0, s, at, |t0|)
    && Terminated(s, cur) && CStr(s, cur) == t && at <= cur && cur + |t| == at + |t0|
    && Segments(t0) == done + Segments(t) && HoldsWords(s, places, done, cur)
  }

  lemma PathStart(s: seq<byte>, at: nat)
    requires Terminated(s, at)
    ensures PathState(s, s, at, CStr(s, at), at, CStr(s, at), [], [])
  {
  }

  /** Forward over a slash. */
  lemma SkipSlash(s0: seq<byte>, s: seq<byte>, at: nat, t0: seq<byte>, cur: nat, t: seq<byte>,
                  places: seq<Option<nat>>, done: seq<seq<byte>>)
    requires PathState(s0, s, at, t0, cur, t, places, done) && s[cur] == SLASH
    ensures t != [] && PathState(s0, s, at, t0, cur + 1, t[1..], places, done)
  {
    hide OnlySlashes;
  }

  /** Earlier words are not touched by a later cut. */
  lemma WordsKept(s: seq<byte>, r: seq<byte>, places: seq<Option<nat>>, done: seq<seq<byte>>, cur: nat)
    requires HoldsWords(s, places, done, cur) && cur <= |s| && cur <= |r| && s[..cur] == r[..cur]
    ensures HoldsWords(r, places, done, cur)
  {
    hide CStr;
    forall k | 0 <= k < |places|
      ensures CStr(r, places[k].value) == done[k]
    {
      CStrLocal(s, r, places[k].value, cur);
    }
  }

  lemma WordsMore(s: seq<byte>, places: seq<Option<nat>>, done: seq<seq<byte>>, cur: nat, w: seq<byte>, limit: nat)
    requires HoldsWords(s, places, done, cur) && CStr(s, cur) == w && cur + |w| < limit
    ensures HoldsWords(s, places + [Some(cur)], done + [w], limit)
  {
    hide CStr;
  }

  lemma SlashOnly(s0: seq<byte>, s: seq<byte>, at: nat, n: nat, k: nat)
    requires OnlySlashes(s0, s, at, n) && at <= k < at + n && k < |s| && s[k] == SLASH
    ensures OnlySlashes(s0, s[k := 0], at, n)
  {
  }

  /** A word with a slash after it, cut there. */
  lemma CutWord(s0: seq<byte>, s: seq<byte>, at: nat, t0: seq<byte>, cur: nat, t: seq<byte>,
                places: seq<Option<nat>>, done: seq<seq<byte>>, r: seq<byte>, w: seq<byte>, rest: seq<byte>)
    requires PathState(s0, s, at, t0, cur, t, places, done) && t != [] && t[0] != SLASH
    requires r == Splice(s, cur, Punch(t, SLASH)) && w == Before(t, SLASH) && After(t, SLASH) == Some(rest)
    ensures PathState(s0, r, at, t0, cur + |w| + 1, rest, places + [Some(cur)], done + [w])
  {
    hide CStr, IndexOf, Before, After, Splice, Punch, OnlySlashes, Segments, HoldsWords, Terminated;
    CutHere(s, cur, t, r, w, rest);
    SlashOnly(s0, s, at, |t0|, cur + |w|);
    WordsKept(s, r, places, done, cur);
    WordsMore(r, places, done, cur, w, cur + |w| + 1);
    Reassociate(done, w, Segments(rest));
  }

  lemma Reassociate(done: seq<seq<byte>>, w: seq<byte>, more: seq<seq<byte>>)
    ensures done + ([w] + more) == (done + [w]) + more
  {
  }

  /** One byte changes, and two strings stand where there was one. */
  lemma CutHere(s: seq<byte>, cur: nat, t: seq<byte>, r: seq<byte>, w: seq<byte>, rest: seq<byte>)
    requires Terminated(s, cur) && CStr(s, cur) == t && t != [] && t[0] != SLASH
    requires r == Splice(s, cur, Punch(t, SLASH)) && w == Before(t, SLASH) && After(t, SLASH) == Some(rest)
    ensures Segments(t) == [w] + Segments(rest) && |w| + 1 + |rest| == |t|
    ensures cur + |w| < |s| && s[cur + |w|] == SLASH && r == s[cur + |w| := 0]
    ensures |r| == |s| && r[..cur] == s[..cur]
    ensures CStr(r, cur) == w && Terminated(r, cur + |w| + 1) && CStr(r, cur + |w| + 1) == rest
  {
    hide CStr, IndexOf, Before, After, Splice, Punch, Segments;
    FirstSegment(t);
    CutByte(s, cur, t, r);
    LaidAt(s, cur);
    CutReads(s, s[..cur], t, s[cur + |t| + 1..], r, w, rest);
    CutKeeps(s, cur, cur + |w|);
  }

  lemma FirstSegment(t: seq<byte>)
    requires t != [] && t[0] != SLASH && SLASH in t
    ensures Segments(t) == [Before(t, SLASH)] + Segments(After(t, SLASH).value)
    ensures |Before(t, SLASH)| + 1 + |After(t, SLASH).value| == |t|
  {
  }

  /** The cut is one byte. */
  lemma CutByte(s: seq<byte>, cur: nat, t: seq<byte>, r: seq<byte>)
    requires cur + |t| < |s| && t == s[cur..cur + |t|] && SLASH in t
    requires r == Splice(s, cur, Punch(t, SLASH))
    ensures var k := cur + |Before(t, SLASH)|; k < |s| && s[k] == SLASH && r == s[k := 0]
  {
    hide IndexOf;
    PunchedAt(s, cur, t, SLASH);
    assert t[IndexOf(t, SLASH)] == s[cur + IndexOf(t, SLASH)];
  }

  lemma CutKeeps(s: seq<byte>, cur: nat, k: nat)
    requires cur <= k < |s|
    ensures s[k := 0][..cur] == s[..cur]
  {
  }

  lemma CutReads(s: seq<byte>, x: seq<byte>, t: seq<byte>, y: seq<byte>, r: seq<byte>, w: seq<byte>, rest: seq<byte>)
    requires Laid(s, x, t, y) && r == Splice(s, |x|, Punch(t, SLASH))
    requires w == Before(t, SLASH) && After(t, SLASH) == Some(rest)
    ensures CStr(r, |x|) == w && Terminated(r, |x| + |w| + 1) && CStr(r, |x| + |w| + 1) == rest
  {
    hide CStr, IndexOf, Before, After, Splice, Punch, Laid, Terminated;
    LaidCut(s, x, t, y, SLASH, r);
    LaidReads(r, x, w, rest + [0] + y);
    ReadsAt(r, x, w, rest, y);
  }

  lemma ReadsAt(r: seq<byte>, x: seq<byte>, w: seq<byte>, rest: seq<byte>, y: seq<byte>)
    requires Laid(r, x + w + [0], rest, y)
    ensures CStr(r, |x| + |w| + 1) == rest && Terminated(r, |x| + |w| + 1)
  {
    hide CStr, Laid, Terminated;
    LaidReads(r, x + w + [0], rest, y);
    assert |x + w + [0]| == |x| + |w| + 1;
  }

  /** The last word, with no slash after it. */
  lemma LastWord(s0: seq<byte>, s: seq<byte>, at: nat, t0: seq<byte>, cur: nat, t: seq<byte>,
                 places: seq<Option<nat>>, done: seq<seq<byte>>, r: seq<byte>)
    requires PathState(s0, s, at, t0, cur, t, places, done) && t != [] && SLASH !in t
    requires r == Splice(s, cur, Punch(t, SLASH))
    ensures done + [t] == Segments(t0)
    ensures HoldsWords(r, places + [Some(cur)], done + [t], at + |t0| + 1) && OnlySlashes(s0, r, at, |t0|)
  {
    hide PathState, HoldsWords, OnlySlashes, Segments, CStr;
    StringHere(s0, s, at, t0, cur, t, places, done);
    UncutSame(s, cur, t);
    LastPlace(s0, s, at, t0, cur, t, places, done);
  }

  lemma LastPlace(s0: seq<byte>, s: seq<byte>, at: nat, t0: seq<byte>, cur: nat, t: seq<byte>,
                  places: seq<Option<nat>>, done: seq<seq<byte>>)
    requires PathState(s0, s, at, t0, cur, t, places, done) && t != [] && SLASH !in t
    ensures done + [t] == Segments(t0)
    ensures HoldsWords(s, places + [Some(cur)], done + [t], at + |t0| + 1) && OnlySlashes(s0, s, at, |t0|)
  {
    hide CStr, OnlySlashes;
    assert t[0] in t;
    WordsMore(s, places, done, cur, t, at + |t0| + 1);
  }

  lemma TakeAll<T>(s: seq<T>)
    ensures s == s[..|s|]
  {
  }

  lemma WordHere(s0: seq<byte>, s: seq<byte>, at: nat, t0: seq<byte>, cur: nat, t: seq<byte>,
                 places: seq<Option<nat>>, done: seq<seq<byte>>)
    requires PathState(s0, s, at, t0, cur, t, places, done) && cur < |s| && s[cur] != 0 && s[cur] != SLASH
    ensures Terminated(s, cur) && CStr(s, cur) == t && t != [] && t[0] != SLASH
  {
    hide OnlySlashes, HoldsWords, Segments;
  }

  lemma StringHere(s0: seq<byte>, s: seq<byte>, at: nat, t0: seq<byte>, cur: nat, t: seq<byte>,
                   places: seq<Option<nat>>, done: seq<seq<byte>>)
    requires PathState(s0, s, at, t0, cur, t, places, done)
    ensures Terminated(s, cur) && CStr(s, cur) == t && cur <= at + |t0| < |s|
  {
    hide OnlySlashes, HoldsWords, Segments, CStr;
  }

  /** Some of the words, all of which end inside the string. */
  lemma Stopped(s0: seq<byte>, s: seq<byte>, at: nat, t0: seq<byte>, cur: nat, t: seq<byte>,
                places: seq<Option<nat>>, done: seq<seq<byte>>)
    requires PathState(s0, s, at, t0, cur, t, places, done)
    ensures |done| <= |Segments(t0)| && done == Segments(t0)[..|done|]
    ensures HoldsWords(s, places, done, at + |t0| + 1) && OnlySlashes(s0, s, at, |t0|)
  {
    hide OnlySlashes, Segments, CStr;
    assert (done + Segments(t))[..|done|] == done;
  }

  /** All of the words. */
  lemma NoMore(s0: seq<byte>, s: seq<byte>, at: nat, t0: seq<byte>, cur: nat, t: seq<byte>,
               places: seq<Option<nat>>, done: seq<seq<byte>>)
    requires PathState(s0, s, at, t0, cur, t, places, done) && cur < |s| && s[cur] == 0
    ensures done == Segments(t0) == Segments(t0)[..|done|]
    ensures HoldsWords(s, places, done, at + |t0| + 1) && OnlySlashes(s0, s, at, |t0|)
  {
    Stopped(s0, s, at, t0, cur, t, places, done);
    hide OnlySlashes, HoldsWords;
    assert Segments(t) == [];
  }

  lemma UncutSame(s: seq<byte>, at: nat, t: seq<byte>)
    requires at + |t| <= |s| && t == s[at..at + |t|] && SLASH !in t
    ensures Splice(s, at, Punch(t, SLASH)) == s
  {
  }

  /** Forward to after slashes. */
  method SkipSlashes(buf: array<byte>, from: nat, ghost s0: seq<byte>, ghost at: nat, ghost t0: seq<byte>,
                     ghost t: seq<byte>, ghost places: seq<Option<nat>>, ghost done: seq<seq<byte>>)
    returns (path: nat, ghost rest: seq<byte>)
    requires PathState(s0, buf[..], at, t0, from, t, places, done)
    ensures path < buf.Length && buf[path] != SLASH && PathState(s0, buf[..], at, t0, path, rest, places, done)
  {
    hide PathState;
    ghost var s := buf[..];
    path, rest := from, t;
    StringHere(s0, s, at, t0, path, rest, places, done);
    while buf[path] == SLASH
      invariant PathState(s0, s, at, t0, path, rest, places, done) && path < buf.Length
      decreases |rest|
    {
      SkipSlash(s0, s, at, t0, path, rest, places, done);
      path, rest := path + 1, rest[1..];
      StringHere(s0, s, at, t0, path, rest, places, done);
    }
  }

  method SplitWords(buf: array<byte>, at: nat, parts: array<Option<nat>>, max: nat) returns (i: nat)
    requires Terminated(buf[..], at) && 0 < max <= parts.Length
    modifies buf, parts
    ensures var t := CStr(old(buf[..]), at);
            && i == (if |Segments(t)| < max then |Segments(t)| else max)
            && HoldsWords(buf[..], parts[..i], Segments(t)[..i], at + |t| + 1)
            && OnlySlashes(old(buf[..]), buf[..], at, |t|)
    ensures forall k :: i <= k < parts.Length ==> parts[k] == old(parts[k])
  {
    hide CStr, Segments, HoldsWords, OnlySlashes, PathState, IndexOf, Before, After, Punch, Splice;
    ghost var s0, t0 := buf[..], CStr(buf[..], at);
    ghost var t, done: seq<seq<byte>> := t0, [];
    var path: nat := at;
    i := 0;
    PathStart(s0, at);
    var again := true;
    while again
      invariant i == |done| <= max && (again <==> i < max)
      invariant PathState(s0, buf[..], at, t0, path, t, parts[..i], done)
      invariant forall k :: i <= k < parts.Length ==> parts[k] == old(parts[k])
      decreases max - i
    {
      path, t := SkipSlashes(buf, path, s0, at, t0, t, parts[..i], done);
      if buf[path] == 0 {
        NoMore(s0, buf[..], at, t0, path, t, parts[..i], done);
        return;
      }
      ghost var s, places, ps := buf[..], parts[..i], parts[..];
      WordHere(s0, s, at, t0, path, t, places, done);
      parts[i] := Some(path);
      SetLast(parts[..], ps, i, Some(path));
      i := i + 1;
      var next := FindAndTerminate(buf, path, SLASH);
      if next.None? {
        LastWord(s0, s, at, t0, path, t, places, done, buf[..]);
        TakeAll(Segments(t0));
        return;
      }
      CutWord(s0, s, at, t0, path, t, places, done, buf[..], Before(t, SLASH), After(t, SLASH).value);
      done, t := done + [Before(t, SLASH)], After(t, SLASH).value;
      path, again := next.value, i < max;
    }
    Stopped(s0, buf[..], at, t0, path, t, parts[..i], done);
  }

  method SplitPath(buf: array<byte>, path: Option<nat>, parts: array<Option<nat>>, max: nat) returns (r: int)
    requires path.Some? ==> Terminated(buf[..], path.value)
    requires 0 < max <= parts.Length
    modifies buf, parts
    ensures path.None? || CStr(old(buf[..]), path.value) == [] ==>
              r == -1 && buf[..] == old(buf[..]) && parts[..] == old(parts[..])
    ensures path.Some? && CStr(old(buf[..]), path.value) != [] ==>
              var at, t := path.value, CStr(old(buf[..]), path.value);
              && r == (if |Segments(t)| < max then |Segments(t)| else max)
              && HoldsWords(buf[..], parts[..r], Segments(t)[..r], at + |t| + 1)
              && (forall k :: r <= k < parts.Length ==> parts[k] == old(parts[k]))
              && OnlySlashes(old(buf[..]), buf[..], at, |t|)
  {
    hide CStr, Segments, HoldsWords, OnlySlashes;
    FirstByte(buf[..], path);
    if path.None? || buf[path.value] == 0 {
      r := -1;
      return;
    }
    r := SplitWords(buf, path.value, parts, max);
  }
}
