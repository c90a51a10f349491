/** Byte sequences, the splice that every write performs, and pages laid end to end. */
module Bytes {

  type byte = x: int | 0 <= x < 256

  /** `s` with `data` written over it from index `at` on. */
  function Splice<T>(s: seq<T>, at: nat, data: seq<T>): (r: seq<T>)
    requires at + |data| <= |s|
    ensures |r| == |s|
  {
    s[..at] + data + s[at + |data|..]
  }

  /** `after` is `before` with `data` written over it at `at`, inside its bounds. */
  ghost predicate IsSplice<T>(before: seq<T>, after: seq<T>, at: nat, data: seq<T>) {
    at + |data| <= |before| && after == Splice(before, at, data)
  }

  lemma SpliceIndex<T>(s: seq<T>, at: nat, data: seq<T>, k: nat)
    requires at + |data| <= |s| && k < |s|
    ensures Splice(s, at, data)[k] == if at <= k < at + |data| then data[k - at] else s[k]
  {
  }

  /** Two splices that meet end to end are one splice. */
  lemma SpliceJoin<T>(s: seq<T>, at: nat, a: seq<T>, b: seq<T>)
    requires at + |a| + |b| <= |s|
    ensures Splice(Splice(s, at, a), at + |a|, b) == Splice(s, at, a + b)
  {
  }

  /** Writing one element inside the spliced part. */
  lemma SpliceSet<T>(s: seq<T>, at: nat, data: seq<T>, j: nat, v: T)
    requires at + |data| <= |s| && j < |data|
    ensures Splice(s, at, data)[at + j] == data[j]
    ensures Splice(s, at, data)[at + j := v] == Splice(s, at, data[j := v])
  {
  }

  lemma SpliceNothing<T>(s: seq<T>, at: nat)
    requires at <= |s|
    ensures Splice(s, at, []) == s
  {
  }

  lemma SliceJoin<T>(s: seq<T>, lo: nat, mid: nat, hi: nat)
    requires lo <= mid <= hi <= |s|
    ensures s[lo..mid] + s[mid..hi] == s[lo..hi]
  {
  }

  lemma Associate<T>(a: seq<T>, b: seq<T>, c: seq<T>)
    ensures a + b + c == a + (b + c)
  {
  }

  /** All but the last. */
  function Init<T>(s: seq<T>): seq<T>
    requires s != []
  {
    s[..|s| - 1]
  }

  /** memcpy into `dst`, starting at index `at`. */
  method Copy(dst: array<byte>, at: nat, src: seq<byte>)
    requires at + |src| <= dst.Length
    modifies dst
    ensures dst[..] == Splice(old(dst[..]), at, src)
  {
    forall k | 0 <= k < |src| {
      dst[at + k] := src[k];
    }
  }

  // ---------- Pages of equal size, laid end to end ----------

  function Flat<T>(ps: seq<seq<T>>): seq<T> {
    if ps == [] then [] else ps[0] + Flat(ps[1..])
  }

  ghost predicate AllSized(ps: seq<seq<byte>>, size: nat) {
    forall k :: 0 <= k < |ps| ==> |ps[k]| == size
  }

  /** The length of `n` items of `size` units each. */
  function Span(n: nat, size: nat): nat {
    n * size
  }

  lemma SpanAdd(a: nat, b: nat, size: nat)
    ensures Span(a, size) + Span(b, size) == Span(a + b, size)
  {
  }

  lemma SpanFits(a: nat, b: nat, n: nat, size: nat)
    requires a + b <= n
    ensures Span(a, size) + Span(b, size) == Span(a + b, size) <= Span(n, size)
  {
    SpanAdd(a + b, n - a - b, size);
  }

  lemma SpanOne(size: nat)
    ensures Span(1, size) == size && Span(0, size) == 0
  {
  }

  /** The quotient misses the operand by the remainder. */
  lemma DivMod(x: nat, d: nat)
    requires d > 0
    ensures Span(x / d, d) + x % d == x
  {
    assert x == d * (x / d) + x % d;
  }

  predicate HasPage(s: seq<byte>, size: nat, k: nat) {
    Span(k, size) <= Span(k + 1, size) <= |s|
  }

  /** The `k`-th run of `size` bytes. */
  function PageAt(s: seq<byte>, size: nat, k: nat): (p: seq<byte>)
    requires HasPage(s, size, k)
    ensures |p| == size
  {
    s[Span(k, size)..Span(k + 1, size)]
  }

  /** The first `n` pages of a byte buffer. */
  function Chop(s: seq<byte>, size: nat, n: nat): (ps: seq<seq<byte>>)
    requires Span(n, size) <= |s|
    ensures |ps| == n && AllSized(ps, size)
  {
    if n == 0 then [] else Chop(s, size, n - 1) + [s[Span(n - 1, size)..Span(n, size)]]
  }

  lemma {:induction false} ChopAt(s: seq<byte>, size: nat, n: nat, k: nat)
    requires Span(n, size) <= |s| && k < n
    ensures HasPage(s, size, k) && Chop(s, size, n)[k] == PageAt(s, size, k)
  {
    SpanFits(k, 1, n, size);
    if k < n - 1 {
      SpanFits(n - 1, 1, n, size);
      ChopAt(s, size, n - 1, k);
    }
  }

  lemma {:induction false} FlatLength(ps: seq<seq<byte>>, size: nat)
    requires AllSized(ps, size)
    ensures |Flat(ps)| == Span(|ps|, size)
  {
    if ps != [] {
      FlatLength(ps[1..], size);
      SpanAdd(|ps| - 1, 1, size);
    }
  }

  lemma {:induction false} FlatConcat<T>(a: seq<seq<T>>, b: seq<seq<T>>)
    ensures Flat(a + b) == Flat(a) + Flat(b)
  {
    if a == [] {
      assert a + b == b;
    } else {
      assert (a + b)[0] == a[0] && (a + b)[1..] == a[1..] + b;
      FlatConcat(a[1..], b);
    }
  }

  lemma FlatConcat3<T>(a: seq<seq<T>>, b: seq<seq<T>>, c: seq<seq<T>>)
    ensures Flat(a + b + c) == Flat(a) + Flat(b) + Flat(c)
  {
    FlatConcat(a + b, c);
    FlatConcat(a, b);
  }

  lemma MiddleSlice<T>(s: seq<T>, a: seq<T>, b: seq<T>, c: seq<T>)
    requires s == a + b + c
    ensures |a| + |b| <= |s|
    ensures s[..|a|] == a && s[|a|..|a| + |b|] == b && s[|a| + |b|..] == c
  {
  }

  lemma Cut3<T>(s: seq<T>, lo: nat, hi: nat)
    requires lo <= hi <= |s|
    ensures s == s[..lo] + s[lo..hi] + s[hi..]
  {
  }

  /** Taking pages out of the flat form is taking their bytes. */
  lemma FlatSlice(ps: seq<seq<byte>>, size: nat, lo: nat, hi: nat)
    requires AllSized(ps, size) && lo <= hi <= |ps|
    ensures Span(lo, size) <= Span(hi, size) <= |Flat(ps)|
    ensures Flat(ps)[..Span(lo, size)] == Flat(ps[..lo])
    ensures Flat(ps)[Span(lo, size)..Span(hi, size)] == Flat(ps[lo..hi])
    ensures Flat(ps)[Span(hi, size)..] == Flat(ps[hi..])
  {
    var a, b, c := ps[..lo], ps[lo..hi], ps[hi..];
    Cut3(ps, lo, hi);
    FlatConcat3(a, b, c);
    FlatLength(a, size);
    FlatLength(b, size);
    SpanAdd(lo, hi - lo, size);
    MiddleSlice(Flat(ps), Flat(a), Flat(b), Flat(c));
  }

  /** Splicing pages is splicing their bytes at the scaled offset. */
  lemma FlatSplice(ps: seq<seq<byte>>, size: nat, at: nat, qs: seq<seq<byte>>)
    requires AllSized(ps, size) && AllSized(qs, size) && at + |qs| <= |ps|
    ensures Span(at, size) + |Flat(qs)| <= |Flat(ps)|
    ensures Flat(Splice(ps, at, qs)) == Splice(Flat(ps), Span(at, size), Flat(qs))
  {
    var hi := at + |qs|;
    SpannedBytes(qs, size, at);
    FlatSlice(ps, size, at, hi);
    FlatConcat3(ps[..at], qs, ps[hi..]);
    SpliceIs(Flat(ps), Span(at, size), Flat(qs), Span(hi, size));
  }

  lemma SpannedBytes(qs: seq<seq<byte>>, size: nat, at: nat)
    requires AllSized(qs, size)
    ensures Span(at, size) + |Flat(qs)| == Span(at + |qs|, size)
  {
    FlatLength(qs, size);
    SpanAdd(at, |qs|, size);
  }

  lemma SpliceIs<T>(s: seq<T>, lo: nat, data: seq<T>, hi: nat)
    requires lo + |data| == hi <= |s|
    ensures s[..lo] + data + s[hi..] == Splice(s, lo, data)
  {
  }

  lemma {:induction false} FlatChop(s: seq<byte>, size: nat, n: nat)
    requires Span(n, size) <= |s|
    ensures Flat(Chop(s, size, n)) == s[..Span(n, size)]
  {
    if n > 0 {
      var last := s[Span(n - 1, size)..Span(n, size)];
      FlatChop(s, size, n - 1);
      FlatConcat(Chop(s, size, n - 1), [last]);
      assert Flat([last]) == last + Flat([]);
    }
  }

  /** Pages are recovered from their flat form. */
  lemma {:induction false} ChopFlat(ps: seq<seq<byte>>, rest: seq<byte>, size: nat)
    requires AllSized(ps, size)
    ensures Span(|ps|, size) == |Flat(ps)|
    ensures Chop(Flat(ps) + rest, size, |ps|) == ps
    decreases |ps|
  {
    FlatLength(ps, size);
    if ps != [] {
      var n := |ps| - 1;
      var init, last := ps[..n], ps[n];
      assert ps == init + [last];
      FlatConcat(init, [last]);
      assert Flat([last]) == last + Flat([]);
      FlatLength(init, size);
      assert Flat(ps) + rest == Flat(init) + (last + rest);
      ChopFlat(init, last + rest, size);
      MiddleSlice(Flat(ps) + rest, Flat(init), last, rest);
    }
  }

  lemma SpliceOutside<T>(s: seq<T>, at: nat, data: seq<T>, lo: nat, hi: nat)
    requires at + |data| <= |s| && lo <= hi <= |s|
    requires hi <= at || at + |data| <= lo
    ensures Splice(s, at, data)[lo..hi] == s[lo..hi]
  {
  }

  lemma SpliceInside<T>(s: seq<T>, at: nat, data: seq<T>, lo: nat, hi: nat)
    requires at + |data| <= |s| && lo <= hi <= |data|
    ensures Splice(s, at, data)[at + lo..at + hi] == data[lo..hi]
  {
  }

  /** A page that was not written is the old one. */
  lemma PageOutside(s: seq<byte>, size: nat, at: nat, data: seq<byte>, m: nat, k: nat)
    requires HasPage(s, size, k) && |data| == Span(m, size) && Span(at, size) + |data| <= |s|
    requires k < at || at + m <= k
    ensures PageAt(Splice(s, Span(at, size), data), size, k) == PageAt(s, size, k)
  {
    if k < at {
      SpanAdd(k + 1, at - k - 1, size);
    } else {
      SpanAdd(at, m, size);
      SpanAdd(at + m, k - at - m, size);
    }
    SpliceOutside(s, Span(at, size), data, Span(k, size), Span(k + 1, size));
  }

  /** A page that was written is the new one. */
  lemma PageInside(s: seq<byte>, size: nat, at: nat, data: seq<byte>, m: nat, j: nat)
    requires HasPage(s, size, at + j) && |data| == Span(m, size) && Span(at, size) + |data| <= |s| && j < m
    ensures HasPage(data, size, j)
    ensures PageAt(Splice(s, Span(at, size), data), size, at + j) == PageAt(data, size, j)
  {
    SpanAdd(j + 1, m - j - 1, size);
    SpanAdd(at, j, size);
    SpliceInside(s, Span(at, size), data, Span(j, size), Span(j + 1, size));
  }

  lemma ChopSpliceAt(s: seq<byte>, size: nat, n: nat, at: nat, data: seq<byte>, m: nat, k: nat)
    requires Span(n, size) <= |s| && |data| == Span(m, size) && at + m <= n && k < n
    requires Span(at, size) + |data| <= |s|
    ensures Chop(Splice(s, Span(at, size), data), size, n)[k]
         == if at <= k < at + m then Chop(data, size, m)[k - at] else Chop(s, size, n)[k]
  {
    ChopAt(Splice(s, Span(at, size), data), size, n, k);
    ChopAt(s, size, n, k);
    if at <= k < at + m {
      ChopAt(data, size, m, k - at);
      PageInside(s, size, at, data, m, k - at);
    } else {
      PageOutside(s, size, at, data, m, k);
    }
  }

  /** Splicing whole pages into a buffer splices its pages. */
  lemma ChopSplice(s: seq<byte>, size: nat, n: nat, at: nat, data: seq<byte>, m: nat)
    requires Span(n, size) <= |s| && |data| == Span(m, size) && at + m <= n
    ensures Span(at, size) + |data| <= |s|
    ensures Chop(Splice(s, Span(at, size), data), size, n) == Splice(Chop(s, size, n), at, Chop(data, size, m))
  {
    SpanFits(at, m, n, size);
    forall k | 0 <= k < n
      ensures Chop(Splice(s, Span(at, size), data), size, n)[k]
           == if at <= k < at + m then Chop(data, size, m)[k - at] else Chop(s, size, n)[k]
    {
      ChopSpliceAt(s, size, n, at, data, m, k);
    }
    SplicedItems(Chop(Splice(s, Span(at, size), data), size, n), Chop(s, size, n), at, Chop(data, size, m));
  }

  lemma SameItems<T>(a: seq<T>, b: seq<T>)
    requires |a| == |b| && forall k :: 0 <= k < |a| ==> a[k] == b[k]
    ensures a == b
  {
  }

  lemma SplicedItems<T>(r: seq<T>, s: seq<T>, at: nat, data: seq<T>)
    requires |r| == |s| && at + |data| <= |s|
    requires forall k :: 0 <= k < |s| ==> r[k] == if at <= k < at + |data| then data[k - at] else s[k]
    ensures r == Splice(s, at, data)
  {
  }

  lemma SliceOfPrefix<T>(s: seq<T>, t: seq<T>, lo: nat, hi: nat)
    requires lo <= hi <= |s|
    ensures (s + t)[lo..hi] == s[lo..hi]
  {
  }

  /** Only the bytes of the pages matter. */
  lemma {:induction false} ChopPrefix(s: seq<byte>, t: seq<byte>, size: nat, n: nat)
    requires Span(n, size) <= |s|
    ensures Chop(s + t, size, n) == Chop(s, size, n)
  {
    if n > 0 {
      ChopPrefix(s, t, size, n - 1);
      SliceOfPrefix(s, t, Span(n - 1, size), Span(n, size));
    }
  }

  /** Writing one whole page into a buffer changes that page of it. */
  lemma ChopSet(s: seq<byte>, size: nat, n: nat, j: nat, data: seq<byte>)
    requires Span(n, size) <= |s| && |data| == size && j < n
    ensures Span(j, size) + |data| <= |s|
    ensures Chop(Splice(s, Span(j, size), data), size, n) == Chop(s, size, n)[j := data]
  {
    assert Span(0, size) == 0 && Span(1, size) == size;
    assert data[Span(0, size)..Span(1, size)] == data;
    assert Chop(data, size, 1) == [data];
    ChopSplice(s, size, n, j, data, 1);
  }

  lemma SliceShift<T>(s: seq<T>, w: nat, lo: nat, hi: nat)
    requires lo <= hi && w + hi <= |s|
    ensures s[w..][lo..hi] == s[w + lo..w + hi]
  {
  }

  /** The pages found from byte `w * size` on are the pages from `w` on. */
  lemma {:induction false} ChopTail(s: seq<byte>, size: nat, w: nat, n: nat)
    requires Span(w + n, size) <= |s|
    ensures Span(w, size) + Span(n, size) == Span(w + n, size)
    ensures Chop(s[Span(w, size)..], size, n) == Chop(s, size, w + n)[w..]
  {
    SpanAdd(w, n, size);
    if n > 0 {
      SpanAdd(w, n - 1, size);
      ChopTail(s, size, w, n - 1);
      SliceShift(s, Span(w, size), Span(n - 1, size), Span(n, size));
    }
  }

  /** A longer chop starts with the shorter one. */
  lemma {:induction false} ChopMore(s: seq<byte>, size: nat, n: nat, m: nat)
    requires n <= m && Span(m, size) <= |s|
    ensures Span(n, size) <= |s| && Chop(s, size, n) == Chop(s, size, m)[..n]
  {
    if n < m {
      ChopMore(s, size, n, m - 1);
    }
  }

  /** The `n` pages found from byte `w * size` on, among the `m` pages of the buffer. */
  lemma ChopWindow(s: seq<byte>, size: nat, w: nat, n: nat, m: nat)
    requires w + n <= m && Span(m, size) <= |s|
    ensures Span(w, size) + Span(n, size) <= |s|
    ensures Chop(s[Span(w, size)..], size, n) == Chop(s, size, m)[w..w + n]
  {
    ChopMore(s, size, w + n, m);
    ChopTail(s, size, w, n);
    SliceOfTake(Chop(s, size, m), w, w + n);
  }

  lemma SliceOfTake<T>(s: seq<T>, lo: nat, hi: nat)
    requires lo <= hi <= |s|
    ensures s[..hi][lo..] == s[lo..hi]
  {
  }

  // ---------- What a failed write may spoil ----------

  /** `x` rounded down to a multiple of `g`. */
  function Down(x: nat, g: nat): nat
    requires g > 0
  {
    Span(x / g, g)
  }

  /** `x` rounded up to a multiple of `g`. */
  function Up(x: nat, g: nat): nat
    requires g > 0
  {
    Span((x + g - 1) / g, g)
  }

  /** Nothing changed outside the units of `g` blocks that the blocks in [lo, hi) touch; a block is `size` bytes. */
  ghost predicate Spared(before: seq<byte>, after: seq<byte>, lo: nat, hi: nat, g: nat, size: nat)
    requires g > 0
  {
    var a, b := Span(Down(lo, g), size), Span(Up(hi, g), size);
    && a <= b <= |before| == |after|
    && after[..a] == before[..a] && after[b..] == before[b..]
  }

  /** memcpy of whole pages into a buffer of `n` pages. */
  method CopyPages(dst: array<byte>, size: nat, n: nat, at: nat, src: seq<byte>, m: nat)
    requires dst.Length == Span(n, size) && Span(m, size) <= |src| && at + m <= n
    modifies dst
    ensures Chop(dst[..], size, n) == Splice(Chop(old(dst[..]), size, n), at, Chop(src, size, m))
  {
    var data := src[..Span(m, size)];
    assert src == data + src[Span(m, size)..];
    ChopPrefix(data, src[Span(m, size)..], size, m);
    ChopSplice(dst[..], size, n, at, data, m);
    Copy(dst, Span(at, size), data);
  }
}
