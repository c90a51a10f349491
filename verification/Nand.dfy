/**
 * The memory-card plugin: page-range writes over NAND flash that can only be
 * erased a block at a time.
 */
module Nand {
  import opened Bytes
  import opened Masks

  /** A flash page: its data bytes and the spare area that holds the ECC. */
  datatype Page = Page(data: seq<byte>, spare: seq<byte>)

  /** What the plugin asked of the flash, in order. */
  datatype FlashOp =
    | Read(page: nat)
    | Erase(block: nat)
    | Program(page: nat, content: Page)

  // ---------- Specification on values ----------

  type Checksum = seq<byte> -> (byte, byte, byte)

  function Sum3(c: (byte, byte, byte)): (s: seq<byte>)
    ensures |s| == 3
  {
    [c.0, c.1, c.2]
  }

  /** The 16 ECC bytes of a page: one checksum for each 128-byte quarter of 512 bytes, then zeros. */
  function Ecc(checksum: Checksum, data: seq<byte>): (e: seq<byte>)
    requires |data| >= 512
    ensures |e| == 16
  {
    Sum3(checksum(data[0..128])) + Sum3(checksum(data[128..256])) +
    Sum3(checksum(data[256..384])) + Sum3(checksum(data[384..512])) + [0, 0, 0, 0]
  }

  function Seal(checksum: Checksum, data: seq<byte>): Page
    requires |data| >= 512
  {
    Page(data, Ecc(checksum, data))
  }

  /** Page images with their ECC. */
  function SealAll(checksum: Checksum, images: seq<seq<byte>>): (ps: seq<Page>)
    requires Sealable(images)
    ensures |ps| == |images|
  {
    if images == [] then [] else SealAll(checksum, Init(images)) + [Seal(checksum, images[|images| - 1])]
  }

  predicate Sealable(images: seq<seq<byte>>) {
    forall k :: 0 <= k < |images| ==> |images[k]| >= 512
  }

  lemma {:induction false} SealAllAt(checksum: Checksum, images: seq<seq<byte>>, k: nat)
    requires Sealable(images) && k < |images|
    ensures SealAll(checksum, images)[k] == Seal(checksum, images[k])
  {
    if k < |images| - 1 {
      SealAllAt(checksum, Init(images), k);
    }
  }

  /** The three spare bytes from 3 * q on are the checksum of the 128 data bytes from 128 * q on. */
  predicate QuarterSummed(checksum: Checksum, p: Page, q: nat)
    requires |p.data| >= 512 && |p.spare| == 16 && q < 4
  {
    var c := checksum(p.data[128 * q..128 * q + 128]);
    p.spare[3 * q] == c.0 && p.spare[3 * q + 1] == c.1 && p.spare[3 * q + 2] == c.2
  }

  /** The spare area carries the checksums of all four quarters of the data, in order, and nothing else. */
  ghost predicate UnderEcc(checksum: Checksum, p: Page) {
    && |p.data| >= 512 && |p.spare| == 16 && p.spare[12..] == [0, 0, 0, 0]
    && forall q :: 0 <= q < 4 ==> QuarterSummed(checksum, p, q)
  }

  lemma SealUnderEcc(checksum: Checksum, data: seq<byte>)
    requires |data| >= 512
    ensures UnderEcc(checksum, Seal(checksum, data))
  {
    var p := Seal(checksum, data);
    assert QuarterSummed(checksum, p, 0) && QuarterSummed(checksum, p, 1);
    assert QuarterSummed(checksum, p, 2) && QuarterSummed(checksum, p, 3);
  }

  /** Every page from `lo` up to `hi` is under its ECC. */
  ghost predicate AllUnderEcc(checksum: Checksum, pages: seq<Page>, lo: nat, hi: nat) {
    forall p :: 0 <= p < |pages| && lo <= p < hi ==> UnderEcc(checksum, pages[p])
  }

  /** So is every page that was rewritten. */
  lemma RewrittenUnderEcc(checksum: Checksum, before: seq<Page>, now: seq<Page>, images: seq<seq<byte>>, lo: nat,
                          hi: nat)
    requires Sealable(images) && Rewritten(before, now, SealAll(checksum, images), lo, hi)
    ensures AllUnderEcc(checksum, now, lo, hi)
  {
    hide SealAll, Seal, UnderEcc;
    forall p | 0 <= p < |now| && lo <= p < hi
      ensures UnderEcc(checksum, now[p])
    {
      SealAllAt(checksum, images, p);
      SealUnderEcc(checksum, images[p]);
    }
  }

  /** And every page of a block that was spliced in. */
  lemma SplicedUnderEcc(checksum: Checksum, before: seq<Page>, at: nat, images: seq<seq<byte>>)
    requires Sealable(images) && at + |images| <= |before|
    ensures AllUnderEcc(checksum, Splice(before, at, SealAll(checksum, images)), at, at + |images|)
  {
    hide SealAll, Seal, UnderEcc, Splice;
    var sealed := SealAll(checksum, images);
    forall p | 0 <= p < |before| && at <= p < at + |images|
      ensures UnderEcc(checksum, Splice(before, at, sealed)[p])
    {
      SpliceIndex(before, at, sealed, p);
      SealAllAt(checksum, images, p - at);
      SealUnderEcc(checksum, images[p - at]);
    }
  }

  lemma SliceSnoc<T>(s: seq<T>, lo: nat, hi: nat)
    requires lo <= hi < |s|
    ensures s[lo..hi + 1] == s[lo..hi] + [s[hi]]
  {
  }

  /** Sealing some of the pages is taking them out of the sealed whole. */
  lemma {:induction false} SealAllSlice(checksum: Checksum, images: seq<seq<byte>>, lo: nat, hi: nat)
    requires Sealable(images) && lo <= hi <= |images|
    ensures SealAll(checksum, images[lo..hi]) == SealAll(checksum, images)[lo..hi]
  {
    if lo < hi {
      SliceSnoc(images, lo, hi - 1);
      SliceSnoc(SealAll(checksum, images), lo, hi - 1);
      SealAllAt(checksum, images, hi - 1);
      SealAllSlice(checksum, images, lo, hi - 1);
      assert Init(images[lo..hi]) == images[lo..hi - 1];
    }
  }

  /** A sealed page of a buffer, as the page loop computes it. */
  lemma SealedPage(checksum: Checksum, buffer: seq<byte>, size: nat, n: nat, j: nat)
    requires Span(n, size) <= |buffer| && j < n && size >= 512
    ensures HasPage(buffer, size, j)
    ensures SealAll(checksum, Chop(buffer, size, n))[j] == Seal(checksum, PageAt(buffer, size, j))
  {
    ChopAt(buffer, size, n, j);
    SealAllAt(checksum, Chop(buffer, size, n), j);
  }

  function Blank(size: nat): Page {
    Page(seq(size, _ => 0xFF), seq(16, _ => 0xFF))
  }

  function Datas(pages: seq<Page>): (ds: seq<seq<byte>>)
    ensures |ds| == |pages|
  {
    seq(|pages|, k requires 0 <= k < |pages| => pages[k].data)
  }

  /** `now` is `before` with the pages in [lo, hi) taken from `final`. */
  ghost predicate Rewritten(before: seq<Page>, now: seq<Page>, final: seq<Page>, lo: nat, hi: nat) {
    && |now| == |before| == |final|
    && forall p :: 0 <= p < |now| ==> now[p] == if lo <= p < hi then final[p] else before[p]
  }

  /** Pages outside [lo, hi) are the same. */
  ghost predicate SameOutside(before: seq<Page>, after: seq<Page>, lo: nat, hi: nat) {
    && |after| == |before|
    && forall p :: 0 <= p < |after| && !(lo <= p < hi) ==> after[p] == before[p]
  }

  // ---------- The operations a write issues ----------

  function Reads(base: nat, n: nat): (ops: seq<FlashOp>)
    ensures |ops| == n
  {
    seq(n, j requires 0 <= j < n => Read(base + j))
  }

  function Programs(base: nat, sealed: seq<Page>): (ops: seq<FlashOp>)
    ensures |ops| == |sealed|
  {
    seq(|sealed|, j requires 0 <= j < |sealed| => Program(base + j, sealed[j]))
  }

  /** Erase a block, then program each of its pages. */
  function RewritePlan(block: nat, ppb: nat, sealed: seq<Page>): seq<FlashOp> {
    [Erase(block)] + Programs(Span(block, ppb), sealed)
  }

  /** Pages that are the same are the same bytes. */
  lemma SameBytesOutside(before: seq<Page>, after: seq<Page>, size: nat, lo: nat, hi: nat)
    requires SameOutside(before, after, lo, hi) && lo <= hi <= |before|
    requires AllSized(Datas(before), size) && AllSized(Datas(after), size)
    ensures Span(lo, size) <= Span(hi, size) <= |Flat(Datas(before))| == |Flat(Datas(after))|
    ensures Flat(Datas(after))[..Span(lo, size)] == Flat(Datas(before))[..Span(lo, size)]
    ensures Flat(Datas(after))[Span(hi, size)..] == Flat(Datas(before))[Span(hi, size)..]
  {
    hide Flat, Span;
    FlatSlice(Datas(before), size, lo, hi);
    FlatSlice(Datas(after), size, lo, hi);
    FlatLength(Datas(before), size);
    FlatLength(Datas(after), size);
    assert Datas(after)[..lo] == Datas(before)[..lo];
    assert Datas(after)[hi..] == Datas(before)[hi..];
  }

  /** The operations for one block: the old pages are read first unless all of them are replaced. */
  function BlockPlan(block: nat, ppb: nat, partial: bool, sealed: seq<Page>): seq<FlashOp> {
    (if partial then Reads(Span(block, ppb), ppb) else []) + RewritePlan(block, ppb, sealed)
  }

  /** The code of the `k`-th operation; reading a page past the end always fails. */
  function Code(fault: nat -> int, cardSize: nat, k: nat, op: FlashOp): int {
    if op.Read? && op.page >= cardSize && fault(k) == 0 then -1 else fault(k)
  }

  /** Issuing `plan` after `log`: the log that results, and the first code that is not 0 (or 0). */
  function Issue(fault: nat -> int, cardSize: nat, log: seq<FlashOp>, plan: seq<FlashOp>): (seq<FlashOp>, int)
    decreases |plan|
  {
    if plan == [] then
      (log, 0)
    else
      var code := Code(fault, cardSize, |log|, plan[0]);
      if code != 0 then (log + [plan[0]], code) else Issue(fault, cardSize, log + [plan[0]], plan[1..])
  }

  /** Issuing two plans in sequence: the second one is started only when the first did not fail. */
  lemma {:induction false} IssueThen(fault: nat -> int, cardSize: nat, log: seq<FlashOp>,
                                     p: seq<FlashOp>, q: seq<FlashOp>)
    ensures var (mid, code) := Issue(fault, cardSize, log, p);
            Issue(fault, cardSize, log, p + q) == if code != 0 then (mid, code) else Issue(fault, cardSize, mid, q)
    decreases |p|
  {
    if p == [] {
      assert p + q == q;
    } else {
      assert (p + q)[1..] == p[1..] + q;
      IssueThen(fault, cardSize, log + [p[0]], p[1..], q);
    }
  }

  /** What was issued is a prefix of the plan: all of it on success, up to the failing operation otherwise. */
  lemma {:induction false} IssuedPrefix(fault: nat -> int, cardSize: nat, log: seq<FlashOp>, plan: seq<FlashOp>)
    ensures var (after, code) := Issue(fault, cardSize, log, plan);
            && log <= after
            && after[|log|..] <= plan
            && (code == 0 ==> after[|log|..] == plan)
            && (code != 0 ==> |after| > |log|)
            && (code != 0 ==> code == Code(fault, cardSize, |after| - 1, after[|after| - 1]))
    decreases |plan|
  {
    if plan != [] && Code(fault, cardSize, |log|, plan[0]) == 0 {
      var next := log + [plan[0]];
      IssuedPrefix(fault, cardSize, next, plan[1..]);
      var after := Issue(fault, cardSize, next, plan[1..]).0;
      assert after[|log|..] == [plan[0]] + after[|next|..];
      assert plan == [plan[0]] + plan[1..];
    }
  }

  /** A plan succeeds exactly when no operation of it fails, and only its last operation can have failed. */
  lemma {:induction false} IssueCodes(fault: nat -> int, cardSize: nat, log: seq<FlashOp>, plan: seq<FlashOp>)
    ensures var (after, code) := Issue(fault, cardSize, log, plan);
            && (code == 0 <==> forall k :: 0 <= k < |plan| ==> Code(fault, cardSize, |log| + k, plan[k]) == 0)
            && |log| <= |after|
            && forall k :: |log| <= k < |after| - 1 ==> Code(fault, cardSize, k, after[k]) == 0
    decreases |plan|
  {
    if plan != [] && Code(fault, cardSize, |log|, plan[0]) == 0 {
      var next := log + [plan[0]];
      IssueCodes(fault, cardSize, next, plan[1..]);
      IssuedPrefix(fault, cardSize, next, plan[1..]);
      assert forall k :: 0 <= k < |plan[1..]| ==>
        Code(fault, cardSize, |next| + k, plan[1..][k]) == Code(fault, cardSize, |log| + (k + 1), plan[k + 1]);
      assert forall k :: 0 < k < |plan| ==>
        Code(fault, cardSize, |log| + k, plan[k]) == Code(fault, cardSize, |next| + (k - 1), plan[1..][k - 1]);
    }
  }

  /**
   * `code` is what the operations issued between two logs came to: that of the last, all before it having
   * succeeded.
   */
  ghost predicate CodeOf(fault: nat -> int, cardSize: nat, before: seq<FlashOp>, after: seq<FlashOp>, code: int) {
    && before <= after
    && (forall k :: |before| <= k < |after| - 1 ==> Code(fault, cardSize, k, after[k]) == 0)
    && code == if |after| == |before| then 0 else Code(fault, cardSize, |after| - 1, after[|after| - 1])
  }

  lemma IssuedCode(fault: nat -> int, cardSize: nat, log: seq<FlashOp>, plan: seq<FlashOp>)
    ensures CodeOf(fault, cardSize, log, Issue(fault, cardSize, log, plan).0, Issue(fault, cardSize, log, plan).1)
  {
    hide Issue, Code;
    IssuedPrefix(fault, cardSize, log, plan);
    IssueCodes(fault, cardSize, log, plan);
    var (after, code) := Issue(fault, cardSize, log, plan);
    if code == 0 && plan != [] {
      assert after[|log|..][|plan| - 1] == plan[|plan| - 1];
      assert Code(fault, cardSize, |log| + (|plan| - 1), plan[|plan| - 1]) == 0;
    }
  }

  /** A plan that reads no page past the end. */
  ghost predicate ReadsInside(plan: seq<FlashOp>, cardSize: nat) {
    forall k :: 0 <= k < |plan| && plan[k].Read? ==> plan[k].page < cardSize
  }

  /** On a flash that never fails such a plan succeeds. */
  lemma {:induction false} CleanPlan(fault: nat -> int, cardSize: nat, log: seq<FlashOp>, plan: seq<FlashOp>)
    requires ReadsInside(plan, cardSize) && forall k: nat :: fault(k) == 0
    ensures Issue(fault, cardSize, log, plan).1 == 0
    decreases |plan|
  {
    if plan != [] {
      assert forall k :: 0 <= k < |plan[1..]| ==> plan[1..][k] == plan[k + 1];
      CleanPlan(fault, cardSize, log + [plan[0]], plan[1..]);
    }
  }

  /** A block from page `base` on whose first `j` pages are `sealed` and the others blank. */
  ghost predicate HalfWritten(before: seq<Page>, now: seq<Page>, base: nat, sealed: seq<Page>, j: nat, blank: Page) {
    && base + |sealed| <= |now|
    && SameOutside(before, now, base, base + |sealed|)
    && (forall p :: base <= p < base + |sealed| ==> now[p] == if p < base + j then sealed[p - base] else blank)
  }

  lemma HalfWrittenStart(before: seq<Page>, base: nat, sealed: seq<Page>, blank: Page)
    requires base + |sealed| <= |before|
    ensures HalfWritten(before, Splice(before, base, seq(|sealed|, _ => blank)), base, sealed, 0, blank)
  {
  }

  lemma HalfWrittenEnd(before: seq<Page>, now: seq<Page>, base: nat, sealed: seq<Page>, blank: Page)
    requires HalfWritten(before, now, base, sealed, |sealed|, blank)
    ensures now == Splice(before, base, sealed)
  {
    SplicedItems(now, before, base, sealed);
  }

  /** A block is written only once its old pages, if they are needed, have been read. */
  lemma BlockPlanIssue(fault: nat -> int, cardSize: nat, log: seq<FlashOp>, block: nat, ppb: nat, partial: bool,
                       sealed: seq<Page>)
    ensures var (mid, code) := Issue(fault, cardSize, log, if partial then Reads(Span(block, ppb), ppb) else []);
            Issue(fault, cardSize, log, BlockPlan(block, ppb, partial, sealed))
            == if code != 0 then (mid, code) else Issue(fault, cardSize, mid, RewritePlan(block, ppb, sealed))
  {
    IssueThen(fault, cardSize, log, if partial then Reads(Span(block, ppb), ppb) else [],
              RewritePlan(block, ppb, sealed));
  }

  // ---------- The request a write makes of the card ----------

  /** Index of the last block of a write, with the C arithmetic: 64-bit subtraction, 32-bit result. */
  function EndBlock(ppb: nat, offset: nat, count: nat): nat
    requires ppb > 0
  {
    ((offset + count - 1) % 0x1_0000_0000_0000_0000 / ppb) % 0x1_0000_0000
  }

  /** First page the code writes: the offset inside the block is masked, not divided. */
  function FirstPage(ppb: nat, offset: nat): nat
    requires ppb > 0
  {
    var block: nat := offset / ppb;
    Span(block, ppb) + And(offset, ppb - 1)
  }

  /** Number of pages the loop injects: what was asked for, or what the visited blocks can hold. */
  function PagesTaken(ppb: nat, offset: nat, count: nat): nat
    requires ppb > 0
  {
    var room := Span(EndBlock(ppb, offset, count) + 1, ppb) - FirstPage(ppb, offset);
    if room < 0 then 0 else if room < count then room else count
  }

  /** Quotient and remainder bracket their operand. */
  lemma DivBounds(x: nat, d: nat)
    requires d > 0
    ensures Span(x / d, d) <= x < Span(x / d, d) + d
  {
    assert x == d * (x / d) + x % d;
  }

  lemma DivAtMost(x: nat, d: nat)
    requires d > 0
    ensures x / d <= x
  {
    DivBounds(x, d);
    SpanAtLeast(x / d, d);
  }

  lemma SpanAtLeast(q: nat, d: nat)
    requires d > 0
    ensures q <= Span(q, d)
  {
    assert Span(q, d) == Span(q, d - 1) + q;
  }

  lemma BlockBelow(b: nat, c: nat, ppb: nat)
    requires b < c
    ensures Span(b, ppb) + ppb == Span(b + 1, ppb) <= Span(c, ppb)
  {
    SpanAdd(b + 1, c - b - 1, ppb);
  }

  lemma BlockBelowInv(b: nat, c: nat, ppb: nat)
    requires Span(b, ppb) < Span(c, ppb)
    ensures b < c
  {
    if c < b {
      BlockBelow(c, b, ppb);
    }
  }

  /** The last block of a write lies on the card. */
  lemma EndBlockInRange(ppb: nat, blocks: nat, offset: nat, count: nat)
    requires ppb > 0 && 0 < offset + count <= Span(blocks, ppb) < 0x8000_0000
    ensures EndBlock(ppb, offset, count) == (offset + count - 1) / ppb < blocks
  {
    var x: nat := offset + count - 1;
    DivBounds(x, ppb);
    DivAtMost(x, ppb);
    BlockBelowInv(x / ppb, blocks, ppb);
  }

  /** The pages a write touches lie on the card. */
  lemma TakenFits(ppb: nat, blocks: nat, offset: nat, count: nat)
    requires ppb > 0 && 0 < offset + count <= Span(blocks, ppb) < 0x8000_0000
    ensures PagesTaken(ppb, offset, count) <= count
    ensures FirstPage(ppb, offset) + PagesTaken(ppb, offset, count) <= Span(blocks, ppb)
         || PagesTaken(ppb, offset, count) == 0
  {
    EndBlockInRange(ppb, blocks, offset, count);
    BlockBelow(EndBlock(ppb, offset, count), blocks, ppb);
  }

  /** The page images on the card after the write. */
  function Injected(images: seq<seq<byte>>, size: nat, ppb: nat, blocks: nat, offset: nat, count: nat, buf: seq<byte>)
    : (final: seq<seq<byte>>)
    requires ppb > 0 && |images| == Span(blocks, ppb) < 0x8000_0000 && 0 < offset + count <= |images|
    requires AllSized(images, size) && Span(count, size) <= |buf|
    ensures |final| == |images| && AllSized(final, size)
  {
    var n := PagesTaken(ppb, offset, count);
    TakenFits(ppb, blocks, offset, count);
    if n == 0 then images else Splice(images, FirstPage(ppb, offset), Chop(buf, size, count)[..n])
  }

  /** New content of the block that starts at page `base`, with `data` injected at page `off` of it. */
  function BlockImage(images: seq<seq<byte>>, base: nat, ppb: nat, off: nat,
                      data: seq<seq<byte>>): (image: seq<seq<byte>>)
    requires base + ppb <= |images| && off + |data| <= ppb
    ensures |image| == ppb
  {
    Splice(images[base..base + ppb], off, data)
  }

  /** Replacing every page of the block leaves nothing of the old content. */
  lemma BlockImageFull(images: seq<seq<byte>>, base: nat, ppb: nat, old_: seq<seq<byte>>, data: seq<seq<byte>>)
    requires base + ppb <= |images| && |data| == ppb == |old_|
    ensures Splice(old_, 0, data) == data == BlockImage(images, base, ppb, 0, data)
  {
  }

  /**
   * One turn of the write loop, in pages: block [base, base + ppb) receives
   * `take` pages from position `written` of the data, and that is the part of
   * the whole splice that falls in the block.
   */
  lemma BlockTurn(images: seq<seq<byte>>, at: nat, data: seq<seq<byte>>, base: nat, ppb: nat,
                  off: nat, written: nat, take: nat)
    requires base + ppb <= |images| && at + |data| <= |images|
    requires off < ppb && off + take <= ppb && written + take <= |data|
    requires take > 0 ==> base + off == at + written
    requires off > 0 ==> written == 0
    requires written + take == |data| || off + take == ppb
    requires written == |data| ==> at + |data| <= base || |data| == 0
    ensures BlockImage(images, base, ppb, off, data[written..written + take])
         == Splice(images, at, data)[base..base + ppb]
    ensures (off != 0 || take != ppb) <==> !(at <= base && base + ppb <= at + |data|)
  {
    var final := Splice(images, at, data);
    var image := BlockImage(images, base, ppb, off, data[written..written + take]);
    forall j | 0 <= j < ppb
      ensures image[j] == final[base..base + ppb][j]
    {
      assert final[base..base + ppb][j] == final[base + j];
      if off <= j < off + take {
        assert final[base + j] == data[written + (j - off)];
      }
    }
  }

  /** The first block of a write comes at most one block after the last one. */
  lemma StartNotAfterEnd(ppb: nat, blocks: nat, offset: nat, count: nat)
    requires ppb > 0 && 0 < offset + count <= Span(blocks, ppb) < 0x8000_0000
    ensures offset / ppb <= EndBlock(ppb, offset, count) + 1 <= blocks
  {
    EndBlockInRange(ppb, blocks, offset, count);
    BlocksMeet(offset, offset + count - 1, ppb);
  }

  lemma BlocksMeet(x: nat, y: nat, d: nat)
    requires d > 0 && x <= y + 1
    ensures x / d <= y / d + 1
  {
    hide Span;
    DivBounds(x, d);
    DivBounds(y, d);
    if y / d + 1 < x / d {
      BlockBelow(y / d, y / d + 1, d);
      BlockBelow(y / d + 1, x / d, d);
    }
  }

  /** Where the write loop stands when it comes to the block that starts at page `base`. */
  ghost predicate AtBlock(ppb: nat, first: nat, at: nat, count: nat, base: nat, off: nat, written: nat) {
    if base == first then
      written == 0 && base + off == at
    else
      off == 0 && at < base && written == if count < base - at then count else base - at
  }

  /** The counters of the write loop keep pace with the page positions. */
  lemma CountersTurn(ppb: nat, first: nat, at: nat, count: nat, base: nat, off: nat, written: nat, top: nat, n: nat)
    requires AtBlock(ppb, first, at, count, base, off, written) && off < ppb && first <= base
    requires base + ppb <= top && n == if count < top - at then count else top - at
    ensures written <= count && at < base + ppb
    ensures var take := if count - written >= ppb - off then ppb - off else count - written;
            && written + take <= n
            && (take > 0 ==> base + off == at + written)
            && (off > 0 ==> written == 0)
            && (written + take == n || off + take == ppb)
            && (written == n ==> at + n <= base || n == 0)
            && AtBlock(ppb, first, at, count, base + ppb, 0, written + take)
  {
  }

  lemma FirstBlock(ppb: nat, first: nat, at: nat, count: nat, off: nat)
    requires at == first + off
    ensures AtBlock(ppb, first, at, count, first, off, 0)
  {
  }

  lemma NothingRewritten(now: seq<Page>, final: seq<Page>, lo: nat)
    requires |final| == |now|
    ensures Rewritten(now, now, final, lo, lo)
  {
  }

  /** One more block carries its final content. */
  lemma RewriteNext(before: seq<Page>, now: seq<Page>, final: seq<Page>, lo: nat, base: nat, ppb: nat)
    requires Rewritten(before, now, final, lo, base) && lo <= base && base + ppb <= |before|
    ensures Rewritten(before, Splice(now, base, final[base..base + ppb]), final, lo, base + ppb)
  {
    var after := Splice(now, base, final[base..base + ppb]);
    forall p | 0 <= p < |after|
      ensures after[p] == if lo <= p < base + ppb then final[p] else before[p]
    {
      SpliceIndex(now, base, final[base..base + ppb], p);
    }
  }

  /** Blocks that were not reached yet still hold their old data. */
  lemma RewriteRest(before: seq<Page>, now: seq<Page>, final: seq<Page>, lo: nat, base: nat, ppb: nat)
    requires Rewritten(before, now, final, lo, base) && base + ppb <= |before|
    ensures Datas(now)[base..base + ppb] == Datas(before)[base..base + ppb]
  {
  }

  /** Some page of the block that starts at page `base` keeps its old content. */
  predicate Partial(at: nat, n: nat, base: nat, ppb: nat) {
    !(at <= base && base + ppb <= at + n)
  }

  /**
   * The operations of a write of `n` pages at page `at`, block by block, for
   * the blocks in [start, stop); `final` is the whole card as it is to become.
   */
  function Plans(final: seq<Page>, ppb: nat, at: nat, n: nat, start: nat, stop: nat): (plans: seq<seq<FlashOp>>)
    requires start <= stop && Span(stop, ppb) <= |final|
    ensures |plans| == stop - start
  {
    if start == stop then []
    else
      BlockBelow(stop - 1, stop, ppb);
      var base := Span(stop - 1, ppb);
      Plans(final, ppb, at, n, start, stop - 1)
      + [BlockPlan(stop - 1, ppb, Partial(at, n, base, ppb), final[base..base + ppb])]
  }

  lemma BlockReadsInside(block: nat, ppb: nat, partial: bool, sealed: seq<Page>, cardSize: nat)
    requires Span(block, ppb) + ppb <= cardSize
    ensures ReadsInside(BlockPlan(block, ppb, partial, sealed), cardSize)
  {
    hide Span;
  }

  lemma ReadsInsideConcat(a: seq<FlashOp>, b: seq<FlashOp>, cardSize: nat)
    requires ReadsInside(a, cardSize) && ReadsInside(b, cardSize)
    ensures ReadsInside(a + b, cardSize)
  {
  }

  /** A write reads only pages of the card. */
  lemma {:induction false} PlansReadInside(final: seq<Page>, ppb: nat, at: nat, n: nat, start: nat, stop: nat)
    requires start <= stop && Span(stop, ppb) <= |final|
    ensures ReadsInside(Flat(Plans(final, ppb, at, n, start, stop)), |final|)
    decreases stop
  {
    hide Span, BlockPlan, Partial, ReadsInside;
    if start < stop {
      BlockBelow(stop - 1, stop, ppb);
      var base := Span(stop - 1, ppb);
      var partial, sealed := Partial(at, n, base, ppb), final[base..base + ppb];
      var last := [BlockPlan(stop - 1, ppb, partial, sealed)];
      assert Plans(final, ppb, at, n, start, stop) == Plans(final, ppb, at, n, start, stop - 1) + last;
      SpanFits(stop - 1, 1, stop, ppb);
      PlansReadInside(final, ppb, at, n, start, stop - 1);
      BlockReadsInside(stop - 1, ppb, partial, sealed, |final|);
      FlatConcat(Plans(final, ppb, at, n, start, stop - 1), last);
      assert Flat(last) == last[0] + Flat([]) == last[0];
      ReadsInsideConcat(Flat(Plans(final, ppb, at, n, start, stop - 1)), last[0], |final|);
    } else {
      NoReads(|final|);
    }
  }

  lemma NoReads(cardSize: nat)
    ensures ReadsInside([], cardSize)
  {
  }

  lemma {:induction false} PlansAt(final: seq<Page>, ppb: nat, at: nat, n: nat, start: nat, stop: nat, i: nat)
    requires start <= i < stop && Span(stop, ppb) <= |final|
    ensures Span(i, ppb) + ppb <= |final|
    ensures Plans(final, ppb, at, n, start, stop)[i - start]
         == BlockPlan(i, ppb, Partial(at, n, Span(i, ppb), ppb), final[Span(i, ppb)..Span(i, ppb) + ppb])
  {
    BlockBelow(stop - 1, stop, ppb);
    if i < stop - 1 {
      PlansAt(final, ppb, at, n, start, stop - 1, i);
    }
  }

  /** Issuing block plans one after the other: a plan that fails ends the whole write with its code. */
  lemma IssueNextPlan(fault: nat -> int, cardSize: nat, start: seq<FlashOp>, plans: seq<seq<FlashOp>>, m: nat,
                      log: seq<FlashOp>)
    requires m < |plans| && (log, 0) == Issue(fault, cardSize, start, Flat(plans[..m]))
    ensures Issue(fault, cardSize, start, Flat(plans[..m + 1])) == Issue(fault, cardSize, log, plans[m])
    ensures Issue(fault, cardSize, log, plans[m]).1 != 0 ==>
              Issue(fault, cardSize, start, Flat(plans)) == Issue(fault, cardSize, log, plans[m])
  {
    assert plans[..m + 1] == plans[..m] + [plans[m]];
    FlatConcat(plans[..m], [plans[m]]);
    assert Flat([plans[m]]) == plans[m] + Flat([]) == plans[m];
    IssueThen(fault, cardSize, start, Flat(plans[..m]), plans[m]);
    assert plans == plans[..m + 1] + plans[m + 1..];
    FlatConcat(plans[..m + 1], plans[m + 1..]);
    IssueThen(fault, cardSize, start, Flat(plans[..m + 1]), Flat(plans[m + 1..]));
  }

  lemma NothingIssued(fault: nat -> int, cardSize: nat, log: seq<FlashOp>, plans: seq<seq<FlashOp>>)
    ensures Issue(fault, cardSize, log, Flat(plans[..0])) == (log, 0)
  {
  }

  lemma SliceOfTake2<T>(s: seq<T>, lo: nat, hi: nat, n: nat)
    requires lo <= hi <= n <= |s|
    ensures s[..n][lo..hi] == s[lo..hi]
  {
  }

  /** The pages the loop takes from the caller's buffer for one block. */
  lemma TurnData(size: nat, buf: seq<byte>, count: nat, n: nat, written: nat, take: nat)
    requires Span(count, size) <= |buf| && written + take <= n <= count
    ensures Span(written, size) + Span(take, size) <= |buf|
    ensures Chop(buf[Span(written, size)..], size, take) == Chop(buf, size, count)[..n][written..written + take]
  {
    ChopWindow(buf, size, written, take, count);
    SliceOfTake2(Chop(buf, size, count), written, written + take, n);
  }

  lemma SameBlock(a: seq<seq<byte>>, b: seq<seq<byte>>, base: nat, ppb: nat, off: nat, data: seq<seq<byte>>)
    requires base + ppb <= |a| && base + ppb <= |b| && off + |data| <= ppb
    requires a[base..base + ppb] == b[base..base + ppb]
    ensures BlockImage(a, base, ppb, off, data) == BlockImage(b, base, ppb, off, data)
  {
  }

  /** The final content of a block is what `InjectPages` assembles for it from the card as it then is. */
  lemma TurnImage(before: seq<Page>, now: seq<Page>, final: seq<Page>, images: seq<seq<byte>>, at: nat,
                  data: seq<seq<byte>>, lo: nat, base: nat, ppb: nat, off: nat, written: nat, take: nat)
    requires Rewritten(before, now, final, lo, base) && base + ppb <= |before| && at + |data| <= |before|
    requires images == Splice(Datas(before), at, data)
    requires off < ppb && off + take <= ppb && written + take <= |data|
    requires take > 0 ==> base + off == at + written
    requires off > 0 ==> written == 0
    requires written + take == |data| || off + take == ppb
    requires written == |data| ==> at + |data| <= base || |data| == 0
    ensures BlockImage(Datas(now), base, ppb, off, data[written..written + take]) == images[base..base + ppb]
    ensures (off != 0 || take != ppb) <==> Partial(at, |data|, base, ppb)
  {
    RewriteRest(before, now, final, lo, base, ppb);
    SameBlock(Datas(now), Datas(before), base, ppb, off, data[written..written + take]);
    BlockTurn(Datas(before), at, data, base, ppb, off, written, take);
  }

  lemma RewrittenNothing(before: seq<Page>, now: seq<Page>, final: seq<Page>, lo: nat)
    requires Rewritten(before, now, final, lo, lo)
    ensures now == before
  {
  }

  /** The data of a card whose blocks in [lo, hi) were rewritten, when nothing outside them was to change. */
  lemma RewrittenDatas(checksum: Checksum, before: seq<Page>, now: seq<Page>, images: seq<seq<byte>>, at: nat,
                       data: seq<seq<byte>>, lo: nat, hi: nat)
    requires |images| == |before| && Sealable(images) && at + |data| <= |before|
    requires images == Splice(Datas(before), at, data) && (data == [] || (lo <= at && at + |data| <= hi))
    requires Rewritten(before, now, SealAll(checksum, images), lo, hi)
    ensures Datas(now) == images
  {
    hide Splice, SealAll, Datas, Rewritten;
    assert |now| == |images| by { SameLength(before, now, SealAll(checksum, images), lo, hi); }
    forall p | 0 <= p < |now|
      ensures Datas(now)[p] == images[p]
    {
      RewrittenPage(checksum, before, now, images, at, data, lo, hi, p);
    }
    SameItems(Datas(now), images);
  }

  lemma SameLength(before: seq<Page>, now: seq<Page>, final: seq<Page>, lo: nat, hi: nat)
    requires Rewritten(before, now, final, lo, hi)
    ensures |now| == |before| == |final|
  {
  }

  lemma RewrittenPage(checksum: Checksum, before: seq<Page>, now: seq<Page>, images: seq<seq<byte>>, at: nat,
                      data: seq<seq<byte>>, lo: nat, hi: nat, p: nat)
    requires |images| == |before| && Sealable(images) && at + |data| <= |before| && p < |now|
    requires images == Splice(Datas(before), at, data) && (data == [] || (lo <= at && at + |data| <= hi))
    requires Rewritten(before, now, SealAll(checksum, images), lo, hi)
    ensures Datas(now)[p] == images[p]
  {
    hide Splice, SealAll, Ecc;
    SealAllAt(checksum, images, p);
    SpliceIndex(Datas(before), at, data, p);
  }

  predicate OpInBlock(op: FlashOp, block: nat, ppb: nat) {
    match op
    case Erase(b) => b == block
    case Read(p) => Span(block, ppb) <= p < Span(block + 1, ppb)
    case Program(p, _) => Span(block, ppb) <= p < Span(block + 1, ppb)
  }
}
