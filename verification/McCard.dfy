/**
 * The memory-card plugin as an object: `mcman_pwrite` and the helpers under it
 * work in place on one shared block buffer and on the flash.
 */
module MemoryCard {
  import opened Bytes
  import opened Masks
  import opened Nand
  import opened CardWrite

  class McCard {
    const pageSize: nat
    const ppb: nat          // pages per erase block
    const blocks: nat
    const bbuffer: array<byte>

    // The world outside the plugin. `fault(k)` is the code the k-th flash
    // operation returns; a page programmed without an erase, or left by an
    // operation that failed, holds whatever these functions say.
    const fault: nat -> int
    const checksum: Checksum
    const overlay: (Page, Page) -> Page
    const upset: Page -> Page

    var pages: seq<Page>
    var log: seq<FlashOp>

    ghost predicate Valid()
      reads this
    {
      && pageSize >= 512
      && ppb > 0
      && bbuffer.Length == Span(ppb, pageSize)
      && |pages| == Span(blocks, ppb) < 0x8000_0000
      && (forall k :: 0 <= k < |pages| ==> |pages[k].data| == pageSize)
    }

    constructor (pages: seq<Page>, pageSize: nat, ppb: nat, blocks: nat, fault: nat -> int, checksum: Checksum,
                 overlay: (Page, Page) -> Page, upset: Page -> Page)
      requires pageSize >= 512 && ppb > 0 && |pages| == Span(blocks, ppb) < 0x8000_0000
      requires forall k :: 0 <= k < |pages| ==> |pages[k].data| == pageSize
      ensures Valid() && this.pages == pages && this.pageSize == pageSize && this.ppb == ppb && log == []
      ensures fresh(bbuffer)
    {
      this.pages, this.pageSize, this.ppb, this.blocks, log := pages, pageSize, ppb, blocks, [];
      this.fault, this.checksum, this.overlay, this.upset := fault, checksum, overlay, upset;
      bbuffer := new byte[Span(ppb, pageSize)];
    }

    /** The export's content: the page data, end to end. */
    ghost function Disk(): seq<byte>
      reads this
    {
      Flat(Datas(pages))
    }

    // ---------- Flash primitives ----------

    /** A page of this card: the world may spoil its bytes but not its size. */
    function Fit(p: Page): (q: Page)
      requires pageSize >= 512
      ensures |q.data| == pageSize
    {
      if |p.data| == pageSize then p else Blank(pageSize)
    }

    method EraseBlock(block: nat) returns (r: int)
      requires Valid() && block < blocks
      modifies this`pages, this`log
      ensures Valid()
      ensures log == old(log) + [Erase(block)] && r == Code(fault, |pages|, old(|log|), Erase(block))
      ensures Span(block, ppb) + ppb <= |pages|
      ensures r == 0 ==> pages == Splice(old(pages), Span(block, ppb), seq(ppb, _ => Blank(pageSize)))
      ensures r != 0 ==> SameOutside(old(pages), pages, Span(block, ppb), Span(block, ppb) + ppb)
    {
      r := fault(|log|);
      log := log + [Erase(block)];
      BlockBelow(block, blocks, ppb);
      if r == 0 {
        pages := Splice(pages, Span(block, ppb), seq(ppb, _ => Blank(pageSize)));
      } else {
        pages := seq(|pages|, p requires 0 <= p < |pages| reads this =>
          if Span(block, ppb) <= p < Span(block, ppb) + ppb then Fit(upset(pages[p])) else pages[p]);
      }
    }

    method WritePage(page: nat, data: seq<byte>, ecc: seq<byte>) returns (r: int)
      requires Valid() && page < |pages| && |data| == pageSize
      modifies this`pages, this`log
      ensures Valid()
      ensures log == old(log) + [Program(page, Page(data, ecc))]
      ensures r == Code(fault, |pages|, old(|log|), Program(page, Page(data, ecc)))
      ensures r == 0 && old(pages[page]) == Blank(pageSize) ==> pages == old(pages)[page := Page(data, ecc)]
      ensures forall p :: 0 <= p < |pages| && p != page ==> pages[p] == old(pages[p])
    {
      r := fault(|log|);
      log := log + [Program(page, Page(data, ecc))];
      var now := pages[page];
      if r != 0 {
        now := Fit(upset(now));
      } else if now == Blank(pageSize) {
        now := Page(data, ecc);
      } else {
        now := Fit(overlay(now, Page(data, ecc)));
      }
      pages := pages[page := now];
    }

    /** Reads a page into the `j`-th of the `n` page-sized slots of `buffer`. */
    method ReadPage(page: nat, buffer: array<byte>, n: nat, j: nat) returns (r: int)
      requires Valid() && j < n && Span(n, pageSize) <= buffer.Length
      modifies this`log, buffer
      ensures Valid()
      ensures log == old(log) + [Read(page)] && r == Code(fault, |pages|, old(|log|), Read(page))
      ensures r == 0 ==> page < |pages|
      ensures r == 0 ==> Chop(buffer[..], pageSize, n) == Chop(old(buffer[..]), pageSize, n)[j := pages[page].data]
    {
      r := fault(|log|);
      if r == 0 && page >= |pages| {
        r := -1;
      }
      log := log + [Read(page)];
      if r == 0 {
        ChopSet(buffer[..], pageSize, n, j, pages[page].data);
        Copy(buffer, Span(j, pageSize), pages[page].data);
      }
    }

    // ---------- Blocks ----------

    /** The page loop of writeBlock, over a block that has just been erased and starts at page `base`. */
    method ProgramBlock(base: nat, buffer: array<byte>, ghost before: seq<Page>,
                        ghost sealed: seq<Page>) returns (r: int)
      requires Valid() && buffer.Length == Span(ppb, pageSize)
      requires sealed == SealAll(checksum, Chop(buffer[..], pageSize, ppb))
      requires HalfWritten(before, pages, base, sealed, 0, Blank(pageSize))
      modifies this`pages, this`log
      ensures Valid()
      ensures (log, r) == Issue(fault, |pages|, old(log), Programs(base, sealed))
      ensures r == 0 ==> HalfWritten(before, pages, base, sealed, ppb, Blank(pageSize))
      ensures r != 0 ==> SameOutside(before, pages, base, base + ppb)
      ensures r != 0 ==> |log| > 0 && log[|log| - 1].Program?
    {
      hide Span, Chop, SealAll, Ecc;
      ghost var plan := Programs(base, sealed);
      r := 0;
      var j := 0;
      while j < ppb
        invariant 0 <= j <= ppb && Valid()
        invariant HalfWritten(before, pages, base, sealed, j, Blank(pageSize))
        invariant r == 0 && Issue(fault, |pages|, old(log), plan) == Issue(fault, |pages|, log, plan[j..])
      {
        SealedPage(checksum, buffer[..], pageSize, ppb, j);
        var data := PageAt(buffer[..], pageSize, j);
        var ecc := Ecc(checksum, data);
        assert plan[j..][0] == Program(base + j, sealed[j]) && plan[j..][1..] == plan[j + 1..];
        r := WritePage(base + j, data, ecc);
        if r != 0 {
          return;
        }
        j := j + 1;
      }
    }

    method WriteBlock(block: nat, buffer: array<byte>) returns (r: int)
      requires Valid() && block < blocks && buffer.Length == Span(ppb, pageSize)
      modifies this`pages, this`log
      ensures Valid()
      ensures Span(block, ppb) + ppb <= |pages|
      ensures (log, r) == Issue(fault, |pages|, old(log),
                                RewritePlan(block, ppb, SealAll(checksum, Chop(buffer[..], pageSize, ppb))))
      ensures r == 0 ==>
                pages == Splice(old(pages), Span(block, ppb), SealAll(checksum, Chop(buffer[..], pageSize, ppb)))
      ensures r == 0 ==> AllUnderEcc(checksum, pages, Span(block, ppb), Span(block, ppb) + ppb)
      ensures r != 0 ==> SameOutside(old(pages), pages, Span(block, ppb), Span(block, ppb) + ppb)
      ensures r != 0 ==> |log| > 0 && !log[|log| - 1].Read?
    {
      hide UnderEcc, AllUnderEcc;
      ghost var sealed := SealAll(checksum, Chop(buffer[..], pageSize, ppb));
      ghost var plan := RewritePlan(block, ppb, sealed);
      assert plan[1..] == Programs(Span(block, ppb), sealed);
      r := EraseBlock(block);
      if r == 0 {
        HalfWrittenStart(old(pages), Span(block, ppb), sealed, Blank(pageSize));
        r := ProgramBlock(Span(block, ppb), buffer, old(pages), sealed);
        if r == 0 {
          HalfWrittenEnd(old(pages), pages, Span(block, ppb), sealed, Blank(pageSize));
          SplicedUnderEcc(checksum, old(pages), Span(block, ppb), Chop(buffer[..], pageSize, ppb));
        }
      }
    }

    method ReadBlock(block: nat, buffer: array<byte>) returns (r: int)
      requires Valid() && buffer.Length == Span(ppb, pageSize)
      modifies this`log, buffer
      ensures Valid()
      ensures (log, r) == Issue(fault, |pages|, old(log), Reads(Span(block, ppb), ppb))
      ensures r == 0 ==> Span(block, ppb) + ppb <= |pages|
      ensures r == 0 ==> Chop(buffer[..], pageSize, ppb) == Datas(pages)[Span(block, ppb)..Span(block, ppb) + ppb]
      ensures r != 0 ==> |log| > 0 && log[|log| - 1].Read? && OpInBlock(log[|log| - 1], block, ppb)
    {
      hide Chop, Span;
      r := 0;
      var j := 0;
      ghost var base, plan := Span(block, ppb), Reads(Span(block, ppb), ppb);
      SpanFits(block, 1, block + 1, ppb);
      SpanOne(ppb);
      while j < ppb
        invariant 0 <= j <= ppb && Valid()
        invariant j > 0 ==> base + j <= |pages|
        invariant forall k :: 0 <= k < j ==> Chop(buffer[..], pageSize, ppb)[k] == pages[base + k].data
        invariant r == 0 && Issue(fault, |pages|, old(log), plan) == Issue(fault, |pages|, log, plan[j..])
      {
        assert plan[j..][0] == Read(base + j) && plan[j..][1..] == plan[j + 1..];
        r := ReadPage(Span(block, ppb) + j, buffer, ppb, j);
        if r != 0 {
          return;
        }
        j := j + 1;
      }
    }

    /** What injectPages does to a block of the card. */
    ghost function NewImage(images: seq<seq<byte>>, block: nat, offset: nat, nPages: nat,
                            buffer: seq<byte>): seq<seq<byte>>
      requires Span(block, ppb) + ppb <= |images| && offset + nPages <= ppb && Span(nPages, pageSize) <= |buffer|
    {
      BlockImage(images, Span(block, ppb), ppb, offset, Chop(buffer, pageSize, nPages))
    }

    /** readBlock into the shared buffer, unless the whole block is going to be replaced. */
    method FetchBlock(block: nat, offset: nat, nPages: nat) returns (r: int)
      requires Valid() && offset + nPages <= ppb
      modifies this`log, bbuffer
      ensures Valid()
      ensures (log, r) == Issue(fault, |pages|, old(log),
                                if offset != 0 || nPages != ppb then Reads(Span(block, ppb), ppb) else [])
      ensures r == 0 && (offset != 0 || nPages != ppb) ==> Span(block, ppb) + ppb <= |pages|
      ensures r == 0 && (offset != 0 || nPages != ppb) ==>
                Chop(bbuffer[..], pageSize, ppb) == Datas(pages)[Span(block, ppb)..Span(block, ppb) + ppb]
      ensures r != 0 ==> |log| > 0 && log[|log| - 1].Read?
    {
      r := 0;
      if offset != 0 || nPages != ppb {
        r := ReadBlock(block, bbuffer);
      }
    }

    /** The new content of the block, assembled in the shared buffer. */
    method AssembleBlock(block: nat, offset: nat, nPages: nat, buffer: seq<byte>) returns (r: int)
      requires Valid() && Span(block, ppb) + ppb <= |pages| && offset + nPages <= ppb
      requires Span(nPages, pageSize) <= |buffer|
      modifies this`log, bbuffer
      ensures Valid()
      ensures (log, r) == Issue(fault, |pages|, old(log),
                                if offset != 0 || nPages != ppb then Reads(Span(block, ppb), ppb) else [])
      ensures r == 0 ==> Chop(bbuffer[..], pageSize, ppb) == NewImage(Datas(pages), block, offset, nPages, buffer)
      ensures r != 0 ==> |log| > 0 && log[|log| - 1].Read?
    {
      hide Span, Chop, Splice, Datas, Issue, Reads;
      r := FetchBlock(block, offset, nPages);
      if r != 0 {
        return;
      }
      ghost var fetched := Chop(bbuffer[..], pageSize, ppb);
      CopyPages(bbuffer, pageSize, ppb, offset, buffer, nPages);
      if offset == 0 && nPages == ppb {
        BlockImageFull(Datas(pages), Span(block, ppb), ppb, fetched, Chop(buffer, pageSize, nPages));
      }
    }

    method InjectPages(block: nat, offset: nat, nPages: nat, buffer: seq<byte>,
                       ghost sealed: seq<Page>, ghost plan: seq<FlashOp>) returns (r: int)
      requires Valid() && offset + nPages <= ppb && Span(nPages, pageSize) <= |buffer|
      requires block < blocks && Span(block, ppb) + ppb <= |pages|
      requires sealed == SealAll(checksum, NewImage(Datas(pages), block, offset, nPages, buffer))
      requires plan == BlockPlan(block, ppb, offset != 0 || nPages != ppb, sealed)
      modifies this`pages, this`log, bbuffer
      ensures Valid() && |sealed| == ppb
      ensures (log, r) == Issue(fault, |pages|, old(log), plan)
      ensures r == 0 ==> pages == Splice(old(pages), Span(block, ppb), sealed)
      ensures r != 0 ==> SameOutside(old(pages), pages, Span(block, ppb), Span(block, ppb) + ppb)
      ensures r != 0 ==> |log| > 0 && (log[|log| - 1].Read? ==> pages == old(pages))
    {
      BlockPlanIssue(fault, |pages|, log, block, ppb, offset != 0 || nPages != ppb, sealed);
      r := AssembleBlock(block, offset, nPages, buffer);
      if r == 0 {
        r := WriteBlock(block, bbuffer);
      }
    }

    /** The state after an operation on block `k` failed, in a write that began at page `lo`. */
    ghost predicate FailedAt(before: seq<Page>, final: seq<Page>, lo: nat, k: nat)
      reads this
    {
      && |pages| == |before| == |final| && |log| > 0
      && (forall p :: 0 <= p < |pages| && !(Span(k, ppb) <= p < Span(k, ppb) + ppb) ==>
            pages[p] == if lo <= p < Span(k, ppb) then final[p] else before[p])
      && (log[|log| - 1].Read? ==> Rewritten(before, pages, final, lo, Span(k, ppb)))
    }

    /** One turn of the block loop: `nPages` pages from position `written` of the data go to page `off` of a block. */
    method InjectTurn(block: nat, off: nat, nPages: nat, written: nat, buf: seq<byte>, ghost count: nat,
                      ghost before: seq<Page>,
                      ghost images: seq<seq<byte>>, ghost final: seq<Page>, ghost data: seq<seq<byte>>,
                      ghost at: nat, ghost lo: nat, ghost plan: seq<FlashOp>) returns (r: int)
      requires Valid() && block < blocks && Span(block, ppb) + ppb <= |before| && lo <= Span(block, ppb)
      requires Span(count, pageSize) <= |buf| && |data| <= count && data == Chop(buf, pageSize, count)[..|data|]
      requires at + |data| <= |before| && images == Splice(Datas(before), at, data)
      requires Sealable(images) && final == SealAll(checksum, images)
      requires Rewritten(before, pages, final, lo, Span(block, ppb))
      requires off < ppb && off + nPages <= ppb && written + nPages <= |data|
      requires nPages > 0 ==> Span(block, ppb) + off == at + written
      requires off > 0 ==> written == 0
      requires written + nPages == |data| || off + nPages == ppb
      requires written == |data| ==> at + |data| <= Span(block, ppb) || |data| == 0
      requires plan == BlockPlan(block, ppb, Partial(at, |data|, Span(block, ppb), ppb),
                                 final[Span(block, ppb)..Span(block, ppb) + ppb])
      modifies this`pages, this`log, bbuffer
      ensures Valid() && (log, r) == Issue(fault, |pages|, old(log), plan)
      ensures r == 0 ==> Rewritten(before, pages, final, lo, Span(block, ppb) + ppb)
      ensures r != 0 ==> FailedAt(before, final, lo, block)
    {
      hide Span, Splice, Chop, Partial, BlockImage, SealAll, BlockPlan, Issue, Datas;
      ghost var base: nat := Span(block, ppb);
      TurnData(pageSize, buf, count, |data|, written, nPages);
      TurnImage(before, pages, final, images, at, data, lo, base, ppb, off, written, nPages);
      SealAllSlice(checksum, images, base, base + ppb);
      RewriteNext(before, pages, final, lo, base, ppb);
      r := InjectPages(block, off, nPages, buf[Span(written, pageSize)..], final[base..base + ppb], plan);
    }

    /** The block loop of pwrite, for the blocks in [startBlock, endBlock]. */
    method InjectBlocks(buf: seq<byte>, count: nat, startBlock: nat, endBlock: nat, firstOffset: nat,
                        ghost before: seq<Page>, ghost images: seq<seq<byte>>, ghost final: seq<Page>,
                        ghost data: seq<seq<byte>>, ghost at: nat, ghost lo: nat, ghost top: nat,
                        ghost plans: seq<seq<FlashOp>>)
      returns (r: int, ghost k: nat)
      requires Valid() && Span(count, pageSize) <= |buf| && firstOffset < ppb && before == pages
      requires startBlock <= endBlock + 1 <= blocks && top <= |pages|
      requires lo == Span(startBlock, ppb) && top == Span(endBlock + 1, ppb) && at == lo + firstOffset
      requires |data| <= count && data == Chop(buf, pageSize, count)[..|data|]
      requires startBlock <= endBlock ==>
                 at + |data| <= |before| && |data| == if count < top - at then count else top - at
      requires startBlock <= endBlock ==> images == Splice(Datas(before), at, data)
      requires |images| == |before| && Sealable(images) && final == SealAll(checksum, images)
      requires plans == Plans(final, ppb, at, |data|, startBlock, endBlock + 1)
      modifies this`pages, this`log, bbuffer
      ensures Valid() && |pages| == |before|
      ensures (log, r) == Issue(fault, |pages|, old(log), Flat(plans))
      ensures r == 0 ==> Rewritten(before, pages, final, lo, top)
      ensures r != 0 ==> startBlock <= k <= endBlock && FailedAt(before, final, lo, k)
    {
      hide Span, Splice, Plans, BlockPlan, Partial, Chop, SealAll, Datas, FailedAt, Issue, Flat, Rewritten, AtBlock,
           Sealable;
      NothingIssued(fault, |pages|, log, plans);
      NothingRewritten(pages, final, lo);
      FirstBlock(ppb, lo, at, count, firstOffset);
      r, k := 0, 0;
      var blockOffset: nat, remainingPages: nat, writtenPages: nat := firstOffset, count, 0;
      var i: nat := startBlock;
      while i <= endBlock
        invariant startBlock <= i <= endBlock + 1 && Valid() && r == 0 && lo <= Span(i, ppb)
        invariant |pages| == |before| && blockOffset < ppb && writtenPages <= count
        invariant remainingPages == count - writtenPages
        invariant i <= endBlock ==> AtBlock(ppb, lo, at, count, Span(i, ppb), blockOffset, writtenPages)
        invariant Rewritten(before, pages, final, lo, Span(i, ppb))
        invariant (log, 0) == Issue(fault, |pages|, old(log), Flat(plans[..i - startBlock]))
      {
        var nPages: nat := if remainingPages >= ppb - blockOffset then ppb - blockOffset else remainingPages;
        BlockBelow(i, endBlock + 1, ppb);
        CountersTurn(ppb, lo, at, count, Span(i, ppb), blockOffset, writtenPages, top, |data|);
        PlansAt(final, ppb, at, |data|, startBlock, endBlock + 1, i);
        IssueNextPlan(fault, |pages|, old(log), plans, i - startBlock, log);
        r := InjectTurn(i, blockOffset, nPages, writtenPages, buf, count, before, images, final, data, at, lo,
                        plans[i - startBlock]);
        if r != 0 {
          k := i;
          return;
        }
        blockOffset := 0;
        remainingPages := remainingPages - nPages;
        writtenPages := writtenPages + nPages;
        i := i + 1;
      }
      assert plans[..endBlock + 1 - startBlock] == plans;
    }

    // ---------- The plugin's entry points ----------

    /** The card's page images after `pwrite`. */
    ghost function NewImages(buf: seq<byte>, count: nat, offset: nat): (images: seq<seq<byte>>)
      requires Valid() && Request(ppb, blocks, offset, count) && Span(count, pageSize) <= |buf|
      reads this
      ensures |images| == |pages| && AllSized(images, pageSize) && Sealable(images)
    {
      Injected(Datas(pages), pageSize, ppb, blocks, offset, count, buf)
    }

    /**
     * The outcome of rewriting the blocks in [start, stop) of a card so that it becomes `final`. The operations
     * issued are those of the plan up to the first that fails, and `r` is its code. Success leaves the blocks final
     * and the others untouched; after a failure on block `k` the blocks before it are final, those after it untouched.
     */
    ghost predicate Outcome(before: seq<Page>, logged: seq<FlashOp>, final: seq<Page>, at: nat, n: nat,
                            start: nat, stop: nat, r: int, k: nat)
      reads this
    {
      && start <= stop && Span(stop, ppb) <= |final|
      && (log, r) == Issue(fault, |pages|, logged, Flat(Plans(final, ppb, at, n, start, stop)))
      && (r == 0 ==> Rewritten(before, pages, final, Span(start, ppb), Span(stop, ppb)))
      && (r != 0 ==> start <= k < stop && FailedAt(before, final, Span(start, ppb), k))
    }

    /**
     * `mcman_pwrite`: the touched blocks are rewritten with their old data and
     * the written pages injected, each page under its own ECC.
     */
    method Pwrite(buf: seq<byte>, count: nat, offset: nat) returns (r: int, ghost k: nat)
      requires Valid() && Request(ppb, blocks, offset, count) && Span(count, pageSize) <= |buf|
      modifies this`pages, this`log, bbuffer
      ensures Valid() && |pages| == |old(pages)|
      ensures Outcome(old(pages), old(log), SealAll(checksum, old(NewImages(buf, count, offset))),
                      FirstPage(ppb, offset), PagesTaken(ppb, offset, count),
                      offset / ppb, EndBlock(ppb, offset, count) + 1, r, k)
      ensures SameOutside(old(pages), pages, Down(offset, ppb), Up(offset + count, ppb))
      ensures r == 0 ==> Datas(pages) == old(NewImages(buf, count, offset))
      ensures r == 0 ==> AllUnderEcc(checksum, pages, Down(offset, ppb), Up(offset + count, ppb))
      ensures r == 0 && And(offset, ppb - 1) == offset % ppb ==>
                IsSplice(old(Disk()), Disk(), Span(offset, pageSize), buf[..Span(count, pageSize)])
    {
      hide Flat, Plans, BlockPlan, Splice, Chop, SealAll, Issue, Span, And, EndBlock, FirstPage, PagesTaken,
           AllUnderEcc;
      var startBlock: nat := offset / ppb;
      var endBlock: nat := EndBlock(ppb, offset, count);
      var blockOffset: nat := And(offset, ppb - 1);
      BeforeLoop(ppb, blocks, offset, count);
      FirstInBlock(ppb, offset);
      LoopImages(Datas(pages), pageSize, ppb, blocks, offset, count, buf);
      if startBlock <= endBlock {
        LoopBounds(ppb, blocks, offset, count);
      }
      ghost var at: nat, n: nat := FirstPage(ppb, offset), PagesTaken(ppb, offset, count);
      ghost var images, before := NewImages(buf, count, offset), pages;
      ghost var data := Chop(buf, pageSize, count)[..n];
      ghost var lo, top := Span(startBlock, ppb), Span(endBlock + 1, ppb);
      r, k := InjectBlocks(buf, count, startBlock, endBlock, blockOffset, pages, images, SealAll(checksum, images),
                           data, at, lo, top, Plans(SealAll(checksum, images), ppb, at, n, startBlock, endBlock + 1));
      if r == 0 {
        RewrittenUnderEcc(checksum, before, pages, images, lo, top);
        if startBlock <= endBlock {
          RewrittenDatas(checksum, before, pages, images, at, data, lo, top);
        } else {
          RewrittenNothing(before, pages, SealAll(checksum, images), lo);
        }
      }
      if r == 0 && And(offset, ppb - 1) == offset % ppb {
        DiskAfter(Datas(before), pageSize, ppb, blocks, offset, count, buf);
      }
      OutcomeSpares(before, old(log), SealAll(checksum, images), at, n, startBlock, endBlock + 1, r, k);
      BlocksTouched(ppb, blocks, offset, count);
    }

    /** Whatever came of a write, the pages outside its blocks are as they were. */
    lemma OutcomeSpares(before: seq<Page>, logged: seq<FlashOp>, final: seq<Page>, at: nat, n: nat,
                        start: nat, stop: nat, r: int, k: nat)
      requires Valid() && Outcome(before, logged, final, at, n, start, stop, r, k)
      ensures SameOutside(before, pages, Span(start, ppb), Span(stop, ppb))
    {
      hide Span;
      if r != 0 {
        SpanFits(k, 1, stop, ppb);
        SpanFits(k, stop - k, stop, ppb);
        SpanFits(start, k - start, k, ppb);
        SpanOne(ppb);
      }
    }

    /** The code of a write is that of its last operation, and is 0 on a flash that never fails. */
    lemma OutcomeCode(before: seq<Page>, logged: seq<FlashOp>, final: seq<Page>, at: nat, n: nat,
                      start: nat, stop: nat, r: int, k: nat)
      requires Outcome(before, logged, final, at, n, start, stop, r, k) && |final| == |pages|
      ensures CodeOf(fault, |pages|, logged, log, r)
      ensures (forall j: nat :: fault(j) == 0) ==> r == 0
    {
      hide Span, Plans, CodeOf, Code, Rewritten, FailedAt, Issue, Flat;
      var plan := Flat(Plans(final, ppb, at, n, start, stop));
      IssuedCode(fault, |pages|, logged, plan);
      if forall j: nat :: fault(j) == 0 {
        PlansReadInside(final, ppb, at, n, start, stop);
        CleanPlan(fault, |pages|, logged, plan);
      }
    }

    /** Pages on the card are bytes on the export. */
    lemma DiskFits(offset: nat, count: nat)
      requires Valid() && offset + count <= |pages|
      ensures |Disk()| == Span(|pages|, pageSize)
      ensures Span(offset, pageSize) + Span(count, pageSize) == Span(offset + count, pageSize) <= |Disk()|
    {
      hide Flat, Span;
      FlatLength(Datas(pages), pageSize);
      SpanFits(offset, count, |pages|, pageSize);
    }

    /** `mcman_pread`: the bytes of the pages, or the code of the first read that failed; a page past the end fails. */
    method Pread(buf: array<byte>, count: nat, offset: nat) returns (r: int)
      requires Valid() && Span(count, pageSize) <= buf.Length && buf != bbuffer
      modifies this`log, buf
      ensures Valid()
      ensures (log, r) == Issue(fault, |pages|, old(log), Reads(offset, count))
      ensures r == 0 && count > 0 ==> offset + count <= |pages|
      ensures offset + count <= |pages| ==> Span(offset, pageSize) + Span(count, pageSize) <= |Disk()|
      ensures r == 0 && offset + count <= |pages| ==>
                buf[..Span(count, pageSize)]
                == Disk()[Span(offset, pageSize)..Span(offset, pageSize) + Span(count, pageSize)]
    {
      hide Flat, Chop, Span;
      r := 0;
      var i: nat := 0;
      ghost var plan := Reads(offset, count);
      while i < count
        invariant 0 <= i <= count && Valid() && (i > 0 ==> offset + i <= |pages|)
        invariant forall k :: 0 <= k < i ==> Chop(buf[..], pageSize, count)[k] == Datas(pages)[offset + k]
        invariant r == 0 && Issue(fault, |pages|, old(log), plan) == Issue(fault, |pages|, log, plan[i..])
      {
        assert plan[i..][0] == Read(offset + i) && plan[i..][1..] == plan[i + 1..];
        r := ReadPage(offset + i, buf, count, i);
        if r != 0 {
          break;
        }
        i := i + 1;
      }
      if offset + count <= |pages| {
        DiskFits(offset, count);
      }
      if r == 0 {
        assert plan[count..] == [];
        if offset + count <= |pages| {
          assert Chop(buf[..], pageSize, count) == Datas(pages)[offset..offset + count];
          FlatChop(buf[..], pageSize, count);
          FlatSlice(Datas(pages), pageSize, offset, offset + count);
        }
      }
    }
  }
}
