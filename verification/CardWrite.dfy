/** When a write to the card is the write that was asked for. */
module CardWrite {
  import opened Bytes
  import opened Masks
  import opened Nand

  /** A request the card serves: some pages, or an empty request away from page 0, all on the card. */
  ghost predicate Request(ppb: nat, blocks: nat, offset: nat, count: nat) {
    ppb > 0 && 0 < offset + count <= Span(blocks, ppb) < 0x8000_0000
  }

  lemma TakesAll(ppb: nat, blocks: nat, offset: nat, count: nat)
    requires Request(ppb, blocks, offset, count) && And(offset, ppb - 1) == offset % ppb
    ensures FirstPage(ppb, offset) == offset && PagesTaken(ppb, offset, count) == count
  {
    hide Span, And, EndBlock;
    EndBlockInRange(ppb, blocks, offset, count);
    DivBounds(offset + count - 1, ppb);
    SpanFits(EndBlock(ppb, offset, count), 1, EndBlock(ppb, offset, count) + 1, ppb);
    SpanOne(ppb);
    DivMod(offset, ppb);
  }

  /** Some page is always taken. */
  lemma TakesSome(ppb: nat, blocks: nat, offset: nat, count: nat)
    requires Request(ppb, blocks, offset, count) && count > 0
    ensures PagesTaken(ppb, offset, count) > 0
  {
    hide Span, And, EndBlock;
    DivMonotone(offset, offset + count - 1, ppb);
    EndBlockInRange(ppb, blocks, offset, count);
    SpanFits(offset / ppb, 1, EndBlock(ppb, offset, count) + 1, ppb);
    SpanOne(ppb);
  }

  /** The first page is the right one only when the mask finds the offset inside the block. */
  lemma RightPage(ppb: nat, offset: nat)
    requires ppb > 0 && FirstPage(ppb, offset) == offset
    ensures And(offset, ppb - 1) == offset % ppb
  {
    hide Span, And;
    DivMod(offset, ppb);
  }

  /** The loop of a write has no turn only when nothing is written. */
  lemma EmptyLoop(ppb: nat, blocks: nat, offset: nat, count: nat)
    requires Request(ppb, blocks, offset, count) && EndBlock(ppb, offset, count) < offset / ppb
    ensures count == 0
  {
    EndBlockInRange(ppb, blocks, offset, count);
    if count > 0 {
      DivMonotone(offset, offset + count - 1, ppb);
    }
  }

  /** The blocks of a write are those its pages touch. */
  lemma BlocksTouched(ppb: nat, blocks: nat, offset: nat, count: nat)
    requires Request(ppb, blocks, offset, count)
    ensures Down(offset, ppb) == Span(offset / ppb, ppb)
    ensures Up(offset + count, ppb) == Span(EndBlock(ppb, offset, count) + 1, ppb) <= Span(blocks, ppb)
  {
    hide Span, EndBlock;
    EndBlockInRange(ppb, blocks, offset, count);
    NextQuotient(offset + count - 1, ppb);
    SpanFits(EndBlock(ppb, offset, count) + 1, 0, blocks, ppb);
  }

  lemma NextQuotient(x: nat, d: nat)
    requires d > 0
    ensures (x + d) / d == x / d + 1
  {
    assert x + d == d * (x / d + 1) + x % d by {
      assert x == d * (x / d) + x % d;
      assert d * (x / d + 1) == d * (x / d) + d;
    }
    RemainderUnique(x + d, d, x / d + 1, x % d);
  }

  /** While the loop has a turn, the first page is on the card and the pages taken end with its last block. */
  lemma LoopBounds(ppb: nat, blocks: nat, offset: nat, count: nat)
    requires Request(ppb, blocks, offset, count) && offset / ppb <= EndBlock(ppb, offset, count)
    ensures EndBlock(ppb, offset, count) < blocks
    ensures var at, top := FirstPage(ppb, offset), Span(EndBlock(ppb, offset, count) + 1, ppb);
            && Span(offset / ppb, ppb) <= at < top <= Span(blocks, ppb)
            && PagesTaken(ppb, offset, count) == if count < top - at then count else top - at
  {
    hide Span, And, EndBlock;
    EndBlockInRange(ppb, blocks, offset, count);
    SpanFits(offset / ppb, 1, EndBlock(ppb, offset, count) + 1, ppb);
    SpanFits(EndBlock(ppb, offset, count) + 1, 0, blocks, ppb);
    SpanOne(ppb);
  }

  lemma DivMonotone(a: nat, b: nat, d: nat)
    requires d > 0 && a <= b
    ensures a / d <= b / d
  {
    DivBounds(a, d);
    DivBounds(b, d);
    if b / d < a / d {
      SpanFits(b / d, 1, a / d, d);
    }
  }

  /** What holds before the loop of a write starts. */
  lemma BeforeLoop(ppb: nat, blocks: nat, offset: nat, count: nat)
    requires Request(ppb, blocks, offset, count)
    ensures PagesTaken(ppb, offset, count) <= count
    ensures offset / ppb <= EndBlock(ppb, offset, count) + 1 <= blocks
    ensures Span(EndBlock(ppb, offset, count) + 1, ppb) <= Span(blocks, ppb)
  {
    hide Span, And, EndBlock, PagesTaken;
    StartNotAfterEnd(ppb, blocks, offset, count);
    SpanFits(EndBlock(ppb, offset, count) + 1, 0, blocks, ppb);
    TakenFits(ppb, blocks, offset, count);
  }

  /** The first page lies in its block. */
  lemma FirstInBlock(ppb: nat, offset: nat)
    requires ppb > 0
    ensures FirstPage(ppb, offset) == Span(offset / ppb, ppb) + And(offset, ppb - 1) < Span(offset / ppb, ppb) + ppb
  {
  }

  /** The images the loop is to produce, when it has a turn and when it has none. */
  lemma LoopImages(olds: seq<seq<byte>>, size: nat, ppb: nat, blocks: nat, offset: nat, count: nat, buf: seq<byte>)
    requires Request(ppb, blocks, offset, count) && |olds| == Span(blocks, ppb)
    requires AllSized(olds, size) && Span(count, size) <= |buf|
    requires PagesTaken(ppb, offset, count) <= count
    ensures offset / ppb <= EndBlock(ppb, offset, count) ==>
              IsSplice(olds, Injected(olds, size, ppb, blocks, offset, count, buf), FirstPage(ppb, offset),
                       Chop(buf, size, count)[..PagesTaken(ppb, offset, count)])
    ensures EndBlock(ppb, offset, count) < offset / ppb ==>
              Injected(olds, size, ppb, blocks, offset, count, buf) == olds
  {
    hide Span, And, EndBlock, PagesTaken, Splice, FirstPage;
    TakenFits(ppb, blocks, offset, count);
    if offset / ppb <= EndBlock(ppb, offset, count) {
      LoopBounds(ppb, blocks, offset, count);
      SpliceNothing(olds, FirstPage(ppb, offset));
      assert PagesTaken(ppb, offset, count) == 0 ==> Chop(buf, size, count)[..0] == [];
    } else {
      EmptyLoop(ppb, blocks, offset, count);
    }
  }

  /** With the right offset inside the block, the write is the splice that was asked for. */
  lemma InjectedIsSplice(images: seq<seq<byte>>, size: nat, ppb: nat, blocks: nat, offset: nat, count: nat,
                         buf: seq<byte>)
    requires Request(ppb, blocks, offset, count) && |images| == Span(blocks, ppb)
    requires AllSized(images, size) && Span(count, size) <= |buf|
    requires And(offset, ppb - 1) == offset % ppb
    ensures Injected(images, size, ppb, blocks, offset, count, buf)
             == Splice(images, offset, Chop(buf, size, count))
  {
    hide Span, Splice, FirstPage, PagesTaken;
    TakesAll(ppb, blocks, offset, count);
    var data := Chop(buf, size, count);
    assert data[..count] == data;
    SpliceNothing(images, offset);
  }

  /** The same, as bytes of the export. */
  lemma DiskAfter(images: seq<seq<byte>>, size: nat, ppb: nat, blocks: nat, offset: nat, count: nat, buf: seq<byte>)
    requires Request(ppb, blocks, offset, count) && |images| == Span(blocks, ppb)
    requires AllSized(images, size) && Span(count, size) <= |buf|
    requires And(offset, ppb - 1) == offset % ppb
    ensures IsSplice(Flat(images), Flat(Injected(images, size, ppb, blocks, offset, count, buf)),
                     Span(offset, size), buf[..Span(count, size)])
  {
    hide Splice, Injected, Flat;
    InjectedIsSplice(images, size, ppb, blocks, offset, count, buf);
    FlatChop(buf, size, count);
    FlatSplice(images, size, offset, Chop(buf, size, count));
  }

  /** Every card content and every data written, the write is the splice that was asked for. */
  ghost predicate AlwaysSplices(size: nat, ppb: nat, blocks: nat, offset: nat, count: nat)
    requires Request(ppb, blocks, offset, count)
  {
    forall images: seq<seq<byte>>, buf: seq<byte> ::
      |images| == Span(blocks, ppb) && AllSized(images, size) && Span(count, size) <= |buf| ==>
        Injected(images, size, ppb, blocks, offset, count, buf) == Splice(images, offset, Chop(buf, size, count))
  }

  lemma InjectedAt(images: seq<seq<byte>>, size: nat, ppb: nat, blocks: nat, offset: nat, count: nat, buf: seq<byte>)
    requires Request(ppb, blocks, offset, count) && |images| == Span(blocks, ppb)
    requires AllSized(images, size) && Span(count, size) <= |buf| && PagesTaken(ppb, offset, count) > 0
    ensures PagesTaken(ppb, offset, count) <= count
    ensures FirstPage(ppb, offset) + PagesTaken(ppb, offset, count) <= |images|
    ensures Injected(images, size, ppb, blocks, offset, count, buf)
         == Splice(images, FirstPage(ppb, offset), Chop(buf, size, count)[..PagesTaken(ppb, offset, count)])
  {
    hide Span, FirstPage, PagesTaken;
    TakenFits(ppb, blocks, offset, count);
  }

  /** Writing something other than `v` at two different places of a sequence of `v` gives two different results. */
  lemma SplicesDiffer<T>(s: seq<T>, v: T, a: nat, x: seq<T>, b: nat, y: seq<T>)
    requires a != b && x != [] && y != [] && a + |x| <= |s| && b + |y| <= |s|
    requires x[0] != v && y[0] != v && forall k :: 0 <= k < |s| ==> s[k] == v
    ensures Splice(s, a, x) != Splice(s, b, y)
  {
    var p := if a < b then a else b;
    SpliceIndex(s, a, x, p);
    SpliceIndex(s, b, y, p);
  }

  /** A card of zeros and a buffer of ones tell two different first pages apart. */
  lemma WrongPageShows(size: nat, ppb: nat, blocks: nat, offset: nat, count: nat)
    requires Request(ppb, blocks, offset, count) && count > 0 && size > 0
    requires FirstPage(ppb, offset) != offset
    ensures !AlwaysSplices(size, ppb, blocks, offset, count)
  {
    hide Span, FirstPage, PagesTaken, Splice;
    var zeros: seq<byte>, ones: seq<byte> := seq(size, _ => 0), seq(Span(count, size), _ => 1);
    var images: seq<seq<byte>> := seq(Span(blocks, ppb), _ => zeros);
    var data: seq<seq<byte>> := Chop(ones, size, count);
    var at, n := FirstPage(ppb, offset), PagesTaken(ppb, offset, count);
    TakesSome(ppb, blocks, offset, count);
    InjectedAt(images, size, ppb, blocks, offset, count, ones);
    ChopAt(ones, size, count, 0);
    assert data[0] != zeros by {
      assert data[0][0] == 1 && zeros[0] == 0;
    }
    assert data[..n][0] == data[0];
    SplicesDiffer(images, zeros, at, data[..n], offset, data);
    assert Injected(images, size, ppb, blocks, offset, count, ones) != Splice(images, offset, Chop(ones, size, count));
  }

  /**
   * A write that takes some pages always does what was asked for exactly when
   * masking its offset with `ppb - 1` finds the offset inside the block.
   */
  lemma SplicesIffMaskFits(size: nat, ppb: nat, blocks: nat, offset: nat, count: nat)
    requires Request(ppb, blocks, offset, count) && count > 0 && size > 0
    ensures AlwaysSplices(size, ppb, blocks, offset, count) <==> And(offset, ppb - 1) == offset % ppb
  {
    if And(offset, ppb - 1) == offset % ppb {
      forall images: seq<seq<byte>>, buf: seq<byte> |
        |images| == Span(blocks, ppb) && AllSized(images, size) && Span(count, size) <= |buf|
        ensures Injected(images, size, ppb, blocks, offset, count, buf)
             == Splice(images, offset, Chop(buf, size, count))
      {
        InjectedIsSplice(images, size, ppb, blocks, offset, count, buf);
      }
    } else {
      if FirstPage(ppb, offset) == offset {
        RightPage(ppb, offset);
      }
      WrongPageShows(size, ppb, blocks, offset, count);
    }
  }
}
