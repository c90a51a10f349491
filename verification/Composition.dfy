/** The transmission phase over a memory card. */
module Composition {
  import opened Bytes
  import opened Wire
  import opened Phase
  import opened Runs

  /**
   * A WRITE the server accepted and completed on a card of 512-byte pages is one splice of pages: whatever the length
   * of the server's buffer, and however its chunks fell on the erase blocks.
   */
  lemma AcceptedWriteOnCard(conf: Conf, ex: Exchange, before: seq<seq<byte>>, after: seq<seq<byte>>)
    requires conf.Valid() && conf.bs == 512 && ExchangeOk(conf, ex) && Aligned(512, ex.req) && !Wraps(ex.req)
    requires ex.req.kind == NBD_CMD_WRITE && ex.error == NBD_SUCCESS
    requires AllSized(before, 512) && AllSized(after, 512) && ex.before == Flat(before) && ex.after == Flat(after)
    ensures |ex.drained| == ex.req.count == Span(ex.req.count / 512, 512)
    ensures IsSplice(before, after, ex.req.offset / 512, Chop(ex.drained, 512, ex.req.count / 512))
  {
    hide Flat, Splice, Chop;
    var at, n := ex.req.offset / 512, ex.req.count / 512;
    DivMod(ex.req.offset, 512);
    DivMod(ex.req.count, 512);
    var pages := Chop(ex.drained, 512, n);
    FlatLength(before, 512);
    FlatLength(after, 512);
    RequestInside(conf, ex.req);
    SameSpan(|before|, |after|, at + n);
    FlatChop(ex.drained, 512, n);
    assert ex.drained[..Span(n, 512)] == ex.drained;
    FlatSplice(before, 512, at, pages);
    SplicedSized(before, at, pages, 512);
    SameFlat(after, Splice(before, at, pages), 512);
  }

  lemma SplicedSized(ps: seq<seq<byte>>, at: nat, qs: seq<seq<byte>>, size: nat)
    requires AllSized(ps, size) && AllSized(qs, size) && at + |qs| <= |ps|
    ensures AllSized(Splice(ps, at, qs), size)
  {
  }

  lemma SameSpan(a: nat, b: nat, within: nat)
    requires Span(a, 512) == Span(b, 512) >= Span(within, 512)
    ensures a == b && within <= a
  {
  }

  /** Pages are determined by their bytes. */
  lemma SameFlat(a: seq<seq<byte>>, b: seq<seq<byte>>, size: nat)
    requires AllSized(a, size) && AllSized(b, size) && Flat(a) == Flat(b) && |a| == |b|
    ensures a == b
  {
    hide Flat, Chop;
    ChopFlat(a, [], size);
    ChopFlat(b, [], size);
  }
}
