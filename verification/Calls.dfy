/** The calls a server makes of its plugin. */
module Calls {
  import opened Bytes

  /** A call, in blocks, and the code it returned. */
  datatype Call =
    | ReadCall(offset: nat, count: nat, code: int)
    | WriteCall(offset: nat, count: nat, code: int)
    | FlushCall(code: int)

  /**
   * What a plugin can be asked: its block size, its size, whether it writes and flushes, and whether it takes an empty
   * write at its very start.
   */
  datatype Device = Device(bs: nat, size: nat, writes: bool, flushes: bool, emptyAtStart: bool)

  /** The blocks of the call exist. */
  predicate CallInside(dev: Device, c: Call) {
    c.FlushCall? || Span(c.offset, dev.bs) + Span(c.count, dev.bs) <= dev.size
  }

  /** The plugin has this entry point, and the call is one it can serve. */
  predicate Servable(dev: Device, c: Call) {
    && CallInside(dev, c)
    && match c {
         case ReadCall(_, _, _) => true
         case WriteCall(offset, count, _) => dev.writes && (dev.emptyAtStart || offset + count > 0)
         case FlushCall(_) => dev.flushes
       }
  }

  /** Every call that the plugin can serve succeeded. */
  ghost predicate Sound(dev: Device, calls: seq<Call>) {
    forall k :: 0 <= k < |calls| && Servable(dev, calls[k]) ==> calls[k].code == 0
  }

  lemma SoundMore(dev: Device, calls: seq<Call>, c: Call)
    requires Sound(dev, calls) && (Servable(dev, c) ==> c.code == 0)
    ensures Sound(dev, calls + [c])
  {
  }

  lemma SoundPart(dev: Device, a: seq<Call>, b: seq<Call>)
    requires Sound(dev, a + b)
    ensures Sound(dev, a) && Sound(dev, b)
  {
    assert forall k :: 0 <= k < |a| ==> (a + b)[k] == a[k];
    assert forall k :: 0 <= k < |b| ==> (a + b)[|a| + k] == b[k];
  }
}
