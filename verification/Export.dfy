/** An export context: a plugin behind the entry points the server calls, and what `nbdify_context` derives from it. */
module Exports {
  import opened Bytes
  import opened Masks
  import opened Nand
  import opened Wire
  import opened Calls
  import opened CardWrite
  import opened MemoryCard
  import opened FilePlugin

  /** How far a plugin has come in asking the world: the flash operations issued, or the system calls made. */
  datatype Progress = Flash(ops: seq<FlashOp>) | System(log: seq<SysCall>)

  datatype Plugin = Card(card: McCard) | File(file: FileDev)

  class Export {
    const plugin: Plugin
    const hasPwrite: bool    // the plugin fills the pwrite entry point
    const hasFlush: bool     // the plugin fills the flush entry point
    const stray: nat -> int  // codes of the calls whose effect is left open
    var strays: nat
    ghost var calls: seq<Call>   // every call made through the entry points

    var eflags: nat
    var blocksize: nat       // minimum_block_size
    var exportsize: nat

    ghost function Repr(): set<object> {
      match plugin
      case Card(c) => {c, c.bbuffer}
      case File(f) => {f}
    }

    /** The bytes behind the export. */
    ghost function Disk(): seq<byte>
      reads Repr()
    {
      match plugin
      case Card(c) => c.Disk()
      case File(f) => f.content
    }

    ghost predicate PluginValid()
      reads Repr()
    {
      match plugin
      case Card(c) => c.Valid() && c.pageSize == 512 && IsPow2(c.ppb)
      case File(f) => true
    }

    ghost predicate Valid()
      reads this, Repr()
    {
      && this !in Repr()
      && PluginValid()
      && blocksize == (match plugin case Card(_) => 512 case File(_) => 1)
      && exportsize == |Disk()| < 0x8000_0000_0000_0000
      && (Has(eflags, NBD_FLAG_READ_ONLY) <==> !hasPwrite)
      && (Faultless() ==> Sound(Serves(), calls))
    }

    /**
     * What calls the plugin can serve: a card cannot take an empty write at its start, where the last block
     * underflows.
     */
    ghost function Serves(): Device
      reads this
    {
      Device(blocksize, exportsize, hasPwrite, hasFlush, plugin.File?)
    }

    /** The world under the plugin never fails. */
    ghost predicate Faultless() {
      match plugin
      case Card(c) => forall k: nat :: c.fault(k) == 0
      case File(f) => forall k: nat :: f.transfer(k) >= 0
    }

    ghost function Now(): Progress
      reads Repr()
    {
      match plugin
      case Card(c) => Flash(c.log)
      case File(f) => System(f.log)
    }

    /**
     * The plugin served the call and returned its code. A card issued flash operations, whose outcome the code is:
     * for a read those of its pages in order, for a flush none. A file made system calls that move all of the bytes,
     * or one fdatasync, and the code is -1 exactly if one of them failed.
     */
    ghost predicate FromPlugin(before: Progress, call: Call)
      reads Repr()
    {
      match plugin
      case Card(c) =>
        && before.Flash? && CodeOf(c.fault, |c.pages|, before.ops, c.log, call.code)
        && (call.ReadCall? ==>
              (c.log, call.code) == Issue(c.fault, |c.pages|, before.ops, Reads(call.offset, call.count)))
        && (call.FlushCall? ==> c.log == before.ops)
      case File(f) =>
        && before.System? && before.log <= f.log && (call.code == 0 <==> !f.Erred(|before.log|))
        && var made := f.log[|before.log|..];
           if call.FlushCall? then made == [SysSync(call.code)] && (call.code == 0 || call.code == -1)
           else Transfers(made, call.WriteCall?, call.offset, call.count, call.code)
    }

    /** `nbdify_context` and `lwnbd_update_size`. */
    constructor (plugin: Plugin, hasPwrite: bool, hasFlush: bool, stray: nat -> int)
      requires match plugin
               case Card(c) => c.Valid() && c.pageSize == 512 && IsPow2(c.ppb) && |c.Disk()| < 0x8000_0000_0000_0000
               case File(f) => |f.content| < 0x8000_0000_0000_0000
      ensures Valid() && this.plugin == plugin && this.hasPwrite == hasPwrite && this.hasFlush == hasFlush
      ensures Has(eflags, NBD_FLAG_HAS_FLAGS) && (Has(eflags, NBD_FLAG_SEND_FLUSH) <==> hasFlush) && calls == []
      ensures eflags == NBD_FLAG_HAS_FLAGS + (if hasPwrite then 0 else NBD_FLAG_READ_ONLY)
                        + if hasFlush then NBD_FLAG_SEND_FLUSH else 0
    {
      hide Or, And, Flat, IsPow2;
      this.plugin, this.hasPwrite, this.hasFlush, this.stray := plugin, hasPwrite, hasFlush, stray;
      strays, calls := 0, [];
      var flags := NBD_FLAG_HAS_FLAGS;
      if !hasPwrite {
        flags := Or(flags, NBD_FLAG_READ_ONLY);
      }
      if hasFlush {
        flags := Or(flags, NBD_FLAG_SEND_FLUSH);
      }
      eflags := flags;
      blocksize := match plugin case Card(_) => 512 case File(_) => 1;
      exportsize := match plugin case Card(c) => |c.pages| * 512 case File(f) => |f.content|;
      new;
      if plugin.Card? {
        plugin.card.DiskFits(0, 0);
      }
      FlagBits();
    }

    /** The blocks [offset, offset + count) exist. */
    ghost predicate Inside(count: nat, offset: nat)
      reads this, Repr()
    {
      Span(offset, blocksize) + Span(count, blocksize) <= |Disk()|
    }

    lemma Sizes()
      requires Valid()
      ensures exportsize == |Disk()| < 0x8000_0000_0000_0000 && blocksize > 0
    {
    }

    lemma Writable()
      requires Valid()
      ensures Has(eflags, NBD_FLAG_READ_ONLY) <==> !hasPwrite
    {
    }

    lemma InsideCard(count: nat, offset: nat)
      requires Valid() && plugin.Card? && Inside(count, offset)
      ensures offset + count <= |plugin.card.pages|
    {
      plugin.card.DiskFits(0, 0);
      SpanAdd(offset, count, 512);
    }

    /** How many blocks a failed write may spoil at a time: an erase block of a card, one byte of a file. */
    ghost function Grain(): nat {
      match plugin case Card(c) => c.ppb case File(_) => 1
    }

    /** A call whose effect the model leaves open: some code, and nothing changes. */
    method Stray() returns (r: int)
      modifies this`strays
    {
      r := stray(strays);
      strays := strays + 1;
    }

    /** The plugin's pread. */
    method CallPread(buf: array<byte>, count: nat, offset: nat) returns (r: int)
      requires Valid() && Span(count, blocksize) <= buf.Length && buf !in Repr()
      modifies this`strays, Repr(), buf
      ensures Valid() && Disk() == old(Disk()) && calls == old(calls)
      ensures r == 0 && Inside(count, offset) ==>
                buf[..Span(count, blocksize)]
                == Disk()[Span(offset, blocksize)..Span(offset, blocksize) + Span(count, blocksize)]
      ensures Inside(count, offset) ==>
                FromPlugin(old(Now()), ReadCall(offset, count, r)) && (Faultless() ==> r == 0)
    {
      hide Flat, Issue, Code, CodeOf, Sound;
      if offset * blocksize + count * blocksize > exportsize {
        r := Stray();
        return;
      }
      match plugin
      case Card(c) =>
        InsideCard(count, offset);
        IssuedCode(c.fault, |c.pages|, c.log, Reads(offset, count));
        ReadsAreInside(c, offset, count);
        r := c.Pread(buf, count, offset);
      case File(f) =>
        r := f.Pread(buf, count, offset);
    }

    static lemma ReadsAreInside(c: McCard, offset: nat, count: nat)
      requires offset + count <= |c.pages|
      ensures (forall k: nat :: c.fault(k) == 0) ==> Issue(c.fault, |c.pages|, c.log, Reads(offset, count)).1 == 0
    {
      if forall k: nat :: c.fault(k) == 0 {
        CleanPlan(c.fault, |c.pages|, c.log, Reads(offset, count));
      }
    }

    /** `lwnbd_pread`, in blocks. */
    method Pread(buf: array<byte>, count: nat, offset: nat) returns (r: int)
      requires Valid() && Span(count, blocksize) <= buf.Length && buf !in Repr()
      modifies this`strays, this`calls, Repr(), buf
      ensures Valid() && Disk() == old(Disk()) && calls == old(calls) + [ReadCall(offset, count, r)]
      ensures r == 0 && Inside(count, offset) ==>
                buf[..Span(count, blocksize)]
                == Disk()[Span(offset, blocksize)..Span(offset, blocksize) + Span(count, blocksize)]
      ensures Inside(count, offset) ==>
                FromPlugin(old(Now()), ReadCall(offset, count, r)) && (Faultless() ==> r == 0)
    {
      hide PluginValid, Disk, Now, FromPlugin, Faultless;
      r := CallPread(buf, count, offset);
      if Faultless() {
        SoundMore(Serves(), calls, ReadCall(offset, count, r));
      }
      calls := calls + [ReadCall(offset, count, r)];
    }

    method PwriteCard(c: McCard, buf: seq<byte>, count: nat, offset: nat) returns (r: int)
      requires Valid() && plugin == Card(c) && Span(count, 512) == |buf| && Inside(count, offset) && 0 < offset + count
      modifies c`pages, c`log, c.bbuffer
      ensures Valid() && (r == 0 ==> IsSplice(old(c.Disk()), c.Disk(), Span(offset, 512), buf))
      ensures Spared(old(c.Disk()), c.Disk(), offset, offset + count, c.ppb, 512)
      ensures CodeOf(c.fault, |c.pages|, old(c.log), c.log, r) && (Faultless() ==> r == 0)
    {
      hide Flat, Splice, Span, Spared, Down, Up, CodeOf, McCard.Outcome, SealAll, EndBlock, FirstPage, PagesTaken,
           Issue, Plans;
      InsideCard(count, offset);
      c.DiskFits(0, 0);
      CardMask(c.ppb, offset);
      ghost var final := SealAll(c.checksum, c.NewImages(buf, count, offset));
      ghost var k;
      r, k := c.Pwrite(buf, count, offset);
      c.OutcomeCode(old(c.pages), old(c.log), final, FirstPage(c.ppb, offset), PagesTaken(c.ppb, offset, count),
                    offset / c.ppb, EndBlock(c.ppb, offset, count) + 1, r, k);
      c.DiskFits(0, 0);
      assert buf[..Span(count, 512)] == buf;
      CardSpares(old(c.pages), c.pages, c.ppb, c.blocks, offset, offset + count);
    }

    method PwriteFile(f: FileDev, buf: seq<byte>, count: nat, offset: nat) returns (r: int)
      requires Valid() && plugin == File(f) && count == |buf| && offset + count <= |f.content|
      modifies f`log, f`content
      ensures Valid() && (r == 0 ==> IsSplice(old(f.content), f.content, offset, buf))
      ensures Spared(old(f.content), f.content, offset, offset + count, 1, 1)
      ensures old(f.log) <= f.log && Transfers(f.log[old(|f.log|)..], true, offset, count, r)
      ensures r == 0 <==> !f.Erred(old(|f.log|))
    {
      hide Splice, Written;
      ghost var done;
      r, done := f.Pwrite(buf, count, offset);
      WrittenInside(old(f.content), offset, buf, done);
      WrittenSpares(old(f.content), offset, buf, done);
    }

    /** Nothing at all is spoilt when nothing changes. */
    lemma SparedSame(count: nat, offset: nat)
      requires Valid() && Inside(count, offset)
      ensures Grain() > 0 && Spared(Disk(), Disk(), offset, offset + count, Grain(), blocksize)
    {
      hide Flat;
      match plugin
      case Card(c) =>
        InsideCard(count, offset);
        c.DiskFits(0, 0);
        RoundedInside(offset, offset + count, c.ppb, c.blocks);
        c.DiskFits(Up(offset + count, c.ppb), 0);
        SpanFits(Down(offset, c.ppb), Up(offset + count, c.ppb) - Down(offset, c.ppb), Up(offset + count, c.ppb), 512);
      case File(f) =>
        UnitsOfOne(offset);
        UnitsOfOne(offset + count);
    }

    /** The plugin's pwrite. */
    method CallPwrite(buf: seq<byte>, count: nat, offset: nat) returns (r: int)
      requires Valid() && Span(count, blocksize) == |buf|
      modifies this`strays, Repr()
      ensures Valid() && calls == old(calls)
      ensures r == 0 && Inside(count, offset) && hasPwrite ==>
                IsSplice(old(Disk()), Disk(), Span(offset, blocksize), buf)
      ensures !Inside(count, offset) || !hasPwrite ==> Disk() == old(Disk())
      ensures Inside(count, offset) && Grain() > 0 ==>
                Spared(old(Disk()), Disk(), offset, offset + count, Grain(), blocksize)
      ensures Inside(count, offset) && hasPwrite && (plugin.File? || offset + count > 0) ==>
                FromPlugin(old(Now()), WriteCall(offset, count, r)) && (Faultless() ==> r == 0)
    {
      hide Flat, Splice, Spared, CodeOf, Sound;
      ghost var inside := Inside(count, offset);
      if inside {
        SparedSame(count, offset);
      }
      if !hasPwrite || offset * blocksize + count * blocksize > exportsize {
        r := Stray();
        return;
      }
      match plugin
      case Card(c) =>
        if offset + count == 0 {
          r := Stray();
          assert buf == [];
          SpliceNothing(Disk(), 0);
        } else {
          r := PwriteCard(c, buf, count, offset);
        }
      case File(f) =>
        r := PwriteFile(f, buf, count, offset);
    }

    /** `lwnbd_pwrite`, in blocks. */
    method Pwrite(buf: seq<byte>, count: nat, offset: nat) returns (r: int)
      requires Valid() && Span(count, blocksize) == |buf|
      modifies this`strays, this`calls, Repr()
      ensures Valid() && calls == old(calls) + [WriteCall(offset, count, r)]
      ensures r == 0 && Inside(count, offset) && hasPwrite ==>
                IsSplice(old(Disk()), Disk(), Span(offset, blocksize), buf)
      ensures !Inside(count, offset) || !hasPwrite ==> Disk() == old(Disk())
      ensures Inside(count, offset) && Grain() > 0 ==>
                Spared(old(Disk()), Disk(), offset, offset + count, Grain(), blocksize)
      ensures Inside(count, offset) && hasPwrite && (plugin.File? || offset + count > 0) ==>
                FromPlugin(old(Now()), WriteCall(offset, count, r)) && (Faultless() ==> r == 0)
    {
      hide PluginValid, Disk, Now, FromPlugin, Faultless, Splice, IsSplice, Spared, Grain;
      r := CallPwrite(buf, count, offset);
      if Faultless() {
        SoundMore(Serves(), calls, WriteCall(offset, count, r));
      }
      calls := calls + [WriteCall(offset, count, r)];
    }

    /** The plugin's flush. */
    method CallFlush() returns (r: int)
      requires Valid()
      modifies this`strays, Repr()
      ensures Valid() && Disk() == old(Disk()) && calls == old(calls)
      ensures hasFlush ==> FromPlugin(old(Now()), FlushCall(r)) && (Faultless() ==> r == 0)
      ensures hasFlush && plugin.File? ==>
                && |plugin.file.log| == old(|plugin.file.log|) + 1
                && (r == 0 <==> plugin.file.transfer(old(|plugin.file.log|)) >= 0)
    {
      if !hasFlush {
        r := Stray();
        return;
      }
      match plugin
      case Card(_) =>
        r := 0;
      case File(f) =>
        r := f.Flush();
    }

    /** `lwnbd_flush`. */
    method Flush() returns (r: int)
      requires Valid()
      modifies this`strays, this`calls, Repr()
      ensures Valid() && Disk() == old(Disk()) && calls == old(calls) + [FlushCall(r)]
      ensures hasFlush ==> FromPlugin(old(Now()), FlushCall(r)) && (Faultless() ==> r == 0)
      ensures hasFlush && plugin.File? ==>
                && |plugin.file.log| == old(|plugin.file.log|) + 1
                && (r == 0 <==> plugin.file.transfer(old(|plugin.file.log|)) >= 0)
    {
      hide PluginValid, Disk, Now, FromPlugin, Faultless;
      r := CallFlush();
      if Faultless() {
        SoundMore(Serves(), calls, FlushCall(r));
      }
      calls := calls + [FlushCall(r)];
    }
  }

  lemma FlagBits()
    ensures Or(1, 2) == 3 && Or(1, 4) == 5 && Or(3, 4) == 7
    ensures And(1, 1) == 1 && And(3, 1) == 1 && And(5, 1) == 1 && And(7, 1) == 1
    ensures And(1, 2) == 0 && And(3, 2) == 2 && And(5, 2) == 0 && And(7, 2) == 2
    ensures And(1, 4) == 0 && And(3, 4) == 0 && And(5, 4) == 4 && And(7, 4) == 4
  {
  }

  lemma CardMask(ppb: nat, offset: nat)
    requires IsPow2(ppb) && ppb > 0
    ensures And(offset, ppb - 1) == offset % ppb
  {
    MaskIsModIffPow2(ppb);
  }

  lemma UnitsOfOne(x: nat)
    ensures Down(x, 1) == x == Up(x, 1) && Span(x, 1) == x
  {
  }

  /** Rounding to erase blocks stays on the card. */
  lemma RoundedInside(lo: nat, hi: nat, ppb: nat, blocks: nat)
    requires ppb > 0 && lo <= hi <= Span(blocks, ppb)
    ensures Down(lo, ppb) <= Up(hi, ppb) <= Span(blocks, ppb)
  {
    hide Span;
    DivBounds(lo, ppb);
    DivBounds(hi + ppb - 1, ppb);
    NotAbove((hi + ppb - 1) / ppb, blocks, ppb);
  }

  /** What a card write spares, in bytes. */
  lemma CardSpares(before: seq<Page>, after: seq<Page>, ppb: nat, blocks: nat, lo: nat, hi: nat)
    requires ppb > 0 && lo <= hi <= |before| == Span(blocks, ppb)
    requires SameOutside(before, after, Down(lo, ppb), Up(hi, ppb))
    requires AllSized(Datas(before), 512) && AllSized(Datas(after), 512)
    ensures Spared(Flat(Datas(before)), Flat(Datas(after)), lo, hi, ppb, 512)
  {
    RoundedInside(lo, hi, ppb, blocks);
    SameBytesOutside(before, after, 512, Down(lo, ppb), Up(hi, ppb));
  }

  lemma NotAbove(a: nat, b: nat, d: nat)
    requires Span(a, d) < Span(b, d) + d
    ensures Span(a, d) <= Span(b, d)
  {
    if b < a {
      SpanFits(b, 1, a, d);
      SpanOne(d);
    } else {
      SpanFits(a, b - a, b, d);
    }
  }

  /** A write inside the file, however far it came, leaves the rest of the file. */
  lemma WrittenSpares(s: seq<byte>, at: nat, data: seq<byte>, done: nat)
    requires at + |data| <= |s| && done <= |data|
    ensures Spared(s, Written(s, at, data[..done]), at, at + |data|, 1, 1)
  {
    UnitsOfOne(at);
    UnitsOfOne(at + |data|);
    if done > 0 {
      WrittenReads(s, at, data[..done]);
    }
  }

  /** A write inside the file is a splice. */
  lemma WrittenInside(s: seq<byte>, at: nat, data: seq<byte>, done: nat)
    requires at + |data| <= |s| && done <= |data|
    ensures |Written(s, at, data[..done])| == |s|
    ensures done == |data| ==> IsSplice(s, Written(s, at, data[..done]), at, data)
  {
    if done > 0 {
      WrittenReads(s, at, data[..done]);
    } else {
      SpliceNothing(s, at);
    }
    assert done == |data| ==> data[..done] == data;
  }
}
