/** What the operations of a card write look like, seen from the flash. */
module FlashRules {
  import opened Bytes
  import opened Nand

  /** The blocks erased, in order. */
  function Erased(ops: seq<FlashOp>): seq<nat> {
    if ops == [] then [] else (if ops[0].Erase? then [ops[0].block] else []) + Erased(ops[1..])
  }

  /** The programming operations, in order. */
  function Programmed(ops: seq<FlashOp>): seq<FlashOp> {
    if ops == [] then [] else (if ops[0].Program? then [ops[0]] else []) + Programmed(ops[1..])
  }

  function Range(lo: nat, hi: nat): seq<nat>
    requires lo <= hi
  {
    if lo == hi then [] else Range(lo, hi - 1) + [hi - 1]
  }

  lemma {:induction false} ProjectConcat(a: seq<FlashOp>, b: seq<FlashOp>)
    ensures Erased(a + b) == Erased(a) + Erased(b)
    ensures Programmed(a + b) == Programmed(a) + Programmed(b)
    decreases |a|
  {
    if a == [] {
      assert a + b == b;
    } else {
      assert (a + b)[0] == a[0] && (a + b)[1..] == a[1..] + b;
      ProjectConcat(a[1..], b);
      Associate(if a[0].Erase? then [a[0].block] else [], Erased(a[1..]), Erased(b));
      Associate(if a[0].Program? then [a[0]] else [], Programmed(a[1..]), Programmed(b));
    }
  }

  lemma {:induction false} ProjectReads(base: nat, n: nat)
    ensures Erased(Reads(base, n)) == [] && Programmed(Reads(base, n)) == []
    decreases n
  {
    if n > 0 {
      assert Reads(base, n)[1..] == Reads(base + 1, n - 1);
      ProjectReads(base + 1, n - 1);
    }
  }

  lemma {:induction false} ProjectPrograms(base: nat, sealed: seq<Page>)
    ensures Erased(Programs(base, sealed)) == [] && Programmed(Programs(base, sealed)) == Programs(base, sealed)
    decreases |sealed|
  {
    if sealed != [] {
      var rest := Programs(base + 1, sealed[1..]);
      assert Programs(base, sealed)[1..] == rest;
      ProjectPrograms(base + 1, sealed[1..]);
      assert Programs(base, sealed) == [Program(base, sealed[0])] + rest;
    }
  }

  lemma ProjectBlock(block: nat, ppb: nat, partial: bool, sealed: seq<Page>)
    ensures Erased(BlockPlan(block, ppb, partial, sealed)) == [block]
    ensures Programmed(BlockPlan(block, ppb, partial, sealed)) == Programs(Span(block, ppb), sealed)
  {
    hide Span;
    var first := if partial then Reads(Span(block, ppb), ppb) else [];
    var erase, programs := [Erase(block)], Programs(Span(block, ppb), sealed);
    ProjectConcat(first, erase + programs);
    ProjectConcat(erase, programs);
    ProjectReads(Span(block, ppb), ppb);
    ProjectPrograms(Span(block, ppb), sealed);
    assert Erased(erase) == [block] && Programmed(erase) == [] by {
      assert erase[1..] == [];
    }
  }

  lemma ProgramsConcat(base: nat, a: seq<Page>, b: seq<Page>)
    ensures Programs(base, a) + Programs(base + |a|, b) == Programs(base, a + b)
  {
  }

  lemma ProgramsMore(final: seq<Page>, lo: nat, base: nat, hi: nat)
    requires lo <= base <= hi <= |final|
    ensures Programs(lo, final[lo..base]) + Programs(base, final[base..hi]) == Programs(lo, final[lo..hi])
  {
    ProgramsConcat(lo, final[lo..base], final[base..hi]);
    assert final[lo..base] + final[base..hi] == final[lo..hi];
  }

  /** What one more block adds. */
  lemma ProjectNext(plans: seq<seq<FlashOp>>, block: nat, ppb: nat, partial: bool, sealed: seq<Page>)
    ensures var ops := Flat(plans + [BlockPlan(block, ppb, partial, sealed)]);
            && Erased(ops) == Erased(Flat(plans)) + [block]
            && Programmed(ops) == Programmed(Flat(plans)) + Programs(Span(block, ppb), sealed)
  {
    hide BlockPlan, Flat, Erased, Programmed, Programs;
    var plan := BlockPlan(block, ppb, partial, sealed);
    FlatSnoc(plans, plan);
    ProjectConcat(Flat(plans), plan);
    ProjectBlock(block, ppb, partial, sealed);
  }

  /**
   * A write erases each of its blocks exactly once, in order, and programs
   * each page of them exactly once, in order, with its final content; no
   * other block is erased and no other page programmed.
   */
  lemma {:induction false} EachBlockOnce(final: seq<Page>, ppb: nat, at: nat, n: nat, start: nat, stop: nat)
    requires start <= stop && Span(stop, ppb) <= |final|
    ensures Erased(Flat(Plans(final, ppb, at, n, start, stop))) == Range(start, stop)
    ensures Span(start, ppb) <= Span(stop, ppb)
    ensures Programmed(Flat(Plans(final, ppb, at, n, start, stop)))
         == Programs(Span(start, ppb), final[Span(start, ppb)..Span(stop, ppb)])
    decreases stop
  {
    hide Span, BlockPlan, Partial, Flat, Erased, Programmed, Programs;
    SpanFits(start, stop - start, stop, ppb);
    if start == stop {
      NothingPlanned(Span(start, ppb), final);
    } else {
      BlockBelow(stop - 1, stop, ppb);
      SpanFits(start, stop - 1 - start, stop - 1, ppb);
      var base := Span(stop - 1, ppb);
      EachBlockOnce(final, ppb, at, n, start, stop - 1);
      ProjectNext(Plans(final, ppb, at, n, start, stop - 1), stop - 1, ppb, Partial(at, n, base, ppb),
                  final[base..base + ppb]);
      ProgramsMore(final, Span(start, ppb), base, base + ppb);
    }
  }

  lemma NothingPlanned(base: nat, final: seq<Page>)
    requires base <= |final|
    ensures Erased(Flat([])) == [] && Programmed(Flat([])) == [] == Programs(base, final[base..base])
  {
  }

  /** The pages read, in order. */
  function Fetched(ops: seq<FlashOp>): seq<nat> {
    if ops == [] then [] else (if ops[0].Read? then [ops[0].page] else []) + Fetched(ops[1..])
  }

  lemma {:induction false} FetchedConcat(a: seq<FlashOp>, b: seq<FlashOp>)
    ensures Fetched(a + b) == Fetched(a) + Fetched(b)
    decreases |a|
  {
    if a == [] {
      assert a + b == b;
    } else {
      assert (a + b)[0] == a[0] && (a + b)[1..] == a[1..] + b;
      FetchedConcat(a[1..], b);
      Associate(if a[0].Read? then [a[0].page] else [], Fetched(a[1..]), Fetched(b));
    }
  }

  lemma {:induction false} FetchedReads(base: nat, n: nat, p: nat)
    ensures p in Fetched(Reads(base, n)) <==> base <= p < base + n
    decreases n
  {
    if n > 0 {
      assert Reads(base, n)[1..] == Reads(base + 1, n - 1);
      FetchedReads(base + 1, n - 1, p);
    }
  }

  lemma {:induction false} FetchedPrograms(base: nat, sealed: seq<Page>)
    ensures Fetched(Programs(base, sealed)) == []
    decreases |sealed|
  {
    if sealed != [] {
      assert Programs(base, sealed)[1..] == Programs(base + 1, sealed[1..]);
      FetchedPrograms(base + 1, sealed[1..]);
    }
  }

  lemma FetchedBlock(block: nat, ppb: nat, partial: bool, sealed: seq<Page>, p: nat)
    ensures p in Fetched(BlockPlan(block, ppb, partial, sealed)) <==>
            partial && Span(block, ppb) <= p < Span(block, ppb) + ppb
  {
    hide Span;
    var first := if partial then Reads(Span(block, ppb), ppb) else [];
    var erase, programs := [Erase(block)], Programs(Span(block, ppb), sealed);
    FetchedConcat(first, erase + programs);
    FetchedConcat(erase, programs);
    FetchedReads(Span(block, ppb), ppb, p);
    FetchedPrograms(Span(block, ppb), sealed);
    assert Fetched(erase) == [] by {
      assert erase[1..] == [];
    }
  }

  /** The block that starts at page `base` is replaced as a whole by `n` pages from page `at` on. */
  predicate Replaced(base: nat, ppb: nat, at: nat, n: nat) {
    at <= base && base + ppb <= at + n
  }

  /** A write reads exactly the pages of those of its blocks that it does not replace as a whole. */
  lemma {:induction false} ReadsIffKept(final: seq<Page>, ppb: nat, at: nat, n: nat, start: nat, stop: nat, p: nat)
    requires ppb > 0 && start <= stop && Span(stop, ppb) <= |final|
    ensures p in Fetched(Flat(Plans(final, ppb, at, n, start, stop))) <==>
            Span(start, ppb) <= p < Span(stop, ppb) && !Replaced(Down(p, ppb), ppb, at, n)
    decreases stop
  {
    hide Span, BlockPlan, Flat, Fetched, Down, Replaced;
    if start == stop {
      NothingFetched();
    } else {
      BlockBelow(stop - 1, stop, ppb);
      SpanFits(start, stop - 1 - start, stop - 1, ppb);
      var base := Span(stop - 1, ppb);
      var partial, sealed := Partial(at, n, base, ppb), final[base..base + ppb];
      var plans := Plans(final, ppb, at, n, start, stop - 1);
      ReadsIffKept(final, ppb, at, n, start, stop - 1, p);
      FlatSnoc(plans, BlockPlan(stop - 1, ppb, partial, sealed));
      FetchedConcat(Flat(plans), BlockPlan(stop - 1, ppb, partial, sealed));
      FetchedBlock(stop - 1, ppb, partial, sealed, p);
      assert partial <==> !Replaced(base, ppb, at, n) by { PartialIff(at, n, base, ppb); }
      if base <= p < base + ppb {
        DownIs(p, stop - 1, ppb);
      }
    }
  }

  lemma NothingFetched()
    ensures Fetched(Flat([])) == []
  {
  }

  lemma PartialIff(at: nat, n: nat, base: nat, ppb: nat)
    ensures Partial(at, n, base, ppb) <==> !Replaced(base, ppb, at, n)
  {
  }

  lemma DownIs(p: nat, block: nat, ppb: nat)
    requires Span(block, ppb) <= p < Span(block, ppb) + ppb
    ensures Down(p, ppb) == Span(block, ppb)
  {
    hide Span;
    DivBounds(p, ppb);
    if p / ppb < block {
      BlockBelow(p / ppb, block, ppb);
    } else if block < p / ppb {
      BlockBelow(block, p / ppb, ppb);
    }
  }

  lemma FlatSnoc<T>(ps: seq<seq<T>>, p: seq<T>)
    ensures Flat(ps + [p]) == Flat(ps) + p
  {
    FlatConcat(ps, [p]);
    assert Flat([p]) == p + Flat([]);
  }

  // ---------- Erase before program ----------

  predicate InRun(base: nat, n: nat, page: nat) {
    base <= page < base + n
  }

  function PagesOf(block: nat, ppb: nat): set<nat> {
    set p: nat | Span(block, ppb) <= p < Span(block, ppb) + ppb && InRun(Span(block, ppb), ppb, p)
  }

  /** The pages that are blank after one operation, if `clean` were before it. */
  function CleanAfter(op: FlashOp, ppb: nat, clean: set<nat>): set<nat> {
    match op
    case Read(_) => clean
    case Erase(b) => clean + PagesOf(b, ppb)
    case Program(p, _) => clean - {p}
  }

  /** No page is programmed unless its block was erased since it was last programmed. */
  predicate Obeys(ops: seq<FlashOp>, ppb: nat, clean: set<nat>)
    decreases |ops|
  {
    ops == [] || ((ops[0].Program? ==> ops[0].page in clean) && Obeys(ops[1..], ppb, CleanAfter(ops[0], ppb, clean)))
  }

  function CleanEnd(ops: seq<FlashOp>, ppb: nat, clean: set<nat>): set<nat>
    decreases |ops|
  {
    if ops == [] then clean else CleanEnd(ops[1..], ppb, CleanAfter(ops[0], ppb, clean))
  }

  lemma {:induction false} ObeysConcat(a: seq<FlashOp>, b: seq<FlashOp>, ppb: nat, clean: set<nat>)
    ensures Obeys(a + b, ppb, clean) <==> Obeys(a, ppb, clean) && Obeys(b, ppb, CleanEnd(a, ppb, clean))
    decreases |a|
  {
    if a == [] {
      assert a + b == b;
    } else {
      assert (a + b)[0] == a[0] && (a + b)[1..] == a[1..] + b;
      ObeysConcat(a[1..], b, ppb, CleanAfter(a[0], ppb, clean));
    }
  }

  lemma {:induction false} ObeysReads(base: nat, n: nat, ppb: nat, clean: set<nat>)
    ensures Obeys(Reads(base, n), ppb, clean) && CleanEnd(Reads(base, n), ppb, clean) == clean
    decreases n
  {
    if n > 0 {
      assert Reads(base, n)[1..] == Reads(base + 1, n - 1);
      ObeysReads(base + 1, n - 1, ppb, clean);
    }
  }

  lemma {:induction false} ObeysPrograms(base: nat, sealed: seq<Page>, ppb: nat, clean: set<nat>)
    requires forall p: nat :: InRun(base, |sealed|, p) ==> p in clean
    ensures Obeys(Programs(base, sealed), ppb, clean)
    decreases |sealed|
  {
    if sealed != [] {
      assert Programs(base, sealed)[1..] == Programs(base + 1, sealed[1..]);
      assert InRun(base, |sealed|, base);
      assert forall p: nat :: InRun(base + 1, |sealed| - 1, p) ==> InRun(base, |sealed|, p);
      ObeysPrograms(base + 1, sealed[1..], ppb, clean - {base});
    }
  }

  lemma ObeysBlock(block: nat, ppb: nat, partial: bool, sealed: seq<Page>, clean: set<nat>)
    requires |sealed| == ppb
    ensures Obeys(BlockPlan(block, ppb, partial, sealed), ppb, clean)
  {
    hide Span;
    var first := if partial then Reads(Span(block, ppb), ppb) else [];
    var erase, programs := [Erase(block)], Programs(Span(block, ppb), sealed);
    ObeysConcat(first, erase + programs, ppb, clean);
    ObeysReads(Span(block, ppb), ppb, ppb, clean);
    ObeysConcat(erase, programs, ppb, clean);
    assert erase[1..] == [];
    ObeysPrograms(Span(block, ppb), sealed, ppb, CleanEnd(erase, ppb, clean));
  }

  lemma {:induction false} ObeysPlans(final: seq<Page>, ppb: nat, at: nat, n: nat, start: nat, stop: nat,
                                      clean: set<nat>)
    requires start <= stop && Span(stop, ppb) <= |final|
    ensures Obeys(Flat(Plans(final, ppb, at, n, start, stop)), ppb, clean)
    decreases stop
  {
    hide Span, BlockPlan, Partial;
    if start < stop {
      BlockBelow(stop - 1, stop, ppb);
      var base := Span(stop - 1, ppb);
      var block := BlockPlan(stop - 1, ppb, Partial(at, n, base, ppb), final[base..base + ppb]);
      var before := Flat(Plans(final, ppb, at, n, start, stop - 1));
      ObeysPlans(final, ppb, at, n, start, stop - 1, clean);
      FlatSnoc(Plans(final, ppb, at, n, start, stop - 1), block);
      ObeysConcat(before, block, ppb, clean);
      ObeysBlock(stop - 1, ppb, Partial(at, n, base, ppb), final[base..base + ppb], CleanEnd(before, ppb, clean));
    }
  }

  /**
   * Whatever operation fails, the operations a write has issued never program
   * a page that was not erased since it was last programmed.
   */
  lemma IssuedObeys(fault: nat -> int, cardSize: nat, log: seq<FlashOp>, final: seq<Page>, ppb: nat, at: nat, n: nat,
                    start: nat, stop: nat)
    requires start <= stop && Span(stop, ppb) <= |final|
    ensures var after := Issue(fault, cardSize, log, Flat(Plans(final, ppb, at, n, start, stop))).0;
            log <= after && Obeys(after[|log|..], ppb, {})
  {
    hide Span, BlockPlan, Partial, Plans;
    var plan := Flat(Plans(final, ppb, at, n, start, stop));
    ObeysPlans(final, ppb, at, n, start, stop, {});
    IssuedPrefix(fault, cardSize, log, plan);
    var issued := Issue(fault, cardSize, log, plan).0[|log|..];
    assert plan == issued + plan[|issued|..];
    ObeysConcat(issued, plan[|issued|..], ppb, {});
  }
}
