/** Two-pass compression of one scan: count, make the tables, and code the same MCUs with them. */
module TwoPassScan {
  import opened JpegTypes
  import opened HuffmanOutput
  import opened ScanCode
  import opened ScanRuns
  import opened ScanTables
  import opened ScanVisits
  import opened McuEncoder
  import opened Geometry
  import opened McuSequence
  import opened McuLayout
  import opened CoefController
  import opened CompressPass
  import opened GatherPass
  import opened GatherController
  import opened TwoPass

  datatype Optimized =
    | Coded(tables: HuffTables)
    | BadCoefficient
    | CodeTooLong
    | Stopped
    | Refused

  /** The scan parameters are those of the controller's scan. */
  ghost predicate Matches(c: Controller, sc: Scan) {
    && c.Sized() && sc.Valid()
    && sc.layout.comps == |c.plan.parts| && sc.layout.membership == Membership(c.plan.parts, |c.plan.parts|)
  }

  /** Every component of the scan has blocks in it. */
  lemma ScanComplete(c: Controller, sc: Scan)
    requires Matches(c, sc)
    ensures sc.layout.Fits(ScanMcus(c.order)) && ScanMcus(c.order) != []
    ensures forall i :: 0 <= i < sc.layout.comps ==> i in sc.layout.membership
  {
    SizesFit(c.dct, c.f, c.plan, sc);
    c.OrderShape(0);
    PartFits(c.f, c.plan, 0);
    var rest := BeforeIsPrefix(c.order, 0, 0, 1);
    assert |RowMcus(c.order, 0, 0, 1)| == 1;
    forall i | 0 <= i < sc.layout.comps ensures i in sc.layout.membership {
      PartFits(c.f, c.plan, i);
      TimesPositive(c.plan.parts[i].mcuHeight, c.plan.parts[i].mcuWidth);
      EveryPartCoded(c.plan.parts, |c.plan.parts|, i);
    }
  }

  lemma TimesPositive(a: nat, b: nat)
    requires a > 0 && b > 0
    ensures Times(a, b) > 0
  {
    TimesStep(a - 1, b);
  }

  /** The emitting pass over the MCUs that were counted never lacks a code. */
  lemma SecondPassNeverFails(c: Controller, enc: Encoder)
    requires c.Sized() && c.Linked(enc)
    requires enc.sc.layout.Fits(ScanMcus(c.order))
    requires RunOk(enc.sc.layout, HuffCoder(enc.sc, enc.tb), Start(enc.sc.layout), ScanMcus(c.order))
    ensures !c.Uncodable(enc)
  {
    if c.Uncodable(enc) {
      c.UncodableScan(enc);
      assert false;
    }
  }

  /** The counting pass of a new gatherer. */
  method Count(c: Controller, sc: Scan) returns (ok: bool, g: Gatherer)
    requires Matches(c, sc) && c.Counting() && c.row == 0 && c.vertOffset == 0 && c.mcuCtr == 0 && c.Loaded(0).Sound?
    modifies c`row, c`mcuCtr, c`vertOffset, c`mcuRows, c.buffer, c.whole
    ensures fresh(g) && fresh(g.dcCounts) && fresh(g.acCounts) && g.sc == sc
    ensures ok <==> !OutOfRange(c, sc)
    ensures ok ==> g.Valid() && g.history == ScanMcus(c.order) && c.Loaded(c.f.rows).Sound?
  {
    hide Membership, Visits, ScanMcus, AllInRange;
    g := new Gatherer(sc);
    StartCounted(c, g);
    ok := GatherImage(c, g);
    if ok {
      CountedValid(c, g);
    }
  }

  lemma CountedValid(c: Controller, g: Gatherer)
    requires Counted(c, g, c.vertOffset, c.mcuCtr).Sound?
    ensures g.Valid()
  {
  }

  /** The first pass, and the tables from its counts. */
  method FirstPass(c: Controller, sc: Scan, before: HuffTables) returns (r: Optimized, tb: CodeTables)
    requires Matches(c, sc) && c.Counting() && c.row == 0 && c.vertOffset == 0 && c.mcuCtr == 0 && c.Loaded(0).Sound?
    requires before.WellTyped() && sc.layout.Fits(ScanMcus(c.order))
    requires WithinLimit(sc, Visits(sc.layout, StartPace(sc.layout), ScanMcus(c.order)))
    modifies c`row, c`mcuCtr, c`vertOffset, c`mcuRows, c.buffer, c.whole
    ensures r.Coded? || r.BadCoefficient? || r.CodeTooLong?
    ensures r.BadCoefficient? <==> OutOfRange(c, sc)
    ensures r.CodeTooLong? <==> !OutOfRange(c, sc) && SomeTooLong(sc, ScanMcus(c.order))
    ensures r.Coded? ==> AllPrepared(sc, r.tables, tb) && c.Loaded(c.f.rows).Sound?
    ensures r.Coded? ==> RunOk(sc.layout, HuffCoder(sc, tb), Start(sc.layout), ScanMcus(c.order))
  {
    hide WithinLimit, Visits, RunOk, HuffCoder, SomeTooLong, ScanMcus, Membership, OutOfRange;
    ScanComplete(c, sc);
    tb := CodeTables([], []);
    var ok, g := Count(c, sc);
    if !ok {
      return BadCoefficient, tb;
    }
    var made, ts := OptimizeTables(g, before);
    if made.Err? {
      return CodeTooLong, tb;
    }
    return Coded(ts), made.value;
  }

  /**
   Both passes over an image, the destination refusing and being drained in any pattern during the second. The result
   is bad only for a coefficient out of range or a code word of more than 32 bits, never for a missing code; and what a
   completed second pass adds to the destination decodes, with the tables made in between, to the image's MCUs.
   */
  method CompressTwice(c: Controller, sc: Scan, before: HuffTables, dest: Destination, drains: seq<bool>, refusals: seq<bool>)
    returns (r: Optimized)
    requires Matches(c, sc) && c.Counting() && c.row == 0 && c.vertOffset == 0 && c.mcuCtr == 0 && c.Loaded(0).Sound?
    requires before.WellTyped() && sc.layout.Fits(ScanMcus(c.order)) && dest.Valid() && c.buffer as object != dest.buf
    requires WithinLimit(sc, Visits(sc.layout, StartPace(sc.layout), ScanMcus(c.order)))
    requires |drains| == |refusals|
    modifies c`row, c`mcuCtr, c`vertOffset, c`mcuRows, c.buffer, c.whole, dest, dest.buf
    ensures r.BadCoefficient? <==> OutOfRange(c, sc)
    ensures r.CodeTooLong? <==> !OutOfRange(c, sc) && SomeTooLong(sc, ScanMcus(c.order))
    ensures r.Stopped? ==> Willing(refusals, |refusals|) < c.f.rows
    ensures r.Refused? ==> dest.refuses
    ensures r.Coded? ==> r.tables.WellTyped() && dest.Valid() && old(dest.Committed()) <= dest.Committed()
    ensures r.Coded? ==>
      DecodeScan(sc.layout, HuffReader(sc, r.tables), dest.Committed()[|old(dest.Committed())|..], |ScanMcus(c.order)|, 0)
        == Some(ScanMcus(c.order))
  {
    hide WithinLimit, Visits, RunOk, SomeTooLong, ScanMcus, Membership, OutOfRange, DecodeScan, HuffReader, HuffCoder;
    var tb;
    r, tb := FirstPass(c, sc, before);
    if !r.Coded? {
      return;
    }
    c.StartPass();
    var enc := new Encoder(sc, tb, dest);
    c.StartPoised(enc);
    SecondPassNeverFails(c, enc);
    var second := OutputPass(c, enc, drains, refusals);
    match second
    case Complete =>
      CompressedScanDecodes(c, enc, r.tables);
    case Unfinished =>
      r := Stopped;
    case CannotSuspend =>
      r := Refused;
    case CannotCode =>
      assert false;
  }
}
