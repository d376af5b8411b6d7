/** The counting pass driven by the coefficient controller: what is buffered is also counted, MCU by MCU. */
module GatherController {
  import opened Soundness
  import opened ScanCode
  import opened ScanTables
  import opened ScanVisits
  import opened GatherPass
  import opened Geometry
  import opened McuSequence
  import opened McuLayout
  import opened CoefController

  /** The MCUs before position (y, x) of the current iMCU row are counted. */
  ghost function Counted(c: Controller, g: Gatherer, y: nat, x: nat): (s: Standing)
    reads c`row, c`mcuCtr, c`vertOffset, c`mcuRows, g, g.dcCounts, g.acCounts
    ensures s.Sound? ==> c.row <= c.f.rows && c.vertOffset < c.mcuRows && c.mcuCtr < c.plan.mcusPerRow
  {
    if c.Sized() && c.Counting() && g.Valid() && g.sc.layout.membership == Membership(c.plan.parts, |c.plan.parts|)
       && g.history == McusBefore(c.order, c.row, y, x)
    then Sound else Unsound
  }

  /** Some coefficient of the scan is out of range. */
  ghost predicate OutOfRange(c: Controller, sc: Scan) {
    && sc.Valid() && sc.layout.Fits(ScanMcus(c.order))
    && !AllInRange(sc, Visits(sc.layout, StartPace(sc.layout), ScanMcus(c.order)))
  }

  lemma {:induction false} VisitsOfPart(sc: Layout, p: Pace, a: seq<Mcu>, b: seq<Mcu>)
    requires sc.Fits(a + b) && |p.dc| == sc.comps
    ensures sc.Fits(a) && Visits(sc, p, a) <= Visits(sc, p, a + b)
    decreases |a|
  {
    assert forall i :: 0 <= i < |a| ==> a[i] == (a + b)[i];
    if a != [] {
      assert |a[0]| == |sc.membership|;
      assert (a + b)[1..] == a[1..] + b && (a + b)[0] == a[0];
      VisitsOfPart(sc, NextPace(sc, p, a[0]), a[1..], b);
    }
  }

  lemma RangeOfMcu(c: Controller, sc: Scan, y: nat, x: nat)
    requires c.Sized() && c.row < c.f.rows && y < c.plan.McuRows(c.f, c.row) && x < c.plan.mcusPerRow && sc.Valid()
    requires sc.layout.membership == Membership(c.plan.parts, |c.plan.parts|)
    requires var mcus := McusBefore(c.order, c.row, y, x) + [c.order.at(c.row, y, x)];
      sc.layout.Fits(mcus) && !AllInRange(sc, Visits(sc.layout, StartPace(sc.layout), mcus))
    ensures OutOfRange(c, sc)
  {
    c.OrderShape(c.row);
    NextMcu(c.order, c.row, y, x);
    SizesFit(c.dct, c.f, c.plan, sc);
    var rest := BeforeIsPrefix(c.order, c.row, y, x + 1);
    VisitsOfPart(sc.layout, StartPace(sc.layout), McusBefore(c.order, c.row, y, x + 1), rest);
  }

  /** The MCU at this position, from the virtual arrays, is counted. */
  method GatherMcu(c: Controller, g: Gatherer, yoffset: nat, x: nat) returns (ok: bool)
    requires Counted(c, g, yoffset, x).Sound? && c.Loaded(c.row + 1).Sound?
    requires c.row < c.f.rows && yoffset < c.mcuRows && x < c.plan.mcusPerRow
    modifies c.buffer, g, g.dcCounts, g.acCounts
    ensures ok ==> Counted(c, g, yoffset, x + 1).Sound?
    ensures !ok ==> OutOfRange(c, g.sc)
  {
    hide Times, Blocks, Membership, Visits, AllInRange;
    var blkn := c.LoadMcu(yoffset, x);
    var mcu: Mcu := c.buffer[..blkn];
    NextMcu(c.order, c.row, yoffset, x);
    ok := g.EncodeMcuGather(mcu);
    if !ok {
      RangeOfMcu(c, g.sc, yoffset, x);
    }
  }

  /** One MCU row. */
  method GatherMcuRow(c: Controller, g: Gatherer, yoffset: nat) returns (ok: bool)
    requires Counted(c, g, yoffset, c.mcuCtr).Sound? && c.Loaded(c.row + 1).Sound? && c.row < c.f.rows && yoffset < c.mcuRows
    modifies c`mcuCtr, c.buffer, g, g.dcCounts, g.acCounts
    ensures ok ==> Counted(c, g, yoffset + 1, 0).Sound? && c.mcuCtr == 0
    ensures !ok ==> OutOfRange(c, g.sc)
  {
    hide *;
    var col: nat := c.mcuCtr;
    while col < c.plan.mcusPerRow
      invariant col <= c.plan.mcusPerRow && Counted(c, g, yoffset, col).Sound? && c.Loaded(c.row + 1).Sound?
    {
      ok := GatherMcu(c, g, yoffset, col);
      if !ok {
        return;
      }
      col := col + 1;
    }
    EndMcuRow(c, g, yoffset);
    ok := true;
  }

  method EndMcuRow(c: Controller, g: Gatherer, yoffset: nat)
    requires Counted(c, g, yoffset, c.plan.mcusPerRow).Sound?
    modifies c`mcuCtr
    ensures Counted(c, g, yoffset + 1, 0).Sound? && c.mcuCtr == 0
  {
    hide McusBefore, ScanOrder, Membership, Blocks, Times;
    c.OrderShape(c.row);
    NextMcuRow(c.order, c.row, yoffset);
    c.mcuCtr := 0;
  }

  method EndIMcuRow(c: Controller, g: Gatherer)
    requires Counted(c, g, c.mcuRows, 0).Sound? && c.row < c.f.rows
    modifies c`row, c`mcuCtr, c`vertOffset, c`mcuRows
    ensures c.row == old(c.row) + 1 && Counted(c, g, 0, 0).Sound? && c.vertOffset == 0 && c.mcuCtr == 0
  {
    hide McusBefore, ScanOrder, Membership, Blocks, Times;
    c.OrderShape(c.row);
    NextStrip(c.order, c.row);
    c.row := c.row + 1;
    c.StartIMcuRow();
  }

  /** compress_first_pass with the counting encoder: a strip goes into the virtual arrays, then its MCUs are counted. */
  method GatherFirstPass(c: Controller, g: Gatherer) returns (ok: bool)
    requires Counted(c, g, c.vertOffset, c.mcuCtr).Sound? && c.Loaded(c.row).Sound? && c.row < c.f.rows
    modifies c`row, c`mcuCtr, c`vertOffset, c`mcuRows, c.buffer, c.whole, g, g.dcCounts, g.acCounts
    ensures ok ==> c.row == old(c.row) + 1 && Counted(c, g, c.vertOffset, c.mcuCtr).Sound? && c.Loaded(c.row).Sound?
    ensures !ok ==> OutOfRange(c, g.sc)
  {
    hide *;
    c.LoadStrip();
    var yoffset: nat := c.vertOffset;
    while yoffset < c.mcuRows
      invariant yoffset <= c.mcuRows && c.row == old(c.row) && Counted(c, g, yoffset, c.mcuCtr).Sound? && c.Loaded(c.row + 1).Sound?
      invariant yoffset == c.mcuRows ==> c.mcuCtr == 0
      modifies c`mcuCtr, c.buffer, g, g.dcCounts, g.acCounts
    {
      ok := GatherMcuRow(c, g, yoffset);
      if !ok {
        return;
      }
      yoffset := yoffset + 1;
    }
    EndIMcuRow(c, g);
    ok := true;
  }

  lemma AllCounted(c: Controller, g: Gatherer)
    requires Counted(c, g, c.vertOffset, c.mcuCtr).Sound? && c.row == c.f.rows
    ensures g.history == ScanMcus(c.order)
  {
  }

  /** At the start of a pass a gatherer that has counted nothing is where the counters are. */
  lemma StartCounted(c: Controller, g: Gatherer)
    requires c.Sized() && c.Counting() && c.row == 0 && c.vertOffset == 0 && c.mcuCtr == 0
    requires g.Valid() && g.history == [] && g.sc.layout.membership == Membership(c.plan.parts, |c.plan.parts|)
    ensures Counted(c, g, c.vertOffset, c.mcuCtr).Sound?
  {
  }

  /** The whole counting pass: every MCU of the image is buffered and counted, or a coefficient is out of range. */
  method GatherImage(c: Controller, g: Gatherer) returns (ok: bool)
    requires Counted(c, g, c.vertOffset, c.mcuCtr).Sound? && c.row == 0 && c.Loaded(0).Sound?
    modifies c`row, c`mcuCtr, c`vertOffset, c`mcuRows, c.buffer, c.whole, g, g.dcCounts, g.acCounts
    ensures ok ==> c.Loaded(c.f.rows).Sound? && Counted(c, g, c.vertOffset, c.mcuCtr).Sound? && c.row == c.f.rows
    ensures ok ==> g.history == ScanMcus(c.order)
    ensures ok <==> !OutOfRange(c, g.sc)
  {
    hide *;
    while c.row < c.f.rows
      invariant c.row <= c.f.rows && Counted(c, g, c.vertOffset, c.mcuCtr).Sound? && c.Loaded(c.row).Sound?
      decreases c.f.rows - c.row
    {
      ok := GatherFirstPass(c, g);
      if !ok {
        return;
      }
    }
    AllCounted(c, g);
    CountedInRange(c, g);
    ok := true;
  }

  lemma CountedInRange(c: Controller, g: Gatherer)
    requires Counted(c, g, c.vertOffset, c.mcuCtr).Sound? && g.history == ScanMcus(c.order)
    ensures !OutOfRange(c, g.sc)
  {
  }
}
