/** Which blocks make up which MCU, with the dummy blocks of T.81 section A.2.4, and the order of MCUs in a scan. */
module McuLayout {
  import opened JpegTypes
  import opened BlockCode
  import opened ScanCode
  import opened Geometry
  import opened McuSequence

  /** forward_DCT as a function: the block of a component at a block row and column of the image. */
  type Dct = (nat, nat, nat) -> Block

  /** The last block column of the iMCU that holds column col. */
  function LastOfMcu(h: nat, col: nat): nat
    requires h > 0
    decreases col
  {
    if col < h then h - 1 else h + LastOfMcu(h, col - h)
  }

  /**
   A component rounded up to whole iMCUs. Dummy blocks are zero except for the DC value: at the right edge that
   of the row's last block, below the bottom that of the MCU's last block in the row above.
   */
  ghost function PaddedBlock(dct: Dct, ci: nat, c: Component, row: nat, col: nat): Block
    requires c.h > 0 && c.width > 0 && c.height > 0
    decreases row
  {
    if row < c.height then
      if col < c.width then dct(ci, row, col) else Blank(dct(ci, row, c.width - 1)[0])
    else Blank(PaddedBlock(dct, ci, c, row - 1, LastOfMcu(c.h, col))[0])
  }

  /** Component ci padded to whole iMCUs holds this block at (row, col). */
  ghost function BlockAt(dct: Dct, f: Frame, ci: nat, row: nat, col: nat): Block
    requires f.Valid() && ci < |f.comps|
  {
    CoversPositive(f, ci);
    PaddedBlock(dct, ci, f.comps[ci], row, col)
  }

  lemma CoversPositive(f: Frame, ci: nat)
    requires f.Valid() && ci < |f.comps|
    ensures f.comps[ci].h > 0 && f.comps[ci].v > 0 && f.comps[ci].width > 0 && f.comps[ci].height > 0
  {
    var c := f.comps[ci];
    assert f.Covers(c);
  }

  /** The first n of a part's blocks in one row of MCU column x. */
  ghost function RowBlocks(dct: Dct, f: Frame, p: ScanComponent, row: nat, x: nat, n: nat): (s: seq<Block>)
    requires f.Valid() && p.index < |f.comps|
    ensures |s| == n
  {
    if n == 0 then [] else RowBlocks(dct, f, p, row, x, n - 1) + [BlockAt(dct, f, p.index, row, Times(x, p.mcuWidth) + (n - 1))]
  }

  /** The first k rows of a part's blocks, from block row row0 of the image on. */
  ghost function PartBlocks(dct: Dct, f: Frame, p: ScanComponent, row0: nat, x: nat, k: nat): (s: seq<Block>)
    requires f.Valid() && p.index < |f.comps|
    ensures |s| == Times(k, p.mcuWidth)
  {
    if k == 0 then [] else
      PartBlocks(dct, f, p, row0, x, k - 1) + RowBlocks(dct, f, p, row0 + (k - 1), x, p.mcuWidth)
  }

  lemma NoRows(dct: Dct, f: Frame, p: ScanComponent, row0: nat, x: nat)
    requires f.Valid() && p.index < |f.comps|
    ensures PartBlocks(dct, f, p, row0, x, 0) == []
  {
  }

  /** The blocks of the first n parts of the MCU at iMCU row r, MCU row y within it, MCU column x. */
  ghost function McuBlocks(dct: Dct, f: Frame, parts: seq<ScanComponent>, n: nat, r: nat, y: nat, x: nat): (s: Mcu)
    requires f.Valid() && n <= |parts| && forall i :: 0 <= i < |parts| ==> parts[i].index < |f.comps|
    ensures |s| == Blocks(parts, n)
  {
    if n == 0 then []
    else
      var p := parts[n - 1];
      McuBlocks(dct, f, parts, n - 1, r, y, x) + PartBlocks(dct, f, p, Times(r, f.comps[p.index].v) + y, x, p.mcuHeight)
  }

  /** The order in which a scan's MCUs are coded. */
  ghost function ScanOrder(dct: Dct, f: Frame, plan: ScanPlan): McuOrder
    requires plan.Valid(f)
  {
    McuOrder(
      (r: nat, y: nat, x: nat) => McuBlocks(dct, f, plan.parts, |plan.parts|, r, y, x),
      (r: nat) => plan.McuRows(f, r),
      plan.mcusPerRow,
      f.rows)
  }

  // ----- Which blocks are real -----

  /** Steps of the given size cover a length up to the last: what lies within it. */
  lemma WithinSteps(step: nat, steps: nat, length: nat, i: nat, j: nat)
    requires i < steps && j < step && Times(steps - 1, step) < length <= Times(steps, step)
    ensures 0 < length - Times(steps - 1, step) <= step
    ensures Times(i, step) + j < length <==> i < steps - 1 || j < length - Times(steps - 1, step)
    ensures Times(i, step) + j < Times(steps, step)
  {
    if i < steps - 1 {
      TimesMonotone(i + 1, steps - 1, step);
    }
  }

  /** The part's entry in the plan fits its component. */
  lemma PartFits(f: Frame, plan: ScanPlan, i: nat)
    requires plan.Valid(f) && i < |plan.parts|
    ensures var p := plan.parts[i]; var c := f.comps[p.index];
      && f.Covers(c) && plan.Fits(f, p, c) && p.mcuWidth > 0 && p.mcuHeight > 0 && 0 < p.lastColWidth <= p.mcuWidth
      && 0 < p.lastRowHeight <= c.v
  {
    var c := f.comps[plan.parts[i].index];
    assert f.Covers(c);
    WithinSteps(c.h, f.cols, c.width, 0, 0);
    WithinSteps(c.v, f.rows, c.height, 0, 0);
  }

  /** Of an MCU's block columns, exactly the first mcuWidth, or in the last MCU column lastColWidth, are real. */
  lemma RealColumns(f: Frame, plan: ScanPlan, i: nat, x: nat, xi: nat)
    requires plan.Valid(f) && i < |plan.parts| && x < plan.mcusPerRow && xi < plan.parts[i].mcuWidth
    ensures var p := plan.parts[i];
      Times(x, p.mcuWidth) + xi < f.comps[p.index].width <==> x < plan.mcusPerRow - 1 || xi < p.lastColWidth
    ensures var p := plan.parts[i];
      x == plan.mcusPerRow - 1 ==> Times(x, p.mcuWidth) + p.lastColWidth == f.comps[p.index].width
    ensures var p := plan.parts[i]; Times(x, p.mcuWidth) + xi < Times(f.cols, f.comps[p.index].h)
  {
    PartFits(f, plan, i);
    var c := f.comps[plan.parts[i].index];
    if |plan.parts| > 1 {
      WithinSteps(c.h, f.cols, c.width, x, xi);
    } else {
      TimesIs(x, 1);
    }
  }

  /** The rows of an MCU are real until the last iMCU row, and there down to lastRowHeight. */
  lemma RealRows(f: Frame, plan: ScanPlan, i: nat, r: nat, y: nat)
    requires plan.Valid(f) && i < |plan.parts| && r < f.rows && y < f.comps[plan.parts[i].index].v
    ensures var c := f.comps[plan.parts[i].index];
      && (Times(r, c.v) + y < c.height <==> r < f.rows - 1 || y < plan.parts[i].lastRowHeight)
      && Times(r, c.v) + y < Times(f.rows, c.v)
  {
    PartFits(f, plan, i);
    var c := f.comps[plan.parts[i].index];
    WithinSteps(c.v, f.rows, c.height, r, y);
  }

  /** In an interleaved scan, a column's MCU ends at the last block of the MCU's row. */
  lemma {:induction false} ColumnInMcu(h: nat, x: nat, xi: nat)
    requires xi < h
    ensures LastOfMcu(h, Times(x, h) + xi) == Times(x, h) + h - 1
  {
    if x > 0 {
      ColumnInMcu(h, x - 1, xi);
    }
  }
}
