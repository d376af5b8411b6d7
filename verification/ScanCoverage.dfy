/** Where each block of the image stands in a scan (T.81 sections A.2.2 to A.2.4), and that a scan leaves none out. */
module ScanCoverage {
  import opened BlockCode
  import opened Geometry
  import opened McuSequence
  import opened McuLayout

  // ----- Sums -----

  lemma {:induction false} TimesAdd(a: nat, b: nat, c: nat)
    ensures Times(a + b, c) == Times(a, c) + Times(b, c)
    decreases b
  {
    if b > 0 {
      TimesAdd(a, b - 1, c);
    }
  }

  lemma TimesBelow(q: nat, s: nat, p: nat, c: nat)
    requires s < c && q < p
    ensures Times(q, c) + s < Times(p, c)
  {
    TimesMonotone(q + 1, p, c);
  }

  lemma TimesUnique(q: nat, s: nat, p: nat, t: nat, c: nat)
    requires s < c && t < c && Times(q, c) + s == Times(p, c) + t
    ensures q == p && s == t
  {
    if q < p {
      TimesBelow(q, s, p, c);
    } else if p < q {
      TimesBelow(p, t, q, c);
    }
  }

  lemma {:induction false} TimesSplit(m: nat, k: nat, c: nat) returns (q: nat, s: nat)
    requires k > 0 && m < Times(k, c)
    ensures q < k && s < c && m == Times(q, c) + s
    decreases k
  {
    if m < Times(k - 1, c) {
      q, s := TimesSplit(m, k - 1, c);
    } else {
      q, s := k - 1, m - Times(k - 1, c);
    }
  }

  // ----- The number of an MCU -----

  /** The MCU rows of the first r iMCU rows. */
  ghost function RowsBefore(o: McuOrder, r: nat): nat {
    if r == 0 then 0 else RowsBefore(o, r - 1) + o.rows(r - 1)
  }

  lemma {:induction false} StripLength(o: McuOrder, r: nat, y: nat)
    ensures |StripMcus(o, r, y)| == Times(y, o.cols)
  {
    if y > 0 {
      StripLength(o, r, y - 1);
    }
  }

  lemma {:induction false} ImageLength(o: McuOrder, r: nat)
    ensures |ImageMcus(o, r)| == Times(RowsBefore(o, r), o.cols)
  {
    if r > 0 {
      ImageLength(o, r - 1);
      StripLength(o, r - 1, o.rows(r - 1));
      TimesAdd(RowsBefore(o, r - 1), o.rows(r - 1), o.cols);
    }
  }

  lemma BeforeLength(o: McuOrder, r: nat, y: nat, x: nat)
    ensures |McusBefore(o, r, y, x)| == Times(RowsBefore(o, r) + y, o.cols) + x
  {
    ImageLength(o, r);
    StripLength(o, r, y);
    TimesAdd(RowsBefore(o, r), y, o.cols);
  }

  /** The MCU at a position, by its number in the scan. */
  lemma Numbered(o: McuOrder, r: nat, y: nat, x: nat)
    requires r < o.strips && y < o.rows(r) && x < o.cols
    ensures var n := Times(RowsBefore(o, r) + y, o.cols) + x; n < |ScanMcus(o)| && ScanMcus(o)[n] == o.at(r, y, x)
  {
    BeforeLength(o, r, y, x);
    NextMcu(o, r, y, x);
    var rest := BeforeIsPrefix(o, r, y, x + 1);
  }

  lemma {:induction false} LocateMcu(o: McuOrder, strips: nat, n: nat) returns (r: nat, y: nat, x: nat)
    requires n < |ImageMcus(o, strips)|
    ensures r < strips && y < o.rows(r) && x < o.cols && n == Times(RowsBefore(o, r) + y, o.cols) + x
    decreases strips
  {
    var m := |ImageMcus(o, strips - 1)|;
    if n < m {
      r, y, x := LocateMcu(o, strips - 1, n);
    } else {
      r := strips - 1;
      ImageLength(o, r);
      StripLength(o, r, o.rows(r));
      y, x := TimesSplit(n - m, o.rows(r), o.cols);
      TimesAdd(RowsBefore(o, r), y, o.cols);
    }
  }

  lemma {:induction false} RowsBeforeIs(dct: Dct, f: Frame, plan: ScanPlan, r: nat)
    requires plan.Valid(f) && r <= f.rows
    ensures var o, v, height := ScanOrder(dct, f, plan), f.comps[plan.parts[0].index].v, f.comps[plan.parts[0].index].height;
      RowsBefore(o, r) == if |plan.parts| > 1 then r else if r < f.rows then Times(r, v) else height
  {
    PartFits(f, plan, 0);
    if r > 0 {
      RowsBeforeIs(dct, f, plan, r - 1);
    }
  }

  // ----- The place of a block in its MCU -----

  lemma {:induction false} InRow(dct: Dct, f: Frame, p: ScanComponent, row: nat, x: nat, n: nat, dx: nat)
    requires f.Valid() && p.index < |f.comps| && dx < n
    ensures RowBlocks(dct, f, p, row, x, n)[dx] == BlockAt(dct, f, p.index, row, Times(x, p.mcuWidth) + dx)
  {
    if dx < n - 1 {
      InRow(dct, f, p, row, x, n - 1, dx);
    }
  }

  lemma {:induction false} InPart(dct: Dct, f: Frame, p: ScanComponent, row0: nat, x: nat, k: nat, dy: nat, dx: nat)
    requires f.Valid() && p.index < |f.comps| && dy < k && dx < p.mcuWidth
    ensures Times(dy, p.mcuWidth) + dx < Times(k, p.mcuWidth)
    ensures PartBlocks(dct, f, p, row0, x, k)[Times(dy, p.mcuWidth) + dx]
      == BlockAt(dct, f, p.index, row0 + dy, Times(x, p.mcuWidth) + dx)
  {
    hide BlockAt;
    if dy < k - 1 {
      InPart(dct, f, p, row0, x, k - 1, dy, dx);
    } else {
      InRow(dct, f, p, row0 + dy, x, p.mcuWidth, dx);
    }
  }

  lemma {:induction false} InMcu(dct: Dct, f: Frame, parts: seq<ScanComponent>, n: nat, r: nat, y: nat, x: nat, i: nat, dy: nat, dx: nat)
    requires f.Valid() && n <= |parts| && forall i :: 0 <= i < |parts| ==> parts[i].index < |f.comps|
    requires i < n && dy < parts[i].mcuHeight && dx < parts[i].mcuWidth
    ensures var p := parts[i]; var b := Blocks(parts, i) + Times(dy, p.mcuWidth) + dx;
      && b < Blocks(parts, n)
      && McuBlocks(dct, f, parts, n, r, y, x)[b]
        == BlockAt(dct, f, p.index, Times(r, f.comps[p.index].v) + y + dy, Times(x, p.mcuWidth) + dx)
  {
    hide BlockAt, PartBlocks;
    var p := parts[i];
    if i < n - 1 {
      InMcu(dct, f, parts, n - 1, r, y, x, i, dy, dx);
    } else {
      InPart(dct, f, p, Times(r, f.comps[p.index].v) + y, x, p.mcuHeight, dy, dx);
    }
  }

  /** MCU_membership names the part whose block stands there. */
  lemma {:induction false} MemberAt(parts: seq<ScanComponent>, n: nat, i: nat, k: nat)
    requires i < n <= |parts| && k < Times(parts[i].mcuHeight, parts[i].mcuWidth)
    ensures Blocks(parts, i) + k < Blocks(parts, n) && Membership(parts, n)[Blocks(parts, i) + k] == i
  {
    if i < n - 1 {
      MemberAt(parts, n - 1, i, k);
    }
  }

  lemma {:induction false} LocateBlock(parts: seq<ScanComponent>, n: nat, b: nat) returns (i: nat, dy: nat, dx: nat)
    requires n <= |parts| && b < Blocks(parts, n)
    ensures i < n && dy < parts[i].mcuHeight && dx < parts[i].mcuWidth && b == Blocks(parts, i) + Times(dy, parts[i].mcuWidth) + dx
  {
    if b < Blocks(parts, n - 1) {
      i, dy, dx := LocateBlock(parts, n - 1, b);
    } else {
      i := n - 1;
      dy, dx := TimesSplit(b - Blocks(parts, i), parts[i].mcuHeight, parts[i].mcuWidth);
    }
  }

  // ----- Where the blocks are -----

  /** Position b of MCU n holds the block at (row, col) of component ci, padded to whole iMCUs. */
  ghost predicate HoldsAt(dct: Dct, f: Frame, plan: ScanPlan, n: nat, b: nat, ci: nat, row: nat, col: nat)
    requires plan.Valid(f) && ci < |f.comps|
  {
    var s := ScanMcus(ScanOrder(dct, f, plan));
    n < |s| && b < |s[n]| && s[n][b] == BlockAt(dct, f, ci, row, col)
  }

  lemma Position(dct: Dct, f: Frame, plan: ScanPlan, r: nat, y: nat, x: nat, i: nat, dy: nat, dx: nat)
    requires plan.Valid(f) && r < f.rows && y < plan.McuRows(f, r) && x < plan.mcusPerRow
    requires i < |plan.parts| && dy < plan.parts[i].mcuHeight && dx < plan.parts[i].mcuWidth
    ensures var o, p := ScanOrder(dct, f, plan), plan.parts[i];
      HoldsAt(dct, f, plan, Times(RowsBefore(o, r) + y, o.cols) + x, Blocks(plan.parts, i) + Times(dy, p.mcuWidth) + dx,
        p.index, Times(r, f.comps[p.index].v) + y + dy, Times(x, p.mcuWidth) + dx)
  {
    hide BlockAt, McuBlocks, ScanMcus, Blocks;
    var o := ScanOrder(dct, f, plan);
    Numbered(o, r, y, x);
    InMcu(dct, f, plan.parts, |plan.parts|, r, y, x, i, dy, dx);
  }

  /**
   An interleaved scan: the MCUs run along the rows of iMCUs, and an MCU lists, component by component,
   the v rows of h blocks of its iMCU.
   */
  lemma InterleavedAt(dct: Dct, f: Frame, plan: ScanPlan, i: nat, r: nat, x: nat, dy: nat, dx: nat)
    requires plan.Valid(f) && 1 < |plan.parts| && i < |plan.parts| && r < f.rows && x < f.cols
    requires var c := f.comps[plan.parts[i].index]; dy < c.v && dx < c.h
    ensures var ci := plan.parts[i].index; var c := f.comps[ci];
      HoldsAt(dct, f, plan, Times(r, f.cols) + x, Blocks(plan.parts, i) + Times(dy, c.h) + dx, ci, Times(r, c.v) + dy, Times(x, c.h) + dx)
  {
    hide HoldsAt, ScanOrder;
    var c := f.comps[plan.parts[i].index];
    OrderColumns(dct, f, plan);
    PartFits(f, plan, i);
    RowsBeforeIs(dct, f, plan, r);
    Position(dct, f, plan, r, 0, x, i, dy, dx);
  }

  /** A scan of one component: its blocks one by one, row by row. */
  lemma SingleAt(dct: Dct, f: Frame, plan: ScanPlan, row: nat, col: nat)
    requires plan.Valid(f) && |plan.parts| == 1
    requires var c := f.comps[plan.parts[0].index]; row < c.height && col < c.width
    ensures var ci := plan.parts[0].index; HoldsAt(dct, f, plan, Times(row, f.comps[ci].width) + col, 0, ci, row, col)
  {
    hide HoldsAt, ScanOrder;
    var c := f.comps[plan.parts[0].index];
    OrderColumns(dct, f, plan);
    PartFits(f, plan, 0);
    var r, y := TimesSplit(row, f.rows, c.v);
    RowsBeforeIs(dct, f, plan, r);
    Position(dct, f, plan, r, y, col, 0, 0, 0);
    TimesIs(col, 1);
  }

  /** How many MCUs there are, and how many blocks each holds. */
  lemma ScanSize(dct: Dct, f: Frame, plan: ScanPlan)
    requires plan.Valid(f)
    ensures var s, c := ScanMcus(ScanOrder(dct, f, plan)), f.comps[plan.parts[0].index];
      && |s| == (if |plan.parts| > 1 then Times(f.rows, f.cols) else Times(c.height, c.width))
      && forall n :: 0 <= n < |s| ==> |s[n]| == Blocks(plan.parts, |plan.parts|)
  {
    hide BlockAt, McuBlocks, Blocks, ImageMcus;
    var o, c := ScanOrder(dct, f, plan), f.comps[plan.parts[0].index];
    OrderColumns(dct, f, plan);
    RowsBeforeIs(dct, f, plan, f.rows);
    ImageLength(o, f.rows);
    ImageSizes(o, f.rows, Blocks(plan.parts, |plan.parts|));
  }

  lemma OrderColumns(dct: Dct, f: Frame, plan: ScanPlan)
    requires plan.Valid(f)
    ensures var o := ScanOrder(dct, f, plan);
      o.strips == f.rows && o.cols == plan.mcusPerRow == if |plan.parts| > 1 then f.cols else f.comps[plan.parts[0].index].width
  {
    PartFits(f, plan, 0);
  }

  // ----- Dummy blocks -----

  /** Outside the component, a block that is not the first of its MCU row repeats the DC value to its left. */
  lemma PadLeft(dct: Dct, f: Frame, ci: nat, row: nat, x: nat, dx: nat)
    requires f.Valid() && ci < |f.comps| && 0 < dx < f.comps[ci].h
    requires row >= f.comps[ci].height || Times(x, f.comps[ci].h) + dx >= f.comps[ci].width
    ensures var col := Times(x, f.comps[ci].h) + dx; BlockAt(dct, f, ci, row, col) == Blank(BlockAt(dct, f, ci, row, col - 1)[0])
  {
    var c := f.comps[ci];
    CoversPositive(f, ci);
    ColumnInMcu(c.h, x, dx);
    ColumnInMcu(c.h, x, dx - 1);
  }

  /** Below the component, the first block of an MCU row repeats the DC value of the last in the row above. */
  lemma PadBelow(dct: Dct, f: Frame, ci: nat, row: nat, x: nat)
    requires f.Valid() && ci < |f.comps| && row >= f.comps[ci].height && row > 0 && f.comps[ci].h > 0
    ensures var col := Times(x, f.comps[ci].h);
      BlockAt(dct, f, ci, row, col) == Blank(BlockAt(dct, f, ci, row - 1, col + f.comps[ci].h - 1)[0])
  {
    CoversPositive(f, ci);
    ColumnInMcu(f.comps[ci].h, x, 0);
  }

  /** Position b of MCU n is zero but for the DC value, which is that of the block before it in the MCU. */
  ghost predicate RepeatsDc(dct: Dct, f: Frame, plan: ScanPlan, n: nat, b: nat)
    requires plan.Valid(f)
  {
    var s := ScanMcus(ScanOrder(dct, f, plan));
    n < |s| && 0 < b < |s[n]| && s[n][b][0] == s[n][b - 1][0] && forall k :: 1 <= k < 64 ==> s[n][b][k] == 0
  }

  lemma HeldRepeats(dct: Dct, f: Frame, plan: ScanPlan, n: nat, b: nat, ci: nat, row: nat, col: nat, prow: nat, pcol: nat)
    requires plan.Valid(f) && ci < |f.comps| && b > 0
    requires HoldsAt(dct, f, plan, n, b, ci, row, col) && HoldsAt(dct, f, plan, n, b - 1, ci, prow, pcol)
    requires BlockAt(dct, f, ci, row, col) == Blank(BlockAt(dct, f, ci, prow, pcol)[0])
    ensures RepeatsDc(dct, f, plan, n, b)
  {
  }

  lemma DummyRight(dct: Dct, f: Frame, plan: ScanPlan, i: nat, r: nat, x: nat, dy: nat, dx: nat)
    requires plan.Valid(f) && 1 < |plan.parts| && i < |plan.parts| && r < f.rows && x < f.cols
    requires var c := f.comps[plan.parts[i].index];
      dy < c.v && 0 < dx < c.h && (Times(r, c.v) + dy >= c.height || Times(x, c.h) + dx >= c.width)
    ensures RepeatsDc(dct, f, plan, Times(r, f.cols) + x,
      Blocks(plan.parts, i) + Times(dy, f.comps[plan.parts[i].index].h) + dx)
  {
    hide HoldsAt, BlockAt, RepeatsDc, Blocks;
    var ci := plan.parts[i].index;
    var c := f.comps[ci];
    var n, b, row, col := Times(r, f.cols) + x, Blocks(plan.parts, i) + Times(dy, c.h) + dx, Times(r, c.v) + dy, Times(x, c.h) + dx;
    InterleavedAt(dct, f, plan, i, r, x, dy, dx);
    InterleavedAt(dct, f, plan, i, r, x, dy, dx - 1);
    PadLeft(dct, f, ci, row, x, dx);
    assert b - 1 == Blocks(plan.parts, i) + Times(dy, c.h) + (dx - 1) && col - 1 == Times(x, c.h) + (dx - 1);
    HeldRepeats(dct, f, plan, n, b, ci, row, col, row, col - 1);
  }

  lemma DummyBelow(dct: Dct, f: Frame, plan: ScanPlan, i: nat, r: nat, x: nat, dy: nat)
    requires plan.Valid(f) && 1 < |plan.parts| && i < |plan.parts| && r < f.rows && x < f.cols
    requires var c := f.comps[plan.parts[i].index]; 0 < dy < c.v && c.h > 0 && Times(r, c.v) + dy >= c.height
    ensures RepeatsDc(dct, f, plan, Times(r, f.cols) + x,
      Blocks(plan.parts, i) + Times(dy, f.comps[plan.parts[i].index].h))
  {
    hide HoldsAt, BlockAt, RepeatsDc, Blocks;
    var ci := plan.parts[i].index;
    var c := f.comps[ci];
    var n, b, row, col := Times(r, f.cols) + x, Blocks(plan.parts, i) + Times(dy, c.h), Times(r, c.v) + dy, Times(x, c.h);
    InterleavedAt(dct, f, plan, i, r, x, dy, 0);
    InterleavedAt(dct, f, plan, i, r, x, dy - 1, c.h - 1);
    PadBelow(dct, f, ci, row, x);
    assert b - 1 == Blocks(plan.parts, i) + Times(dy - 1, c.h) + (c.h - 1);
    assert Times(r, c.v) + (dy - 1) == row - 1 && Times(x, c.h) + (c.h - 1) == col + c.h - 1;
    HeldRepeats(dct, f, plan, n, b, ci, row, col, row - 1, col + c.h - 1);
  }

  /** The dummy blocks of an interleaved MCU repeat the DC value of the block before them. */
  lemma DummyBlocks(dct: Dct, f: Frame, plan: ScanPlan, i: nat, r: nat, x: nat, dy: nat, dx: nat)
    requires plan.Valid(f) && 1 < |plan.parts| && i < |plan.parts| && r < f.rows && x < f.cols
    requires var c := f.comps[plan.parts[i].index];
      dy < c.v && dx < c.h && (Times(r, c.v) + dy >= c.height || Times(x, c.h) + dx >= c.width)
    ensures RepeatsDc(dct, f, plan, Times(r, f.cols) + x,
      Blocks(plan.parts, i) + Times(dy, f.comps[plan.parts[i].index].h) + dx)
  {
    hide RepeatsDc, Times, Blocks;
    var c := f.comps[plan.parts[i].index];
    PartFits(f, plan, i);
    if dx > 0 {
      DummyRight(dct, f, plan, i, r, x, dy, dx);
    } else {
      WithinSteps(c.v, f.rows, c.height, r, dy);
      WithinSteps(c.h, f.cols, c.width, x, dx);
      DummyBelow(dct, f, plan, i, r, x, dy);
    }
  }

  // ----- Every block once -----

  /** Whatever the image, position b of MCU n holds the block at (row, col) of component ci. */
  ghost predicate PlaceOf(f: Frame, plan: ScanPlan, n: nat, b: nat, ci: nat, row: nat, col: nat)
    requires plan.Valid(f)
  {
    forall dct: Dct :: Holds(dct, f, plan, n, b, ci, row, col)
  }

  ghost predicate Holds(dct: Dct, f: Frame, plan: ScanPlan, n: nat, b: nat, ci: nat, row: nat, col: nat)
    requires plan.Valid(f)
  {
    var s := ScanMcus(ScanOrder(dct, f, plan));
    n < |s| && b < |s[n]| && s[n][b] == dct(ci, row, col)
  }

  /** An image in which every block tells where it comes from, and differs from every dummy block. */
  ghost function Telling(): Dct {
    (ci: nat, row: nat, col: nat) => [ci, row, col, 1] + Zeros(60)
  }

  lemma Tells(f: Frame, ci: nat, row: nat, col: nat, di: nat, drow: nat, dcol: nat)
    requires f.Valid() && ci < |f.comps| && BlockAt(Telling(), f, ci, row, col) == Telling()(di, drow, dcol)
    ensures ci == di && row == drow && col == dcol
  {
    var c := f.comps[ci];
    CoversPositive(f, ci);
    var told := Telling()(di, drow, dcol);
    assert told[3] == 1 && told[0] == di && told[1] == drow && told[2] == dcol;
    if row < c.height && col < c.width {
      var own := Telling()(ci, row, col);
      assert own[0] == ci && own[1] == row && own[2] == col;
    }
  }

  /** Where position b of MCU n lies, and what it holds. */
  lemma Coordinates(dct: Dct, f: Frame, plan: ScanPlan, n: nat, b: nat) returns (r: nat, y: nat, x: nat, i: nat, dy: nat, dx: nat)
    requires plan.Valid(f)
    requires var s := ScanMcus(ScanOrder(dct, f, plan)); n < |s| && b < |s[n]|
    ensures i < |plan.parts| && dx < plan.parts[i].mcuWidth && y + dy < f.comps[plan.parts[i].index].v
    ensures y < plan.McuRows(f, r) && dy < plan.parts[i].mcuHeight && x < plan.mcusPerRow
    ensures n == Times(RowsBefore(ScanOrder(dct, f, plan), r) + y, plan.mcusPerRow) + x
    ensures b == Blocks(plan.parts, i) + Times(dy, plan.parts[i].mcuWidth) + dx
    ensures var p := plan.parts[i];
      HoldsAt(dct, f, plan, n, b, p.index, Times(r, f.comps[p.index].v) + (y + dy), Times(x, p.mcuWidth) + dx)
  {
    hide Blocks, BlockAt, ImageMcus;
    var o := ScanOrder(dct, f, plan);
    ScanSize(dct, f, plan);
    r, y, x := LocateMcu(o, f.rows, n);
    i, dy, dx := LocateBlock(plan.parts, |plan.parts|, b);
    PartFits(f, plan, i);
    Position(dct, f, plan, r, y, x, i, dy, dx);
  }

  /** The scan's parts are different components. */
  ghost predicate Distinct(plan: ScanPlan) {
    forall i, j :: 0 <= i < j < |plan.parts| ==> plan.parts[i].index != plan.parts[j].index
  }

  lemma OnePlace(f: Frame, plan: ScanPlan, n: nat, b: nat, m: nat, d: nat, ci: nat, row: nat, col: nat)
    requires plan.Valid(f) && Distinct(plan) && PlaceOf(f, plan, n, b, ci, row, col) && PlaceOf(f, plan, m, d, ci, row, col)
    ensures n == m && b == d
  {
    hide ScanMcus, ScanOrder, BlockAt, Blocks, Telling, Times;
    var dct := Telling();
    assert Holds(dct, f, plan, n, b, ci, row, col) && Holds(dct, f, plan, m, d, ci, row, col);
    var r, y, x, i, dy, dx := Coordinates(dct, f, plan, n, b);
    var s, z, u, j, ey, ex := Coordinates(dct, f, plan, m, d);
    var p, q := plan.parts[i], plan.parts[j];
    Tells(f, p.index, Times(r, f.comps[p.index].v) + (y + dy), Times(x, p.mcuWidth) + dx, ci, row, col);
    Tells(f, q.index, Times(s, f.comps[q.index].v) + (z + ey), Times(u, q.mcuWidth) + ex, ci, row, col);
    assert i == j;
    TimesUnique(r, y + dy, s, z + ey, f.comps[ci].v);
    TimesUnique(x, dx, u, ex, p.mcuWidth);
    PartFits(f, plan, i);
  }

  lemma SomePlace(f: Frame, plan: ScanPlan, i: nat, row: nat, col: nat) returns (n: nat, b: nat)
    requires plan.Valid(f) && i < |plan.parts|
    requires var c := f.comps[plan.parts[i].index]; row < c.height && col < c.width
    ensures PlaceOf(f, plan, n, b, plan.parts[i].index, row, col)
  {
    hide ScanMcus, ScanOrder;
    var ci := plan.parts[i].index;
    var c := f.comps[ci];
    PartFits(f, plan, i);
    if |plan.parts| > 1 {
      var r, dy := TimesSplit(row, f.rows, c.v);
      var x, dx := TimesSplit(col, f.cols, c.h);
      n, b := Times(r, f.cols) + x, Blocks(plan.parts, i) + Times(dy, c.h) + dx;
      forall dct: Dct ensures Holds(dct, f, plan, n, b, ci, row, col) {
        InterleavedAt(dct, f, plan, i, r, x, dy, dx);
      }
    } else {
      n, b := Times(row, c.width) + col, 0;
      forall dct: Dct ensures Holds(dct, f, plan, n, b, ci, row, col) {
        SingleAt(dct, f, plan, row, col);
      }
    }
  }

  /** Exactly one position of the scan holds a block of one of its components. */
  lemma EveryBlockOnce(f: Frame, plan: ScanPlan, i: nat, row: nat, col: nat)
    requires plan.Valid(f) && Distinct(plan) && i < |plan.parts|
    requires var c := f.comps[plan.parts[i].index]; row < c.height && col < c.width
    ensures exists n: nat, b: nat :: PlaceOf(f, plan, n, b, plan.parts[i].index, row, col)
    ensures forall n: nat, b: nat, m: nat, d: nat ::
      PlaceOf(f, plan, n, b, plan.parts[i].index, row, col) && PlaceOf(f, plan, m, d, plan.parts[i].index, row, col)
      ==> n == m && b == d
  {
    hide PlaceOf;
    var n, b := SomePlace(f, plan, i, row, col);
    var ci := plan.parts[i].index;
    forall n: nat, b: nat, m: nat, d: nat | PlaceOf(f, plan, n, b, ci, row, col) && PlaceOf(f, plan, m, d, ci, row, col)
      ensures n == m && b == d
    {
      OnePlace(f, plan, n, b, m, d, ci, row, col);
    }
  }
}
