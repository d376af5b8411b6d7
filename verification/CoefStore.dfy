/** The full-image coefficient arrays of a multi-pass compression, filled strip by strip in the first pass. */
module CoefStore {
  import opened JpegTypes
  import opened BlockCode
  import opened Geometry
  import opened McuLayout

  /** A block of zeros (jzero_far). */
  function ZeroBlock(): Block {
    Zeros(DCT_SIZE2)
  }

  lemma ZeroThenDc(d: int)
    ensures ZeroBlock()[0 := d] == Blank(d)
  {
  }

  /** jround_up */
  function RoundUp(a: nat, b: nat): nat
    requires b > 0
  {
    a + b - 1 - (a + b - 1) % b
  }

  lemma RoundUpIs(a: nat, b: nat, n: nat)
    requires b > 0 && n > 0 && Times(n - 1, b) < a <= Times(n, b)
    ensures RoundUp(a, b) == Times(n, b)
  {
    TimesIs(n, b);
    DivModUnique(a + b - 1, b, n, a - Times(n - 1, b) - 1);
  }

  /** Row of a component's array is as expected, padding included. */
  ghost predicate RowStored(dct: Dct, f: Frame, a: array2<Block>, ci: nat, row: nat)
    requires f.Valid() && ci < |f.comps| && row < a.Length0
    reads a
  {
    forall col :: 0 <= col < a.Length1 ==> a[row, col] == BlockAt(dct, f, ci, row, col)
  }

  /** The array has the component's padded size. */
  ghost predicate Sized(f: Frame, a: array2<Block>, ci: nat)
    requires ci < |f.comps|
  {
    a.Length0 == Times(f.rows, f.comps[ci].v) && a.Length1 == Times(f.cols, f.comps[ci].h)
  }

  /** Nothing outside this row changes. */
  twostate predicate OtherRowsKept(a: array2<Block>, row: nat)
    reads a
  {
    forall r, col :: 0 <= r < a.Length0 && 0 <= col < a.Length1 && r != row ==> a[r, col] == old(a[r, col])
  }

  /** forward_DCT of a complete row of blocks, and the dummies at its right edge. */
  method StoreRealRow(dct: Dct, f: Frame, a: array2<Block>, ci: nat, row: nat)
    requires f.Valid() && ci < |f.comps| && Sized(f, a, ci) && row < f.comps[ci].height && row < a.Length0
    modifies a
    ensures RowStored(dct, f, a, ci, row) && OtherRowsKept(a, row)
  {
    var c := f.comps[ci];
    assert f.Covers(c);
    CoversPositive(f, ci);
    var col := 0;
    while col < c.width
      invariant col <= c.width
      invariant forall k :: 0 <= k < col ==> a[row, k] == dct(ci, row, k)
      invariant OtherRowsKept(a, row)
    {
      a[row, col] := dct(ci, row, col);
      col := col + 1;
    }
    var ndummy := DummyColumns(f, ci);
    ZeroRow(a, row, c.width, ndummy);
    var lastDC := a[row, c.width - 1][0];
    ZeroThenDc(lastDC);
    var bi := 0;
    while bi < ndummy
      invariant bi <= ndummy
      invariant forall k :: 0 <= k < c.width ==> a[row, k] == dct(ci, row, k)
      invariant forall k :: c.width <= k < c.width + bi ==> a[row, k] == Blank(lastDC)
      invariant forall k :: c.width + bi <= k < c.width + ndummy ==> a[row, k] == ZeroBlock()
      invariant OtherRowsKept(a, row)
    {
      a[row, c.width + bi] := a[row, c.width + bi][0 := lastDC];
      bi := bi + 1;
    }
  }

  /** What rounding a row of blocks up to whole iMCUs adds at its end. */
  method DummyColumns(f: Frame, ci: nat) returns (ndummy: nat)
    requires f.Valid() && ci < |f.comps|
    ensures f.comps[ci].width + ndummy == Times(f.cols, f.comps[ci].h)
  {
    var c := f.comps[ci];
    assert f.Covers(c);
    LastPartIs(c.width, c.h, f.cols);
    ndummy := c.width % c.h;
    if ndummy > 0 {
      ndummy := c.h - ndummy;
    }
  }

  /** jzero_far on count blocks of a row. */
  method ZeroRow(a: array2<Block>, row: nat, col: nat, count: nat)
    requires row < a.Length0 && col + count <= a.Length1
    modifies a
    ensures forall k :: col <= k < col + count ==> a[row, k] == ZeroBlock()
    ensures forall k :: 0 <= k < a.Length1 && !(col <= k < col + count) ==> a[row, k] == old(a[row, k])
    ensures OtherRowsKept(a, row)
  {
    var i := 0;
    while i < count
      invariant i <= count
      invariant forall k :: col <= k < col + i ==> a[row, k] == ZeroBlock()
      invariant forall k :: 0 <= k < a.Length1 && !(col <= k < col + i) ==> a[row, k] == old(a[row, k])
      invariant OtherRowsKept(a, row)
    {
      a[row, col + i] := ZeroBlock();
      i := i + 1;
    }
  }

  /** One MCU's worth of dummies below the image, with the DC value of its last block in the row above. */
  method StoreDummyMcu(dct: Dct, f: Frame, a: array2<Block>, ci: nat, row: nat, mcu: nat)
    requires f.Valid() && ci < |f.comps| && Sized(f, a, ci) && mcu < f.cols
    requires 0 < row < a.Length0 && f.comps[ci].height <= row && RowStored(dct, f, a, ci, row - 1)
    requires Times(mcu, f.comps[ci].h) + f.comps[ci].h <= a.Length1
    requires forall k :: Times(mcu, f.comps[ci].h) <= k < a.Length1 ==> a[row, k] == ZeroBlock()
    modifies a
    ensures forall k :: Times(mcu, f.comps[ci].h) <= k < Times(mcu, f.comps[ci].h) + f.comps[ci].h ==> a[row, k] == BlockAt(dct, f, ci, row, k)
    ensures forall k :: 0 <= k < a.Length1 && !(Times(mcu, f.comps[ci].h) <= k < Times(mcu, f.comps[ci].h) + f.comps[ci].h) ==>
      a[row, k] == old(a[row, k])
    ensures OtherRowsKept(a, row)
  {
    var h := f.comps[ci].h;
    var at := Times(mcu, h);
    CoversPositive(f, ci);
    var lastDC := a[row - 1, at + h - 1][0];
    ZeroThenDc(lastDC);
    var bi := 0;
    while bi < h
      invariant bi <= h
      invariant forall k :: at <= k < at + bi ==> a[row, k] == Blank(lastDC)
      invariant forall k :: at + bi <= k < a.Length1 ==> a[row, k] == ZeroBlock()
      invariant forall k :: 0 <= k < a.Length1 && !(at <= k < at + bi) ==> a[row, k] == old(a[row, k])
      invariant OtherRowsKept(a, row)
    {
      a[row, at + bi] := a[row, at + bi][0 := lastDC];
      bi := bi + 1;
    }
    forall k | at <= k < at + h ensures a[row, k] == BlockAt(dct, f, ci, row, k) {
      ColumnInMcu(h, mcu, k - at);
    }
  }

  /** A row of dummy blocks below the image. */
  method StoreDummyRow(dct: Dct, f: Frame, a: array2<Block>, ci: nat, row: nat)
    requires f.Valid() && ci < |f.comps| && Sized(f, a, ci)
    requires 0 < row < a.Length0 && f.comps[ci].height <= row && RowStored(dct, f, a, ci, row - 1)
    modifies a
    ensures RowStored(dct, f, a, ci, row) && OtherRowsKept(a, row)
  {
    var h := f.comps[ci].h;
    ZeroRow(a, row, 0, Times(f.cols, h));
    var mcu := 0;
    while mcu < f.cols
      invariant mcu <= f.cols
      invariant RowStored(dct, f, a, ci, row - 1) && OtherRowsKept(a, row)
      invariant forall k :: 0 <= k < Times(mcu, h) && k < a.Length1 ==> a[row, k] == BlockAt(dct, f, ci, row, k)
      invariant forall k :: Times(mcu, h) <= k < a.Length1 ==> a[row, k] == ZeroBlock()
    {
      TimesMonotone(mcu + 1, f.cols, h);
      StoreDummyMcu(dct, f, a, ci, row, mcu);
      mcu := mcu + 1;
    }
  }

  /** Rows lo to hi of the array are as expected. */
  ghost predicate RowsStored(dct: Dct, f: Frame, a: array2<Block>, ci: nat, lo: nat, hi: nat)
    requires f.Valid() && ci < |f.comps|
    reads a
  {
    hi <= a.Length0 && forall r, col :: lo <= r < hi && 0 <= col < a.Length1 ==> a[r, col] == BlockAt(dct, f, ci, r, col)
  }

  /** The next row of the array. */
  method StoreRow(dct: Dct, f: Frame, a: array2<Block>, ci: nat, row: nat, ghost lo: nat)
    requires f.Valid() && ci < |f.comps| && Sized(f, a, ci) && row < a.Length0
    requires lo <= row && RowsStored(dct, f, a, ci, lo, row) && (row >= f.comps[ci].height ==> lo < row)
    modifies a
    ensures RowsStored(dct, f, a, ci, lo, row + 1)
  {
    if row < f.comps[ci].height {
      StoreRealRow(dct, f, a, ci, row);
    } else {
      StoreDummyRow(dct, f, a, ci, row);
    }
  }

  /** Where the real rows of an iMCU row end. */
  lemma StripShape(f: Frame, ci: nat, strip: nat, blockRow: nat)
    requires f.Valid() && ci < |f.comps| && strip < f.rows && blockRow < f.comps[ci].v
    ensures var c := f.comps[ci];
      var blockRows := if strip < f.rows - 1 then c.v else LastPart(c.height, c.v);
      && 0 < blockRows <= c.v
      && (Times(strip, c.v) + blockRow < c.height <==> blockRow < blockRows)
      && Times(strip, c.v) + blockRow < Times(f.rows, c.v)
  {
    var c := f.comps[ci];
    assert f.Covers(c);
    LastPartIs(c.height, c.v, f.rows);
    WithinSteps(c.v, f.rows, c.height, strip, blockRow);
  }

  /** One component's share of an iMCU row: real rows, then, at the end of the image, dummy rows as needed. */
  method StoreStrip(dct: Dct, f: Frame, a: array2<Block>, ci: nat, strip: nat, ghost lo: nat)
    requires f.Valid() && ci < |f.comps| && Sized(f, a, ci) && strip < f.rows
    requires lo <= Times(strip, f.comps[ci].v) && RowsStored(dct, f, a, ci, lo, Times(strip, f.comps[ci].v))
    modifies a
    ensures RowsStored(dct, f, a, ci, lo, Times(strip, f.comps[ci].v) + f.comps[ci].v)
  {
    var c := f.comps[ci];
    CoversPositive(f, ci);
    var top := Times(strip, c.v);
    var blockRows := if strip < f.rows - 1 then c.v else LastPart(c.height, c.v);
    StripShape(f, ci, strip, 0);
    var blockRow := 0;
    while blockRow < blockRows
      invariant blockRow <= blockRows && RowsStored(dct, f, a, ci, lo, top + blockRow)
    {
      StripShape(f, ci, strip, blockRow);
      StoreRow(dct, f, a, ci, top + blockRow, lo);
      blockRow := blockRow + 1;
    }
    if strip == f.rows - 1 {
      while blockRow < c.v
        invariant blockRows <= blockRow <= c.v && RowsStored(dct, f, a, ci, lo, top + blockRow)
      {
        StripShape(f, ci, strip, blockRow);
        StoreRow(dct, f, a, ci, top + blockRow, lo);
        blockRow := blockRow + 1;
      }
    }
  }

  // ----- The arrays of all components -----

  ghost predicate WholeSized(f: Frame, whole: seq<array2<Block>>) {
    && |whole| == |f.comps|
    && (forall ci :: 0 <= ci < |whole| ==> Sized(f, whole[ci], ci))
    && (forall ci, cj :: 0 <= ci < cj < |whole| ==> whole[ci] != whole[cj])
  }

  /** An array for each component's whole plane, rounded up to a multiple of its sampling factors in each direction. */
  method AllocateWhole(f: Frame) returns (whole: seq<array2<Block>>)
    requires f.Valid()
    ensures WholeSized(f, whole) && fresh(whole)
  {
    whole := [];
    while |whole| < |f.comps|
      invariant |whole| <= |f.comps| && fresh(whole)
      invariant forall ci :: 0 <= ci < |whole| ==> Sized(f, whole[ci], ci)
      invariant forall ci, cj :: 0 <= ci < cj < |whole| ==> whole[ci] != whole[cj]
    {
      var c := f.comps[|whole|];
      assert f.Covers(c);
      RoundUpIs(c.height, c.v, f.rows);
      RoundUpIs(c.width, c.h, f.cols);
      var a := new Block[RoundUp(c.height, c.v), RoundUp(c.width, c.h)]((_, _) => ZeroBlock());
      whole := whole + [a];
    }
  }

  /** The first strips of every component are as expected. */
  ghost predicate StripsStored(dct: Dct, f: Frame, whole: seq<array2<Block>>, strips: nat)
    requires f.Valid() && WholeSized(f, whole)
    reads whole
  {
    forall ci :: 0 <= ci < |whole| ==> RowsStored(dct, f, whole[ci], ci, 0, Times(strips, f.comps[ci].v))
  }

  /** The DCT part of compress_first_pass: one iMCU row of every component, dummy blocks included. */
  method StoreStrips(dct: Dct, f: Frame, whole: seq<array2<Block>>, strip: nat)
    requires f.Valid() && WholeSized(f, whole) && strip < f.rows && StripsStored(dct, f, whole, strip)
    modifies whole
    ensures StripsStored(dct, f, whole, strip + 1)
  {
    var ci := 0;
    while ci < |f.comps|
      invariant ci <= |f.comps|
      invariant forall c :: 0 <= c < ci ==> RowsStored(dct, f, whole[c], c, 0, Times(strip + 1, f.comps[c].v))
      invariant forall c :: ci <= c < |whole| ==> RowsStored(dct, f, whole[c], c, 0, Times(strip, f.comps[c].v))
    {
      StoreStrip(dct, f, whole[ci], ci, strip, 0);
      ci := ci + 1;
    }
  }
}
