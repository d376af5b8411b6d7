/** MCUs in scan order: row by row within each iMCU row, iMCU row by iMCU row. */
module McuSequence {
  import opened ScanCode

  /** The MCU at each position, the MCU rows of each iMCU row, the MCUs of a row, and the iMCU rows. */
  datatype McuOrder = McuOrder(at: (nat, nat, nat) -> Mcu, rows: nat -> nat, cols: nat, strips: nat)

  /** The first x MCUs of an MCU row. */
  ghost function RowMcus(o: McuOrder, r: nat, y: nat, x: nat): (s: seq<Mcu>)
    ensures |s| == x
  {
    if x == 0 then [] else RowMcus(o, r, y, x - 1) + [o.at(r, y, x - 1)]
  }

  /** The first y MCU rows of an iMCU row. */
  ghost function StripMcus(o: McuOrder, r: nat, y: nat): seq<Mcu> {
    if y == 0 then [] else StripMcus(o, r, y - 1) + RowMcus(o, r, y - 1, o.cols)
  }

  /** The first r iMCU rows of the image. */
  ghost function ImageMcus(o: McuOrder, r: nat): seq<Mcu> {
    if r == 0 then [] else ImageMcus(o, r - 1) + StripMcus(o, r - 1, o.rows(r - 1))
  }

  /** All MCUs before position (r, y, x) of the scan. */
  ghost function McusBefore(o: McuOrder, r: nat, y: nat, x: nat): seq<Mcu> {
    ImageMcus(o, r) + StripMcus(o, r, y) + RowMcus(o, r, y, x)
  }

  /** All MCUs of the scan. */
  ghost function ScanMcus(o: McuOrder): seq<Mcu> {
    ImageMcus(o, o.strips)
  }

  lemma NextMcu(o: McuOrder, r: nat, y: nat, x: nat)
    ensures McusBefore(o, r, y, x + 1) == McusBefore(o, r, y, x) + [o.at(r, y, x)]
  {
  }

  lemma NextMcuRow(o: McuOrder, r: nat, y: nat)
    ensures McusBefore(o, r, y + 1, 0) == McusBefore(o, r, y, o.cols)
  {
  }

  lemma NextStrip(o: McuOrder, r: nat)
    ensures McusBefore(o, r + 1, 0, 0) == McusBefore(o, r, o.rows(r), 0)
    ensures r + 1 == o.strips ==> McusBefore(o, r + 1, 0, 0) == ScanMcus(o)
  {
  }

  /** Each MCU of the scan is the one at some position. */
  ghost predicate AllOfSize(o: McuOrder, n: nat) {
    forall r, y, x :: |o.at(r, y, x)| == n
  }

  lemma {:induction false} RowSizes(o: McuOrder, r: nat, y: nat, x: nat, n: nat)
    requires AllOfSize(o, n)
    ensures forall i :: 0 <= i < x ==> |RowMcus(o, r, y, x)[i]| == n
  {
    if x > 0 {
      RowSizes(o, r, y, x - 1, n);
    }
  }

  lemma {:induction false} StripSizes(o: McuOrder, r: nat, y: nat, n: nat)
    requires AllOfSize(o, n)
    ensures forall i :: 0 <= i < |StripMcus(o, r, y)| ==> |StripMcus(o, r, y)[i]| == n
  {
    if y > 0 {
      StripSizes(o, r, y - 1, n);
      RowSizes(o, r, y - 1, o.cols, n);
    }
  }

  lemma {:induction false} ImageSizes(o: McuOrder, r: nat, n: nat)
    requires AllOfSize(o, n)
    ensures forall i :: 0 <= i < |ImageMcus(o, r)| ==> |ImageMcus(o, r)[i]| == n
  {
    if r > 0 {
      ImageSizes(o, r - 1, n);
      StripSizes(o, r - 1, o.rows(r - 1), n);
    }
  }

  lemma {:induction false} RowPrefix(o: McuOrder, r: nat, y: nat, x: nat, m: nat)
    requires x <= m
    ensures RowMcus(o, r, y, x) <= RowMcus(o, r, y, m)
    decreases m
  {
    if x < m {
      RowPrefix(o, r, y, x, m - 1);
    }
  }

  lemma {:induction false} StripPrefix(o: McuOrder, r: nat, y: nat, m: nat)
    requires y <= m
    ensures StripMcus(o, r, y) <= StripMcus(o, r, m)
    decreases m
  {
    if y < m {
      StripPrefix(o, r, y, m - 1);
    }
  }

  lemma {:induction false} ImagePrefix(o: McuOrder, r: nat, m: nat)
    requires r <= m
    ensures ImageMcus(o, r) <= ImageMcus(o, m)
    decreases m
  {
    if r < m {
      ImagePrefix(o, r, m - 1);
    }
  }

  /** What comes before a position of the scan is a prefix of the scan. */
  lemma BeforeIsPrefix(o: McuOrder, r: nat, y: nat, x: nat) returns (rest: seq<Mcu>)
    requires r < o.strips && y < o.rows(r) && x <= o.cols
    ensures ScanMcus(o) == McusBefore(o, r, y, x) + rest
  {
    RowPrefix(o, r, y, x, o.cols);
    StripPrefix(o, r, y + 1, o.rows(r));
    ImagePrefix(o, r + 1, o.strips);
    NextMcuRow(o, r, y);
    var a := McusBefore(o, r, y, x);
    assert a <= McusBefore(o, r, y, o.cols);
    assert McusBefore(o, r, y + 1, 0) <= ImageMcus(o, r + 1);
    rest := ScanMcus(o)[|a|..];
  }
}
