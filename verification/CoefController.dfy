/** The coefficient buffer controller: single-pass and full-buffer compression, resumable after a refused MCU. */
module CoefController {
  import opened Soundness
  import opened JpegTypes
  import opened BlockCode
  import opened HuffmanOutput
  import opened ScanCode
  import opened ScanRuns
  import opened ScanTables
  import opened McuEncoder
  import opened Geometry
  import opened McuSequence
  import opened McuLayout
  import opened CoefStore

  class Controller {
    const f: Frame
    const plan: ScanPlan
    const dct: Dct
    const buffer: array<Block>            // MCU_buffer
    const whole: seq<array2<Block>>       // whole_image; none in single-pass compression
    ghost const order: McuOrder           // the scan's MCUs, as they have to be coded
    var row: nat                          // iMCU_row_num
    var mcuCtr: nat                       // mcu_ctr
    var vertOffset: nat                   // MCU_vert_offset
    var mcuRows: nat                      // MCU_rows_per_iMCU_row

    ghost predicate Sized() {
      plan.Valid(f) && buffer.Length == MAX_BLOCKS_IN_MCU
      && order == ScanOrder(dct, f, plan)
    }

    /** The counters name an MCU of the scan, or its end. */
    ghost predicate Counting()
      requires Sized()
      reads `row, `mcuCtr, `vertOffset, `mcuRows
    {
      && row <= f.rows
      && mcuRows == plan.McuRows(f, row)
      && vertOffset < mcuRows && mcuCtr < plan.mcusPerRow
      && (row == f.rows ==> vertOffset == 0 && mcuCtr == 0)
    }

    /** The MCUs before the one the counters name. */
    ghost function Before(): seq<Mcu>
      reads `row, `mcuCtr, `vertOffset
    {
      McusBefore(order, row, vertOffset, mcuCtr)
    }

    /** jinit_c_coef_controller, and start_pass_coef for the first pass. */
    constructor (f: Frame, plan: ScanPlan, dct: Dct, needFullBuffer: bool)
      requires plan.Valid(f)
      ensures Sized() && Counting() && fresh(buffer) && fresh(whole) && this.f == f && this.plan == plan && this.dct == dct
      ensures if needFullBuffer then Loaded(0).Sound? else whole == []
      ensures row == 0 && vertOffset == 0 && mcuCtr == 0 && Before() == []
    {
      this.f, this.plan, this.dct := f, plan, dct;
      buffer := new Block[MAX_BLOCKS_IN_MCU](_ => ZeroBlock());
      var w: seq<array2<Block>> := [];
      if needFullBuffer {
        w := AllocateWhole(f);
      }
      whole, order := w, ScanOrder(dct, f, plan);
      new;
      StartPass();
    }

    /** Another scan over arrays there are: its components are set up anew, what the arrays hold stays. */
    constructor OverArrays(f: Frame, plan: ScanPlan, dct: Dct, whole: seq<array2<Block>>)
      requires plan.Valid(f)
      ensures Sized() && Counting() && fresh(buffer) && this.f == f && this.plan == plan && this.dct == dct && this.whole == whole
      ensures row == 0 && vertOffset == 0 && mcuCtr == 0
    {
      this.f, this.plan, this.dct, this.whole := f, plan, dct, whole;
      buffer := new Block[MAX_BLOCKS_IN_MCU](_ => ZeroBlock());
      order := ScanOrder(dct, f, plan);
      new;
      StartPass();
    }

    /** start_pass_coef: the counters name the first MCU of the scan. */
    method StartPass()
      requires Sized()
      modifies this`row, this`mcuRows, this`mcuCtr, this`vertOffset
      ensures Counting() && row == 0 && vertOffset == 0 && mcuCtr == 0 && Before() == []
    {
      PartFits(f, plan, 0);
      row := 0;
      StartIMcuRow();
    }

    /** start_iMCU_row */
    method StartIMcuRow()
      requires Sized()
      modifies this`mcuRows, this`mcuCtr, this`vertOffset
      ensures mcuRows == plan.McuRows(f, row) > 0 && mcuCtr == 0 && vertOffset == 0
    {
      PartFits(f, plan, 0);
      if |plan.parts| > 1 {
        mcuRows := 1;
      } else if row + 1 < f.rows {
        mcuRows := f.comps[plan.parts[0].index].v;
      } else {
        mcuRows := plan.parts[0].lastRowHeight;
      }
      mcuCtr, vertOffset := 0, 0;
    }

    // ----- Single pass: building an MCU -----

    /** forward_DCT of count blocks into the buffer. */
    method ForwardDct(ci: nat, imgRow: nat, col: nat, count: nat, at: nat)
      requires at + count <= buffer.Length
      modifies buffer
      ensures forall k :: at <= k < at + count ==> buffer[k] == dct(ci, imgRow, col + (k - at))
      ensures forall k :: 0 <= k < buffer.Length && !(at <= k < at + count) ==> buffer[k] == old(buffer[k])
    {
      var i := 0;
      while i < count
        invariant i <= count
        invariant forall k :: at <= k < at + i ==> buffer[k] == dct(ci, imgRow, col + (k - at))
        invariant forall k :: 0 <= k < buffer.Length && !(at <= k < at + i) ==> buffer[k] == old(buffer[k])
      {
        buffer[at + i] := dct(ci, imgRow, col + i);
        i := i + 1;
      }
    }

    /** jzero_far on count blocks. */
    method ZeroBlocks(at: nat, count: nat)
      requires at + count <= buffer.Length
      modifies buffer
      ensures forall k :: at <= k < at + count ==> buffer[k] == ZeroBlock()
      ensures forall k :: 0 <= k < buffer.Length && !(at <= k < at + count) ==> buffer[k] == old(buffer[k])
    {
      var i := 0;
      while i < count
        invariant i <= count
        invariant forall k :: at <= k < at + i ==> buffer[k] == ZeroBlock()
        invariant forall k :: 0 <= k < buffer.Length && !(at <= k < at + i) ==> buffer[k] == old(buffer[k])
      {
        buffer[at + i] := ZeroBlock();
        i := i + 1;
      }
    }

    /** Dummy blocks at the right edge: each takes the DC value of the block before it. */
    method FillRightDummies(at: nat, count: nat)
      requires 0 < at && at + count <= buffer.Length
      modifies buffer
      ensures forall k :: at <= k < at + count ==> buffer[k] == Blank(old(buffer[at - 1])[0])
      ensures forall k :: 0 <= k < buffer.Length && !(at <= k < at + count) ==> buffer[k] == old(buffer[k])
    {
      ZeroBlocks(at, count);
      ghost var dc := buffer[at - 1][0];
      ZeroThenDc(dc);
      var bi := 0;
      while bi < count
        invariant bi <= count && buffer[at + bi - 1][0] == dc
        invariant forall k :: at <= k < at + bi ==> buffer[k] == Blank(dc)
        invariant forall k :: at + bi <= k < at + count ==> buffer[k] == ZeroBlock()
        invariant forall k :: 0 <= k < buffer.Length && !(at <= k < at + count) ==> buffer[k] == old(buffer[k])
      {
        buffer[at + bi] := buffer[at + bi][0 := buffer[at + bi - 1][0]];
        bi := bi + 1;
      }
    }

    /** A row of dummy blocks at the bottom: all take the DC value of the MCU's block before the row. */
    method FillBottomDummies(at: nat, count: nat)
      requires 0 < at && at + count <= buffer.Length
      modifies buffer
      ensures forall k :: at <= k < at + count ==> buffer[k] == Blank(old(buffer[at - 1])[0])
      ensures forall k :: 0 <= k < buffer.Length && !(at <= k < at + count) ==> buffer[k] == old(buffer[k])
    {
      ZeroBlocks(at, count);
      ghost var dc := buffer[at - 1][0];
      ZeroThenDc(dc);
      var bi := 0;
      while bi < count
        invariant bi <= count
        invariant forall k :: at <= k < at + bi ==> buffer[k] == Blank(dc)
        invariant forall k :: at + bi <= k < at + count ==> buffer[k] == ZeroBlock()
        invariant forall k :: 0 <= k < buffer.Length && !(at <= k < at + count) ==> buffer[k] == old(buffer[k])
      {
        buffer[at + bi] := buffer[at + bi][0 := buffer[at - 1][0]];
        bi := bi + 1;
      }
    }

    /** A row with real blocks: what they leave of the MCU's width is filled with dummies. */
    method FillRealRow(i: nat, imgRow: nat, x: nat, at: nat)
      requires Sized() && i < |plan.parts| && x < plan.mcusPerRow
      requires at + plan.parts[i].mcuWidth <= buffer.Length && imgRow < f.comps[plan.parts[i].index].height
      modifies buffer
      ensures RowHeld(i, imgRow, x, at)
      ensures forall k :: 0 <= k < at ==> buffer[k] == old(buffer[k])
    {
      hide Times;
      var p := plan.parts[i];
      PartFits(f, plan, i);
      var count := if x < plan.mcusPerRow - 1 then p.mcuWidth else p.lastColWidth;
      ForwardDct(p.index, imgRow, Times(x, p.mcuWidth), count, at);
      FillRightDummies(at + count, p.mcuWidth - count);
      forall k | at <= k < at + p.mcuWidth
        ensures buffer[k] == BlockAt(dct, f, p.index, imgRow, Times(x, p.mcuWidth) + (k - at))
      {
        InImageRow(dct, f, plan, i, imgRow, x, k - at);
      }
    }

    /** Below the image: a row of dummies like the last block of the MCU's row above. */
    method FillDummyRow(i: nat, imgRow: nat, x: nat, at: nat)
      requires Sized() && i < |plan.parts| && |plan.parts| > 1
      requires at + plan.parts[i].mcuWidth <= buffer.Length && imgRow >= f.comps[plan.parts[i].index].height
      requires 0 < at && 0 < imgRow && buffer[at - 1] == LastInRow(i, imgRow - 1, x)
      modifies buffer
      ensures RowHeld(i, imgRow, x, at)
      ensures forall k :: 0 <= k < at ==> buffer[k] == old(buffer[k])
    {
      var p := plan.parts[i];
      FillBottomDummies(at, p.mcuWidth);
      forall k | at <= k < at + p.mcuWidth
        ensures buffer[k] == BlockAt(dct, f, p.index, imgRow, Times(x, p.mcuWidth) + (k - at))
      {
        BelowImage(dct, f, plan, i, imgRow, x, k - at);
      }
    }

    /** The buffer holds, from at on, the part's blocks of one block row of MCU column x. */
    ghost predicate RowHeld(i: nat, imgRow: nat, x: nat, at: nat)
      requires Sized() && i < |plan.parts|
      reads buffer
    {
      var p := plan.parts[i];
      && at + p.mcuWidth <= buffer.Length
      && forall k :: at <= k < at + p.mcuWidth ==> buffer[k] == BlockAt(dct, f, p.index, imgRow, Times(x, p.mcuWidth) + (k - at))
    }

    ghost function LastInRow(i: nat, imgRow: nat, x: nat): Block
      requires Sized() && i < |plan.parts|
    {
      PartFits(f, plan, i);
      BlockAt(dct, f, plan.parts[i].index, imgRow, Times(x, plan.parts[i].mcuWidth) + (plan.parts[i].mcuWidth - 1))
    }

    /** One row of a part's blocks, real or dummy, after the part's first k rows. */
    method FillRow(i: nat, y: nat, x: nat, at: nat, ghost from: nat, ghost row0: nat, ghost k: nat)
      requires Sized() && row < f.rows && i < |plan.parts| && x < plan.mcusPerRow
      requires y < f.comps[plan.parts[i].index].v && from <= at && at + plan.parts[i].mcuWidth <= buffer.Length
      requires row0 + k == Times(row, f.comps[plan.parts[i].index].v) + y
      requires row0 + k >= f.comps[plan.parts[i].index].height ==> k > 0 && |plan.parts| > 1
      requires buffer[from..at] == PartBlocks(dct, f, plan.parts[i], row0, x, k)
      modifies buffer
      ensures buffer[..from] == old(buffer[..from])
      ensures buffer[from..at + plan.parts[i].mcuWidth] == PartBlocks(dct, f, plan.parts[i], row0, x, k + 1)
    {
      hide Times;
      ghost var p, was := plan.parts[i], buffer[..];
      EitherRow(i, y, x, at, from, row0, k);
      RowIs(dct, f, p, row0 + k, x, p.mcuWidth, buffer[at..at + p.mcuWidth]);
      OneRowMore(was, buffer[..], from, at, p.mcuWidth);
    }

    /** The row is real above the image's last block row, and a dummy below it. */
    method EitherRow(i: nat, y: nat, x: nat, at: nat, ghost from: nat, ghost row0: nat, ghost k: nat)
      requires Sized() && row < f.rows && i < |plan.parts| && x < plan.mcusPerRow
      requires y < f.comps[plan.parts[i].index].v && from <= at && at + plan.parts[i].mcuWidth <= buffer.Length
      requires row0 + k == Times(row, f.comps[plan.parts[i].index].v) + y
      requires row0 + k >= f.comps[plan.parts[i].index].height ==> k > 0 && |plan.parts| > 1
      requires buffer[from..at] == PartBlocks(dct, f, plan.parts[i], row0, x, k)
      modifies buffer
      ensures forall j :: 0 <= j < at ==> buffer[j] == old(buffer[j])
      ensures RowHeld(i, row0 + k, x, at)
    {
      hide Times;
      var p := plan.parts[i];
      PartFits(f, plan, i);
      RealRows(f, plan, i, row, y);
      if row < f.rows - 1 || y < p.lastRowHeight {
        FillRealRow(i, Times(row, f.comps[p.index].v) + y, x, at);
      } else {
        PartLast(dct, f, p, row0, x, k);
        assert buffer[from..at][at - from - 1] == buffer[at - 1];
        FillDummyRow(i, Times(row, f.comps[p.index].v) + y, x, at);
      }
    }

    /** All rows of a part's blocks, appended to the buffer. */
    method FillPart(i: nat, yoffset: nat, x: nat, at: nat) returns (blkn: nat)
      requires Sized() && Counting() && row < f.rows && i < |plan.parts| && x < plan.mcusPerRow && yoffset < mcuRows
      requires at + Times(plan.parts[i].mcuHeight, plan.parts[i].mcuWidth) <= buffer.Length
      modifies buffer
      ensures blkn == at + Times(plan.parts[i].mcuHeight, plan.parts[i].mcuWidth) <= buffer.Length
      ensures var p := plan.parts[i];
        buffer[..blkn] == old(buffer[..at]) + PartBlocks(dct, f, p, Times(row, f.comps[p.index].v) + yoffset, x, p.mcuHeight)
    {
      hide Times, PartBlocks;
      var p := plan.parts[i];
      ghost var row0 := Times(row, f.comps[p.index].v) + yoffset;
      NoRows(dct, f, p, row0, x);
      OffsetInStrip(f, plan, i, row, yoffset);
      RealRows(f, plan, i, row, yoffset);
      TimesStep(0, p.mcuWidth);
      blkn := at;
      var yindex := 0;
      while yindex < p.mcuHeight
        invariant yindex <= p.mcuHeight && blkn == at + Times(yindex, p.mcuWidth) <= buffer.Length
        invariant buffer[..at] == old(buffer[..at])
        invariant buffer[at..blkn] == PartBlocks(dct, f, p, row0, x, yindex)
      {
        TimesStep(yindex, p.mcuWidth);
        TimesMonotone(yindex + 1, p.mcuHeight, p.mcuWidth);
        FillRow(i, yoffset + yindex, x, blkn, at, row0, yindex);
        blkn := blkn + p.mcuWidth;
        yindex := yindex + 1;
      }
      assert buffer[..blkn] == buffer[..at] + buffer[at..blkn];
    }

    /** The blocks of part ci, after those of the parts before it. */
    method FillNextPart(ci: nat, yoffset: nat, x: nat, at: nat) returns (blkn: nat)
      requires Sized() && Counting() && row < f.rows && ci < |plan.parts| && x < plan.mcusPerRow && yoffset < mcuRows
      requires at == Blocks(plan.parts, ci) <= buffer.Length
      requires buffer[..at] == McuBlocks(dct, f, plan.parts, ci, row, yoffset, x)
      modifies buffer
      ensures blkn == Blocks(plan.parts, ci + 1) <= buffer.Length
      ensures buffer[..blkn] == McuBlocks(dct, f, plan.parts, ci + 1, row, yoffset, x)
    {
      hide McuBlocks, PartBlocks, Blocks, Times;
      OnePartMore(dct, f, plan, ci, row, yoffset, x);
      blkn := FillPart(ci, yoffset, x, at);
    }

    /** The blocks of all parts are the MCU's. */
    lemma AllParts(yoffset: nat, x: nat)
      requires Sized()
      ensures order.at(row, yoffset, x) == McuBlocks(dct, f, plan.parts, |plan.parts|, row, yoffset, x)
      ensures Blocks(plan.parts, |plan.parts|) <= buffer.Length
    {
    }

    /** All parts of the MCU, one after the other. */
    method FillMcu(yoffset: nat, x: nat) returns (blkn: nat)
      requires Sized() && Counting() && row < f.rows && x < plan.mcusPerRow && yoffset < mcuRows
      modifies buffer
      ensures blkn == Blocks(plan.parts, |plan.parts|) <= buffer.Length
      ensures buffer[..blkn] == order.at(row, yoffset, x)
    {
      hide Times, PartBlocks, McuBlocks, Blocks;
      NoPartYet(dct, f, plan.parts, row, yoffset, x);
      blkn := 0;
      var ci := 0;
      while ci < |plan.parts|
        invariant ci <= |plan.parts| && blkn == Blocks(plan.parts, ci) <= buffer.Length
        invariant buffer[..blkn] == McuBlocks(dct, f, plan.parts, ci, row, yoffset, x)
      {
        blkn := FillNextPart(ci, yoffset, x, blkn);
        ci := ci + 1;
      }
      AllParts(yoffset, x);
    }

    // ----- Single pass: compress_data -----

    /** The encoder codes this scan's MCUs, and its buffer is not the controller's. */
    ghost predicate Linked(enc: Encoder) {
      && enc.Configured()
      && enc.sc.layout.membership == Membership(plan.parts, |plan.parts|)
      && buffer as object != enc.dest.buf
    }

    /** Some MCU of the scan cannot be coded after those before it. */
    ghost predicate Uncodable(enc: Encoder) {
      && enc.Configured()
      && exists mcus :: enc.sc.layout.Fits(mcus) && mcus <= ScanMcus(order) && Stuck(enc, mcus)
    }

    ghost predicate Stuck(enc: Encoder, mcus: seq<Mcu>)
      requires enc.Configured() && enc.sc.layout.Fits(mcus)
    {
      !RunOk(enc.sc.layout, HuffCoder(enc.sc, enc.tb), Start(enc.sc.layout), mcus)
    }

    lemma UncodableMcu(enc: Encoder, y: nat, x: nat)
      requires Sized() && row < f.rows && y < plan.McuRows(f, row) && x < plan.mcusPerRow && enc.Configured()
      requires enc.sc.layout.Fits(McusBefore(order, row, y, x) + [order.at(row, y, x)])
      requires Stuck(enc, McusBefore(order, row, y, x) + [order.at(row, y, x)])
      ensures Uncodable(enc)
    {
      OrderShape(row);
      NextMcu(order, row, y, x);
      var rest := BeforeIsPrefix(order, row, y, x + 1);
    }

    /** A scan with such an MCU cannot be coded. */
    lemma UncodableScan(enc: Encoder)
      requires Sized() && Linked(enc) && Uncodable(enc)
      ensures enc.sc.layout.Fits(ScanMcus(order)) && Stuck(enc, ScanMcus(order))
    {
      SizesFit(dct, f, plan, enc.sc);
      var all := ScanMcus(order);
      var mcus :| enc.sc.layout.Fits(mcus) && mcus <= all && Stuck(enc, mcus);
      assert all[..|mcus|] == mcus;
      if !Stuck(enc, all) {
        PartOk(enc.sc.layout, HuffCoder(enc.sc, enc.tb), Start(enc.sc.layout), all, |mcus|);
      }
    }

    /** The MCUs before position (y, x) of the current iMCU row are committed. */
    ghost function Poised(enc: Encoder, y: nat, x: nat): (s: Standing)
      reads `row, `mcuCtr, `vertOffset, `mcuRows, enc, enc.dest, enc.dest.buf
      ensures s.Sound? ==> row <= f.rows && vertOffset < mcuRows && mcuCtr < plan.mcusPerRow
    {
      if Sized() && Linked(enc) && Counting() && enc.Valid() && enc.history == McusBefore(order, row, y, x)
      then Sound else Unsound
    }

    /** At the start of a pass an encoder that has coded nothing is where the counters are. */
    lemma StartPoised(enc: Encoder)
      requires Sized() && Linked(enc) && Counting() && row == 0 && vertOffset == 0 && mcuCtr == 0
      requires enc.Valid() && enc.history == []
      ensures Poised(enc, vertOffset, mcuCtr).Sound?
    {
    }

    lemma OrderShape(r: nat)
      requires Sized()
      ensures order.cols == plan.mcusPerRow && order.strips == f.rows && order.rows(r) == plan.McuRows(f, r)
    {
    }

    /** Hand the MCU at this position, already in the buffer, to the encoder. */
    method WriteMcu(enc: Encoder, yoffset: nat, x: nat, blkn: nat) returns (res: Outcome)
      requires Poised(enc, yoffset, x).Sound?
      requires row < f.rows && yoffset < mcuRows && x < plan.mcusPerRow
      requires blkn == Blocks(plan.parts, |plan.parts|) <= buffer.Length && buffer[..blkn] == order.at(row, yoffset, x)
      modifies this`mcuCtr, this`vertOffset, enc, enc.dest`next, enc.dest`free, enc.dest`sent, enc.dest.buf
      ensures res.Done? ==> Poised(enc, yoffset, x + 1).Sound? && mcuCtr == old(mcuCtr) && vertOffset == old(vertOffset)
      ensures res.Suspended? ==> Poised(enc, vertOffset, mcuCtr).Sound? && enc.dest.refuses
      ensures res.Failed? ==> Uncodable(enc)
    {
      hide Times, Blocks, Membership, HuffCoder, RunOk, RunFrom, ScanBytes;
      var mcu: Mcu := buffer[..blkn];
      assert enc.sc.layout.Fits([mcu]);
      NextMcu(order, row, yoffset, x);
      res := enc.EncodeMcu(mcu);
      if res.Suspended? {
        vertOffset, mcuCtr := yoffset, x;
      } else if res.Failed? {
        UncodableMcu(enc, yoffset, x);
      }
    }

    /** The MCU at this position, built and handed on. */
    method CodeMcu(enc: Encoder, yoffset: nat, x: nat) returns (res: Outcome)
      requires Poised(enc, yoffset, x).Sound?
      requires row < f.rows && yoffset < mcuRows && x < plan.mcusPerRow
      modifies this`mcuCtr, this`vertOffset, buffer, enc, enc.dest`next, enc.dest`free, enc.dest`sent, enc.dest.buf
      ensures res.Done? ==> Poised(enc, yoffset, x + 1).Sound? && mcuCtr == old(mcuCtr) && vertOffset == old(vertOffset)
      ensures res.Suspended? ==> Poised(enc, vertOffset, mcuCtr).Sound? && enc.dest.refuses
      ensures res.Failed? ==> Uncodable(enc)
    {
      var blkn := FillMcu(yoffset, x);
      res := WriteMcu(enc, yoffset, x, blkn);
    }

    /** One MCU row of the single-pass case, from mcu_ctr on. */
    method CompressMcuRow(enc: Encoder, yoffset: nat) returns (res: Outcome)
      requires Poised(enc, yoffset, mcuCtr).Sound? && row < f.rows && yoffset < mcuRows
      modifies this`mcuCtr, this`vertOffset, buffer, enc, enc.dest`next, enc.dest`free, enc.dest`sent, enc.dest.buf
      ensures res.Done? ==> Poised(enc, yoffset + 1, 0).Sound? && mcuCtr == 0
      ensures res.Suspended? ==> Poised(enc, vertOffset, mcuCtr).Sound? && enc.dest.refuses
      ensures res.Failed? ==> Uncodable(enc)
    {
      hide *;
      var col: nat := mcuCtr;
      while col < plan.mcusPerRow
        invariant col <= plan.mcusPerRow && Poised(enc, yoffset, col).Sound?
      {
        res := CodeMcu(enc, yoffset, col);
        if res != Done {
          return;
        }
        col := col + 1;
      }
      FinishMcuRow(enc, yoffset);
      res := Done;
    }

    /** The MCU row is done: the column counter starts over, in the next MCU row. */
    method FinishMcuRow(enc: Encoder, yoffset: nat)
      requires Poised(enc, yoffset, plan.mcusPerRow).Sound?
      modifies this`mcuCtr
      ensures Poised(enc, yoffset + 1, 0).Sound? && mcuCtr == 0
    {
      hide McusBefore, Ran, ScanOrder, Membership, Blocks, Times;
      OrderShape(row);
      NextMcuRow(order, row, yoffset);
      mcuCtr := 0;
    }

    /**
     compress_data: codes what is left of the iMCU row. If the encoder is refused, the counters name the MCU to
     resume at and everything before it is committed; nothing is lost or committed twice.
     */
    method CompressData(enc: Encoder) returns (res: Outcome)
      requires Poised(enc, vertOffset, mcuCtr).Sound? && row < f.rows
      modifies this`row, this`mcuCtr, this`vertOffset, this`mcuRows, buffer, enc, enc.dest`next, enc.dest`free, enc.dest`sent, enc.dest.buf
      ensures res.Done? ==> row == old(row) + 1
      ensures res.Suspended? ==> row == old(row) && enc.dest.refuses
      ensures !res.Failed? ==> Poised(enc, vertOffset, mcuCtr).Sound?
      ensures res.Failed? ==> Uncodable(enc)
    {
      hide *;
      var yoffset: nat := vertOffset;
      while yoffset < mcuRows
        invariant yoffset <= mcuRows && row == old(row) && Poised(enc, yoffset, mcuCtr).Sound?
        invariant yoffset == mcuRows ==> mcuCtr == 0
      {
        res := CompressMcuRow(enc, yoffset);
        if res != Done {
          return;
        }
        yoffset := yoffset + 1;
      }
      FinishIMcuRow(enc);
      res := Done;
    }

    /** On to the first MCU of the next iMCU row. */
    method FinishIMcuRow(enc: Encoder)
      requires Poised(enc, mcuRows, 0).Sound? && row < f.rows
      modifies this`row, this`mcuCtr, this`vertOffset, this`mcuRows
      ensures row == old(row) + 1 && Poised(enc, 0, 0).Sound? && vertOffset == 0 && mcuCtr == 0
    {
      hide McusBefore, Ran, ScanOrder, Membership, Blocks, Times;
      OrderShape(row);
      NextStrip(order, row);
      row := row + 1;
      StartIMcuRow();
    }

    // ----- Full buffer: compress_first_pass and compress_output -----

    /** The virtual arrays hold the first strips of the image, padding included. */
    ghost function Loaded(strips: nat): (s: Standing)
      reads whole
    {
      if f.Valid() && WholeSized(f, whole) && StripsStored(dct, f, whole, strips) then Sound else Unsound
    }

    lemma FewerLoaded(m: nat, n: nat)
      requires Loaded(m).Sound? && n <= m
      ensures Loaded(n).Sound?
    {
      forall ci | 0 <= ci < |whole| ensures RowsStored(dct, f, whole[ci], ci, 0, Times(n, f.comps[ci].v)) {
        TimesMonotone(n, m, f.comps[ci].v);
        assert RowsStored(dct, f, whole[ci], ci, 0, Times(m, f.comps[ci].v));
      }
    }

    /** One row of a part's blocks, from the part's virtual array. */
    method LoadRow(i: nat, imgRow: nat, x: nat, at: nat, ghost strips: nat)
      requires Sized() && i < |plan.parts| && x < plan.mcusPerRow && Loaded(strips).Sound?
      requires at + plan.parts[i].mcuWidth <= buffer.Length && imgRow < Times(strips, f.comps[plan.parts[i].index].v)
      modifies buffer
      ensures RowHeld(i, imgRow, x, at)
      ensures forall k :: 0 <= k < at ==> buffer[k] == old(buffer[k])
    {
      hide Times;
      var p := plan.parts[i];
      var startCol := Times(x, p.mcuWidth);
      var xindex := 0;
      while xindex < p.mcuWidth
        invariant xindex <= p.mcuWidth
        invariant forall k :: at <= k < at + xindex ==> buffer[k] == BlockAt(dct, f, p.index, imgRow, startCol + (k - at))
        invariant forall k :: 0 <= k < at ==> buffer[k] == old(buffer[k])
      {
        RealColumns(f, plan, i, x, xindex);
        assert RowsStored(dct, f, whole[p.index], p.index, 0, Times(strips, f.comps[p.index].v));
        buffer[at + xindex] := whole[p.index][imgRow, startCol + xindex];
        xindex := xindex + 1;
      }
    }

    /** The part's next row, after its first k rows. */
    method LoadNextRow(i: nat, imgRow: nat, x: nat, at: nat, ghost from: nat, ghost row0: nat, ghost k: nat)
      requires Sized() && i < |plan.parts| && x < plan.mcusPerRow && Loaded(row + 1).Sound?
      requires from <= at && at + plan.parts[i].mcuWidth <= buffer.Length
      requires imgRow == row0 + k < Times(row + 1, f.comps[plan.parts[i].index].v)
      requires buffer[from..at] == PartBlocks(dct, f, plan.parts[i], row0, x, k)
      modifies buffer
      ensures buffer[..from] == old(buffer[..from])
      ensures buffer[from..at + plan.parts[i].mcuWidth] == PartBlocks(dct, f, plan.parts[i], row0, x, k + 1)
    {
      hide Times, Loaded, BlockAt;
      ghost var p, was := plan.parts[i], buffer[..];
      LoadRow(i, imgRow, x, at, row + 1);
      RowIs(dct, f, p, imgRow, x, p.mcuWidth, buffer[at..at + p.mcuWidth]);
      OneRowMore(was, buffer[..], from, at, p.mcuWidth);
    }

    /** All rows of a part's blocks, after those of the parts before it. */
    method LoadPart(i: nat, yoffset: nat, x: nat, at: nat) returns (blkn: nat)
      requires Sized() && Counting() && row < f.rows && i < |plan.parts| && x < plan.mcusPerRow && yoffset < mcuRows
      requires at + Times(plan.parts[i].mcuHeight, plan.parts[i].mcuWidth) <= buffer.Length && Loaded(row + 1).Sound?
      modifies buffer
      ensures blkn == at + Times(plan.parts[i].mcuHeight, plan.parts[i].mcuWidth) <= buffer.Length
      ensures var p := plan.parts[i];
        buffer[..blkn] == old(buffer[..at]) + PartBlocks(dct, f, p, Times(row, f.comps[p.index].v) + yoffset, x, p.mcuHeight)
    {
      hide Times, PartBlocks;
      var p := plan.parts[i];
      ghost var row0 := Times(row, f.comps[p.index].v) + yoffset;
      NoRows(dct, f, p, row0, x);
      OffsetInStrip(f, plan, i, row, yoffset);
      TimesStep(row, f.comps[p.index].v);
      TimesStep(0, p.mcuWidth);
      blkn := at;
      var yindex := 0;
      while yindex < p.mcuHeight
        invariant yindex <= p.mcuHeight && blkn == at + Times(yindex, p.mcuWidth) <= buffer.Length
        invariant buffer[..at] == old(buffer[..at])
        invariant buffer[at..blkn] == PartBlocks(dct, f, p, row0, x, yindex)
      {
        TimesStep(yindex, p.mcuWidth);
        TimesMonotone(yindex + 1, p.mcuHeight, p.mcuWidth);
        LoadNextRow(i, Times(row, f.comps[p.index].v) + (yindex + yoffset), x, blkn, at, row0, yindex);
        blkn := blkn + p.mcuWidth;
        yindex := yindex + 1;
      }
      assert buffer[..blkn] == buffer[..at] + buffer[at..blkn];
    }

    method LoadNextPart(ci: nat, yoffset: nat, x: nat, at: nat) returns (blkn: nat)
      requires Sized() && Counting() && row < f.rows && ci < |plan.parts| && x < plan.mcusPerRow && yoffset < mcuRows
      requires at == Blocks(plan.parts, ci) <= buffer.Length && Loaded(row + 1).Sound?
      requires buffer[..at] == McuBlocks(dct, f, plan.parts, ci, row, yoffset, x)
      modifies buffer
      ensures blkn == Blocks(plan.parts, ci + 1) <= buffer.Length
      ensures buffer[..blkn] == McuBlocks(dct, f, plan.parts, ci + 1, row, yoffset, x)
    {
      hide McuBlocks, PartBlocks, Blocks, Times;
      OnePartMore(dct, f, plan, ci, row, yoffset, x);
      blkn := LoadPart(ci, yoffset, x, at);
    }

    /** The MCU's blocks from the virtual arrays, part by part. */
    method LoadMcu(yoffset: nat, x: nat) returns (blkn: nat)
      requires Sized() && Counting() && row < f.rows && x < plan.mcusPerRow && yoffset < mcuRows
      requires Loaded(row + 1).Sound?
      modifies buffer
      ensures blkn == Blocks(plan.parts, |plan.parts|) <= buffer.Length
      ensures buffer[..blkn] == order.at(row, yoffset, x)
    {
      hide Times, PartBlocks, McuBlocks, Blocks, Loaded;
      NoPartYet(dct, f, plan.parts, row, yoffset, x);
      blkn := 0;
      var ci := 0;
      while ci < |plan.parts|
        invariant ci <= |plan.parts| && blkn == Blocks(plan.parts, ci) <= buffer.Length
        invariant buffer[..blkn] == McuBlocks(dct, f, plan.parts, ci, row, yoffset, x)
      {
        blkn := LoadNextPart(ci, yoffset, x, blkn);
        ci := ci + 1;
      }
      AllParts(yoffset, x);
    }

    method OutputMcu(enc: Encoder, yoffset: nat, x: nat) returns (res: Outcome)
      requires Poised(enc, yoffset, x).Sound? && Loaded(row + 1).Sound?
      requires row < f.rows && yoffset < mcuRows && x < plan.mcusPerRow
      modifies this`mcuCtr, this`vertOffset, buffer, enc, enc.dest`next, enc.dest`free, enc.dest`sent, enc.dest.buf
      ensures res.Done? ==> Poised(enc, yoffset, x + 1).Sound? && mcuCtr == old(mcuCtr) && vertOffset == old(vertOffset)
      ensures res.Suspended? ==> Poised(enc, vertOffset, mcuCtr).Sound? && enc.dest.refuses
      ensures res.Failed? ==> Uncodable(enc)
    {
      var blkn := LoadMcu(yoffset, x);
      res := WriteMcu(enc, yoffset, x, blkn);
    }

    method OutputMcuRow(enc: Encoder, yoffset: nat) returns (res: Outcome)
      requires Poised(enc, yoffset, mcuCtr).Sound? && Loaded(row + 1).Sound? && row < f.rows && yoffset < mcuRows
      modifies this`mcuCtr, this`vertOffset, buffer, enc, enc.dest`next, enc.dest`free, enc.dest`sent, enc.dest.buf
      ensures res.Done? ==> Poised(enc, yoffset + 1, 0).Sound? && mcuCtr == 0
      ensures res.Suspended? ==> Poised(enc, vertOffset, mcuCtr).Sound? && enc.dest.refuses
      ensures res.Failed? ==> Uncodable(enc)
    {
      hide *;
      var col: nat := mcuCtr;
      while col < plan.mcusPerRow
        invariant col <= plan.mcusPerRow && Poised(enc, yoffset, col).Sound? && Loaded(row + 1).Sound?
      {
        res := OutputMcu(enc, yoffset, col);
        if res != Done {
          return;
        }
        col := col + 1;
      }
      FinishMcuRow(enc, yoffset);
      res := Done;
    }

    /** compress_output: the same MCUs in the same order, read from the virtual arrays. */
    method CompressOutput(enc: Encoder) returns (res: Outcome)
      requires Poised(enc, vertOffset, mcuCtr).Sound? && Loaded(row + 1).Sound? && row < f.rows
      modifies this`row, this`mcuCtr, this`vertOffset, this`mcuRows, buffer, enc,
               enc.dest`next, enc.dest`free, enc.dest`sent, enc.dest.buf
      ensures res.Done? ==> row == old(row) + 1
      ensures res.Suspended? ==> row == old(row) && enc.dest.refuses
      ensures !res.Failed? ==> Poised(enc, vertOffset, mcuCtr).Sound?
      ensures res.Failed? ==> Uncodable(enc)
    {
      hide *;
      var yoffset: nat := vertOffset;
      while yoffset < mcuRows
        invariant yoffset <= mcuRows && row == old(row) && Poised(enc, yoffset, mcuCtr).Sound? && Loaded(row + 1).Sound?
        invariant yoffset == mcuRows ==> mcuCtr == 0
      {
        res := OutputMcuRow(enc, yoffset);
        if res != Done {
          return;
        }
        yoffset := yoffset + 1;
      }
      FinishIMcuRow(enc);
      res := Done;
    }

    /** compress_first_pass: a strip of every component goes into the virtual arrays, then to the encoder. */
    method CompressFirstPass(enc: Encoder) returns (res: Outcome)
      requires Poised(enc, vertOffset, mcuCtr).Sound? && Loaded(row).Sound? && row < f.rows
      modifies this`row, this`mcuCtr, this`vertOffset, this`mcuRows, buffer, whole, enc,
               enc.dest`next, enc.dest`free, enc.dest`sent, enc.dest.buf
      ensures res.Done? ==> row == old(row) + 1
      ensures res.Suspended? ==> row == old(row) && enc.dest.refuses
      ensures !res.Failed? ==> Poised(enc, vertOffset, mcuCtr).Sound? && Loaded(old(row) + 1).Sound?
      ensures res.Failed? ==> Uncodable(enc)
    {
      hide *;
      LoadStrip();
      res := CompressOutput(enc);
    }

    /** The strip of the current iMCU row goes into the virtual arrays. */
    method LoadStrip()
      requires Loaded(row).Sound? && row < f.rows
      modifies whole
      ensures Loaded(row + 1).Sound?
    {
      StoreStrips(dct, f, whole, row);
    }
  }

  lemma SizesFit(dct: Dct, f: Frame, plan: ScanPlan, sc: Scan)
    requires plan.Valid(f) && sc.Valid() && sc.layout.membership == Membership(plan.parts, |plan.parts|)
    ensures sc.layout.Fits(ScanMcus(ScanOrder(dct, f, plan)))
  {
    ImageSizes(ScanOrder(dct, f, plan), f.rows, Blocks(plan.parts, |plan.parts|));
  }

  /** The new blocks follow those before them, which are kept. */
  lemma OneRowMore(was: seq<Block>, now: seq<Block>, from: nat, at: nat, w: nat)
    requires |was| == |now| && from <= at && at + w <= |now|
    requires forall j :: 0 <= j < at ==> now[j] == was[j]
    ensures now[..from] == was[..from]
    ensures now[from..at + w] == was[from..at] + now[at..at + w]
  {
  }

  lemma NoPartYet(dct: Dct, f: Frame, parts: seq<ScanComponent>, r: nat, y: nat, x: nat)
    requires f.Valid() && forall i :: 0 <= i < |parts| ==> parts[i].index < |f.comps|
    ensures Blocks(parts, 0) == 0 && McuBlocks(dct, f, parts, 0, r, y, x) == []
  {
  }

  lemma OnePartMore(dct: Dct, f: Frame, plan: ScanPlan, ci: nat, r: nat, y: nat, x: nat)
    requires plan.Valid(f) && ci < |plan.parts|
    ensures var p := plan.parts[ci];
      && Blocks(plan.parts, ci + 1) == Blocks(plan.parts, ci) + Times(p.mcuHeight, p.mcuWidth) <= Blocks(plan.parts, |plan.parts|)
      && McuBlocks(dct, f, plan.parts, ci + 1, r, y, x)
        == McuBlocks(dct, f, plan.parts, ci, r, y, x)
           + PartBlocks(dct, f, p, Times(r, f.comps[p.index].v) + y, x, p.mcuHeight)
  {
    hide Times, PartBlocks;
    BlocksGrow(plan.parts, ci + 1, |plan.parts|);
  }

  lemma {:induction false} BlocksGrow(parts: seq<ScanComponent>, n: nat, m: nat)
    requires n <= m <= |parts|
    ensures Blocks(parts, n) <= Blocks(parts, m)
    decreases m
  {
    if n < m {
      BlocksGrow(parts, n, m - 1);
    }
  }

  /** Every row of the MCU lies in the strip, and its first row is real. */
  lemma OffsetInStrip(f: Frame, plan: ScanPlan, i: nat, r: nat, yoffset: nat)
    requires plan.Valid(f) && i < |plan.parts| && r < f.rows && yoffset < plan.McuRows(f, r)
    ensures var p := plan.parts[i]; var c := f.comps[p.index];
      && yoffset + p.mcuHeight <= c.v && p.mcuHeight > 0
      && (r == f.rows - 1 ==> yoffset < p.lastRowHeight)
      && (|plan.parts| == 1 ==> p.mcuHeight == 1)
  {
    PartFits(f, plan, i);
    PartFits(f, plan, 0);
  }

  lemma PartLast(dct: Dct, f: Frame, p: ScanComponent, row0: nat, x: nat, k: nat)
    requires f.Valid() && p.index < |f.comps| && p.mcuWidth > 0 && k > 0
    ensures var s := PartBlocks(dct, f, p, row0, x, k);
      |s| > 0 && s[|s| - 1] == BlockAt(dct, f, p.index, row0 + (k - 1), Times(x, p.mcuWidth) + (p.mcuWidth - 1))
  {
    var s, r := PartBlocks(dct, f, p, row0, x, k), RowBlocks(dct, f, p, row0 + (k - 1), x, p.mcuWidth);
    assert s == PartBlocks(dct, f, p, row0, x, k - 1) + r;
    assert s[|s| - 1] == r[|r| - 1];
  }

  /** A block of a real row: the DCT's, or a dummy with the DC value of the last one. */
  lemma InImageRow(dct: Dct, f: Frame, plan: ScanPlan, i: nat, imgRow: nat, x: nat, xi: nat)
    requires plan.Valid(f) && i < |plan.parts| && x < plan.mcusPerRow && xi < plan.parts[i].mcuWidth
    requires imgRow < f.comps[plan.parts[i].index].height
    ensures var p := plan.parts[i];
      var count := if x < plan.mcusPerRow - 1 then p.mcuWidth else p.lastColWidth;
      && count > 0
      && BlockAt(dct, f, p.index, imgRow, Times(x, p.mcuWidth) + xi)
        == if xi < count then dct(p.index, imgRow, Times(x, p.mcuWidth) + xi)
           else Blank(dct(p.index, imgRow, Times(x, p.mcuWidth) + (count - 1))[0])
  {
    PartFits(f, plan, i);
    RealColumns(f, plan, i, x, xi);
  }

  /** A dummy block of a bottom row, in terms of its MCU's last block one row up. */
  lemma BelowImage(dct: Dct, f: Frame, plan: ScanPlan, i: nat, imgRow: nat, x: nat, xi: nat)
    requires plan.Valid(f) && i < |plan.parts| && |plan.parts| > 1 && xi < plan.parts[i].mcuWidth
    requires imgRow >= f.comps[plan.parts[i].index].height && imgRow > 0
    ensures var p := plan.parts[i];
      BlockAt(dct, f, p.index, imgRow, Times(x, p.mcuWidth) + xi)
      == Blank(BlockAt(dct, f, p.index, imgRow - 1, Times(x, p.mcuWidth) + (p.mcuWidth - 1))[0])
  {
    PartFits(f, plan, i);
    ColumnInMcu(plan.parts[i].mcuWidth, x, xi);
  }

  lemma {:induction false} RowIs(dct: Dct, f: Frame, p: ScanComponent, imgRow: nat, x: nat, n: nat, s: seq<Block>)
    requires f.Valid() && p.index < |f.comps| && |s| == n
    requires forall xi :: 0 <= xi < n ==> s[xi] == BlockAt(dct, f, p.index, imgRow, Times(x, p.mcuWidth) + xi)
    ensures s == RowBlocks(dct, f, p, imgRow, x, n)
  {
    if n > 0 {
      RowIs(dct, f, p, imgRow, x, n - 1, s[..n - 1]);
      assert s == s[..n - 1] + [s[n - 1]];
    }
  }
}
