/** The main buffer controller with jpeg_write_scanlines: every scanline is used once, whatever the suspensions. */
module MainController {
  import opened Geometry

  const GROUPS := 8                      // DCTSIZE: an iMCU row is this many groups of lines

  /** One scanline as the application presents it. */
  type Row = seq<int>

  class Main {
    const image: seq<Row>                // the application's image; image_height is its length
    const maxV: nat                      // max_v_samp_factor
    const total: nat                     // total_iMCU_rows
    var next: nat                        // next_scanline
    var cur: nat                         // cur_iMCU_row
    var group: nat                       // rowgroup_ctr
    var suspended: bool
    var bufRow: nat                      // next_buf_row of the preprocessor
    var toGo: nat                        // rows_to_go of the preprocessor
    ghost var fed: seq<Row>              // the rows the preprocessor was given

    /** The iMCU rows cover the image. */
    ghost predicate Covered() {
      maxV > 0 && total > 0 && Times(GROUPS * (total - 1), maxV) < |image| <= Times(GROUPS * total, maxV)
    }

    /** The rows given so far are those of the accepted iMCU rows, of the full row groups, and of the buffer. */
    ghost predicate Counted()
      reads this
    {
      && Covered() && toGo <= |image| && fed == image[..|image| - toGo]
      && (toGo > 0 ==>
            && cur < total && group <= GROUPS && bufRow < maxV && (group == GROUPS ==> bufRow == 0)
            && |image| - toGo == Times(GROUPS * cur + group, maxV) + bufRow)
      && (toGo == 0 ==> bufRow == 0 && (if cur == total then group == 0 else cur + 1 == total && group == GROUPS))
    }

    /** Between calls: one row is pretended away exactly while a full iMCU row waits to be accepted. */
    ghost predicate Valid()
      reads this
    {
      && Counted()
      && (suspended <==> group == GROUPS)
      && next + (if suspended then 1 else 0) == |image| - toGo
    }

    /** start_pass_main and start_pass_prep for an image of at least one row. */
    constructor (image: seq<Row>, maxV: nat)
      requires |image| > 0 && maxV > 0
      ensures Valid() && next == 0 && this.image == image && this.maxV == maxV && fed == [] && cur == 0 && !suspended
      ensures Times(8 * (total - 1), maxV) < |image| <= Times(8 * total, maxV)
    {
      this.image, this.maxV, total := image, maxV, DivRoundUp(|image|, maxV * GROUPS);
      next, cur, group, suspended := 0, 0, 0, false;
      bufRow, toGo, fed := 0, |image|, [];
      new;
      StripsCover(|image|, maxV);
    }

    /** pre_process_data: fills row groups from the lines from ctr0 on, padding at the bottom of the image. */
    method PreProcess(lines: seq<Row>, ctr0: nat, avail: nat, ghost first: nat) returns (ctr: nat)
      requires Counted() && group < GROUPS && toGo > 0
      requires (ctr0 <= avail || (ctr0 == 1 && avail == 0)) && avail <= |lines|
      requires first + avail <= |image| && lines[..avail] == image[first..first + avail]
      requires first + ctr0 == |image| - toGo
      modifies this`group, this`bufRow, this`toGo, this`fed
      ensures Counted() && ctr0 <= ctr && (ctr <= avail || ctr == ctr0) && first + ctr == |image| - toGo
      ensures group == GROUPS ==> ctr > ctr0
      ensures group < GROUPS ==> ctr >= avail
    {
      hide Times;
      ctr := ctr0;
      while ctr < avail && group < GROUPS
        invariant Counted() && ctr0 <= ctr && (ctr <= avail || ctr == ctr0) && first + ctr == |image| - toGo
        invariant group == GROUPS ==> ctr > ctr0
        invariant group < GROUPS ==> toGo > 0
        decreases avail - ctr
      {
        var inRows := avail - ctr;
        var numRows := if maxV - bufRow < inRows then maxV - bufRow else inRows;
        Feed(lines, ctr, numRows, avail, first);
        ctr := ctr + numRows;
        bufRow := bufRow + numRows;
        toGo := toGo - numRows;
        if toGo == 0 {
          LastStrip(|image|, maxV, total, cur, group, bufRow);
        }
        if toGo == 0 && bufRow < maxV {
          bufRow := maxV;
        }
        if bufRow == maxV {
          bufRow := 0;
          group := group + 1;
          TimesStep(GROUPS * cur + (group - 1), maxV);
        }
        if toGo == 0 && group < GROUPS {
          group := GROUPS;
          break;
        }
      }
    }

    /** The rows handed to colour conversion are the next ones of the image. */
    ghost method Feed(lines: seq<Row>, ctr: nat, n: nat, avail: nat, first: nat)
      requires ctr + n <= avail <= |lines| && first + avail <= |image| && lines[..avail] == image[first..first + avail]
      requires fed == image[..first + ctr]
      modifies this`fed
      ensures fed == image[..first + ctr + n] == old(fed) + lines[ctr..ctr + n]
    {
      ghost var given, wanted := lines[..avail], image[first..first + avail];
      assert lines[ctr..ctr + n] == given[ctr..ctr + n];
      SliceOfSlice(image, first, first + avail, ctr, ctr + n);
      fed := fed + lines[ctr..ctr + n];
    }

    /**
     process_data_simple_main. The compressor's answer in this call to iMCU row r, if it is offered, is
     accepts(r). The row counter is never decremented below zero, and a suspension costs exactly one row; without
     lines, the row that a suspension has held back is counted as soon as its iMCU row is accepted.
     */
    method ProcessData(lines: seq<Row>, avail: nat, accepts: nat -> bool) returns (ctr: nat)
      requires Valid() && avail <= |lines| && next + avail <= |image| && lines[..avail] == image[next..next + avail]
      modifies this`cur, this`group, this`suspended, this`bufRow, this`toGo, this`fed
      ensures Counted() && (suspended <==> group == GROUPS)
      ensures next + ctr + (if suspended then 1 else 0) == |image| - toGo
      ensures ctr <= avail || (ctr == 1 && avail == 0 && old(suspended))
      ensures if suspended then !accepts(cur) else ctr >= avail
      ensures old(cur) <= cur && forall r :: old(cur) <= r < cur ==> accepts(r)
      ensures avail == 0 && old(suspended) ==> ctr == (if accepts(old(cur)) then 1 else 0)
    {
      hide Times;
      ctr := 0;
      while cur < total
        invariant Counted() && cur <= total && (suspended ==> ctr == 0 && old(suspended))
        invariant suspended <==> group == GROUPS
        invariant next + ctr + (if suspended then 1 else 0) == |image| - toGo
        invariant ctr <= avail || (ctr == 1 && avail == 0 && old(suspended))
        invariant old(cur) <= cur && forall r :: old(cur) <= r < cur ==> accepts(r)
        invariant avail == 0 && old(suspended) ==> ctr == cur - old(cur) <= 1 && (suspended <==> ctr == 0)
        decreases total - cur
      {
        if group < GROUPS {
          ctr := PreProcess(lines, ctr, avail, next);
        }
        if group != GROUPS {
          return;
        }
        if !accepts(cur) {
          if !suspended {
            ctr := ctr - 1;
            suspended := true;
          }
          return;
        }
        if suspended {
          ctr := ctr + 1;
          suspended := false;
        }
        NextStripStarts(|image|, maxV, total, cur, toGo);
        group := 0;
        cur := cur + 1;
      }
    }

    /**
     jpeg_write_scanlines, the application presenting its image from next_scanline on. The result is the number
     of lines written: all that are left to write unless the compressor has refused an iMCU row. The image's end is
     reached exactly when its last iMCU row has been accepted.
     */
    method WriteScanlines(lines: seq<Row>, accepts: nat -> bool) returns (written: nat, warned: bool)
      requires Valid()
      requires forall k :: 0 <= k < |lines| && next + k < |image| ==> lines[k] == image[next + k]
      modifies this`next, this`cur, this`group, this`suspended, this`bufRow, this`toGo, this`fed
      ensures Valid() && next == old(next) + written
      ensures warned <==> old(next) >= |image|
      ensures written <= |lines| <==> lines != [] || !old(suspended) || !accepts(old(cur))
      ensures lines == [] && old(suspended) ==> written == (if accepts(old(cur)) then 1 else 0)
      ensures fed == image[..next + (if suspended then 1 else 0)]
      ensures next <= |image| && (next == |image| <==> cur == total)
      ensures old(cur) <= cur && (forall r :: old(cur) <= r < cur ==> accepts(r)) && (suspended ==> !accepts(cur))
      ensures cur < total ==> InStrip(|fed|, cur, maxV, |image|, suspended)
      ensures !suspended && (lines != [] || !old(suspended)) ==> written == if |lines| <= |image| - old(next) then |lines| else |image| - old(next)
    {
      warned := next >= |image|;
      var rowsLeft := |image| - next;
      var numLines := if |lines| > rowsLeft then rowsLeft else |lines|;
      assert lines[..numLines] == image[next..next + numLines];
      written := ProcessData(lines, numLines, accepts);
      next := next + written;
      if cur < total {
        StripOf(|image|, maxV, total, cur, group, bufRow, toGo);
      }
    }
  }

  /**
   Of an image of this height, n lines have been given: all of iMCU row r, whose lines are eight times the largest
   vertical factor, or those left when the row is full; fewer, but all of the rows before it, when it is not.
   */
  predicate InStrip(n: nat, r: nat, maxV: nat, height: nat, full: bool) {
    if full then n == (if height < Times(8 * (r + 1), maxV) then height else Times(8 * (r + 1), maxV))
    else Times(8 * r, maxV) <= n < Times(8 * (r + 1), maxV) && n < height
  }

  /** An image of one line, refused at first: a later call without any line reports one as written. */
  method WrittenWithoutLines() returns (first: nat, second: nat)
    ensures first == 0 && second == 1
  {
    var m := new Main([[]], 1);
    var warned: bool;
    var refuse := (_: nat) => false;
    first, warned := m.WriteScanlines([[]], refuse);
    assert m.suspended by {
      assert !refuse(0);
    }
    second, warned := m.WriteScanlines([], (_: nat) => true);
  }

  // ----- The arithmetic of strips -----

  lemma StripsCover(height: nat, maxV: nat)
    requires height > 0 && maxV > 0
    ensures var total := DivRoundUp(height, maxV * GROUPS);
      total > 0 && Times(GROUPS * (total - 1), maxV) < height <= Times(GROUPS * total, maxV)
  {
    var unit := maxV * GROUPS;
    var total := DivRoundUp(height, unit);
    RoundUpBounds(height, unit);
    MulStrict(0, total, unit);
    TimesIs(GROUPS * total, maxV);
    TimesIs(GROUPS * (total - 1), maxV);
    assert GROUPS * total * maxV == total * unit;
    assert GROUPS * (total - 1) * maxV == (total - 1) * unit;
  }

  /** When the last row comes in, the last iMCU row is the one under way. */
  lemma LastStrip(height: nat, maxV: nat, total: nat, cur: nat, group: nat, bufRow: nat)
    requires total > 0 && Times(GROUPS * (total - 1), maxV) < height == Times(GROUPS * cur + group, maxV) + bufRow
    requires group < GROUPS && bufRow <= maxV && cur < total
    ensures cur + 1 == total
  {
    TimesStep(GROUPS * cur + group, maxV);
    if cur + 1 < total {
      TimesMonotone(GROUPS * cur + group + 1, GROUPS * (total - 1), maxV);
    }
  }

  /** Where the lines given so far end. */
  lemma StripOf(height: nat, maxV: nat, total: nat, cur: nat, group: nat, bufRow: nat, toGo: nat)
    requires height <= Times(GROUPS * total, maxV) && cur < total && toGo <= height && group <= GROUPS && bufRow <= maxV
    requires toGo > 0 ==> bufRow < maxV && (group == GROUPS ==> bufRow == 0)
    requires toGo > 0 ==> height - toGo == Times(GROUPS * cur + group, maxV) + bufRow
    requires toGo == 0 ==> cur + 1 == total && group == GROUPS
    ensures InStrip(height - toGo, cur, maxV, height, group == GROUPS)
  {
    if group < GROUPS {
      TimesMonotone(GROUPS * cur, GROUPS * cur + group, maxV);
      TimesStep(GROUPS * cur + group, maxV);
      TimesMonotone(GROUPS * cur + group + 1, GROUPS * cur + GROUPS, maxV);
    }
  }

  lemma SliceOfSlice(s: seq<Row>, a: nat, b: nat, c: nat, d: nat)
    requires a <= b <= |s| && c <= d <= b - a
    ensures s[a..b][c..d] == s[a + c..a + d]
  {
    forall k | 0 <= k < d - c ensures s[a..b][c..d][k] == s[a + c..a + d][k] {
      assert s[a..b][c + k] == s[a + (c + k)];
    }
  }

  /** A full iMCU row that is not the image's end is not the last. */
  lemma NextStripStarts(height: nat, maxV: nat, total: nat, cur: nat, toGo: nat)
    requires total > 0 && height <= Times(GROUPS * total, maxV) && cur < total && toGo <= height
    requires toGo > 0 ==> height - toGo == Times(GROUPS * cur + GROUPS, maxV)
    ensures toGo > 0 ==> cur + 1 < total && height - toGo == Times(GROUPS * (cur + 1), maxV)
  {
  }
}
