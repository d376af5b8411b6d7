/** encode_mcu_huff and finish_pass_huff: whole MCUs, committed only when complete. */
module McuEncoder {
  import opened JpegTypes
  import opened EntropyStream
  import opened BitBuffer
  import opened BlockCode
  import opened HuffmanOutput
  import opened HuffmanEncoder
  import opened ScanCode
  import opened ScanRuns
  import opened ScanTables

  lemma CoderOfComponent(sc: Scan, tb: CodeTables, c: nat, lastDc: int, block: Block)
    requires sc.Valid() && tb.WellTyped() && c < sc.layout.comps
    ensures var items, dct, act := BlockItems(sc.order, block, lastDc), tb.dc[sc.dcNo[c]], tb.ac[sc.acNo[c]];
      && HuffCoder(sc, tb).bits(c, lastDc, block) == ItemsBits(dct, act, items)
      && (HuffCoder(sc, tb).ok(c, lastDc, block) <==> InRange(sc.order, block, lastDc) && HaveCodes(dct, act, items))
  {
  }

  /** Blocks b onwards of an MCU remain, after the bits seg and with predictions dc. */
  ghost predicate BlocksLeft(sc: Layout, bc: BlockCoder, dc0: seq<int>, mcu: Mcu, start: seq<bool>,
                             dc: seq<int>, seg: seq<bool>, b: nat)
    requires sc.Valid() && |dc0| == sc.comps && b <= |mcu| == |sc.membership|
  {
    && |dc| == sc.comps
    && seg + McuBits(sc, bc, dc, mcu, b) == start + McuBits(sc, bc, dc0, mcu, 0)
    && DcAfter(sc, dc, mcu, b) == DcAfter(sc, dc0, mcu, 0)
    && (McuEncodable(sc, bc, dc, mcu, b) <==> McuEncodable(sc, bc, dc0, mcu, 0))
  }

  lemma BlockStep(sc: Layout, bc: BlockCoder, dc0: seq<int>, mcu: Mcu, start: seq<bool>, dc: seq<int>, seg: seq<bool>, b: nat)
    requires sc.Valid() && |dc0| == sc.comps && b < |mcu| == |sc.membership|
    requires BlocksLeft(sc, bc, dc0, mcu, start, dc, seg, b)
    ensures var c := sc.membership[b];
      && (!bc.ok(c, dc[c], mcu[b]) ==> !McuEncodable(sc, bc, dc0, mcu, 0))
      && (bc.ok(c, dc[c], mcu[b]) ==>
            BlocksLeft(sc, bc, dc0, mcu, start, Predict(sc, dc, mcu, b), seg + bc.bits(c, dc[c], mcu[b]), b + 1))
  {
    var c := sc.membership[b];
    var x, y := bc.bits(c, dc[c], mcu[b]), McuBits(sc, bc, Predict(sc, dc, mcu, b), mcu, b + 1);
    assert seg + x + y == seg + (x + y);
  }

  lemma NoneLeft(sc: Layout, bc: BlockCoder, dc0: seq<int>, mcu: Mcu, start: seq<bool>, dc: seq<int>, seg: seq<bool>)
    requires sc.Valid() && |dc0| == sc.comps && |mcu| == |sc.membership|
    requires BlocksLeft(sc, bc, dc0, mcu, start, dc, seg, |mcu|)
    ensures seg == start + McuBits(sc, bc, dc0, mcu, 0) && dc == DcAfter(sc, dc0, mcu, 0) && McuEncodable(sc, bc, dc0, mcu, 0)
  {
    assert seg + [] == seg;
  }

  /** One of the MCU's data blocks, and its component's new prediction. */
  method EncodeNextBlock(ws: WorkingState, sc: Scan, tb: CodeTables, mcu: Mcu, b: nat, ghost dc0: seq<int>, ghost start: seq<bool>)
    returns (res: Outcome)
    requires ws.Valid() && sc.Valid() && tb.WellTyped()
    requires |dc0| == sc.layout.comps && b < |mcu| == |sc.layout.membership|
    requires BlocksLeft(sc.layout, HuffCoder(sc, tb), dc0, mcu, start, ws.lastDc, ws.seg, b)
    modifies ws, ws.dest`next, ws.dest`free, ws.dest`sent, ws.dest.buf
    ensures res.Done? ==> ws.Valid() && ws.base == old(ws.base)
    ensures res.Done? ==> BlocksLeft(sc.layout, HuffCoder(sc, tb), dc0, mcu, start, ws.lastDc, ws.seg, b + 1)
    ensures res.Failed? ==> !McuEncodable(sc.layout, HuffCoder(sc, tb), dc0, mcu, 0)
    ensures res.Suspended? ==> ws.dest.refuses
    ensures Kept(ws.dest)
  {
    hide McuBits, DcAfter, McuEncodable, HuffCoder, Pending, Stuff, BlockItems, ItemsBits;
    var c := sc.layout.membership[b];
    BlockStep(sc.layout, HuffCoder(sc, tb), dc0, mcu, start, ws.lastDc, ws.seg, b);
    CoderOfComponent(sc, tb, c, ws.lastDc[c], mcu[b]);
    res := EncodeOneBlock(ws, sc.order, mcu[b], ws.lastDc[c], tb.dc[sc.dcNo[c]], tb.ac[sc.acNo[c]]);
    if res.Done? {
      ws.lastDc := ws.lastDc[c := mcu[b][0]];
    }
  }

  /** All blocks of the MCU, one after the other. */
  method EncodeBlocks(ws: WorkingState, sc: Scan, tb: CodeTables, mcu: Mcu) returns (res: Outcome)
    requires ws.Valid() && sc.Valid() && tb.WellTyped()
    requires |ws.lastDc| == sc.layout.comps && |mcu| == |sc.layout.membership|
    modifies ws, ws.dest`next, ws.dest`free, ws.dest`sent, ws.dest.buf
    ensures var bc := HuffCoder(sc, tb);
      && (res.Done? ==> McuEncodable(sc.layout, bc, old(ws.lastDc), mcu, 0))
      && (res.Done? ==> ws.Valid() && ws.seg == old(ws.seg) + McuBits(sc.layout, bc, old(ws.lastDc), mcu, 0))
      && (res.Done? ==> ws.lastDc == DcAfter(sc.layout, old(ws.lastDc), mcu, 0) && ws.base == old(ws.base))
      && (res.Failed? ==> !McuEncodable(sc.layout, bc, old(ws.lastDc), mcu, 0))
    ensures res.Suspended? ==> ws.dest.refuses
    ensures Kept(ws.dest)
  {
    hide McuBits, DcAfter, McuEncodable, HuffCoder, Pending, Stuff;
    ghost var dc0, start := ws.lastDc, ws.seg;
    var b := 0;
    while b < |mcu|
      invariant b <= |mcu| && ws.Valid() && ws.base == old(ws.base)
      invariant BlocksLeft(sc.layout, HuffCoder(sc, tb), dc0, mcu, start, ws.lastDc, ws.seg, b)
      invariant Kept(ws.dest)
    {
      res := EncodeNextBlock(ws, sc, tb, mcu, b, dc0, start);
      if res != Done {
        return;
      }
      b := b + 1;
    }
    NoneLeft(sc.layout, HuffCoder(sc, tb), dc0, mcu, start, ws.lastDc, ws.seg);
    res := Done;
  }

  /** The state machine has taken these MCUs. */
  ghost predicate Ran(sc: Scan, tb: CodeTables, history: seq<Mcu>, state: ScanState)
    requires sc.Valid() && tb.WellTyped()
  {
    && sc.layout.Fits(history)
    && RunOk(sc.layout, HuffCoder(sc, tb), Start(sc.layout), history)
    && RunFrom(sc.layout, HuffCoder(sc, tb), Start(sc.layout), history) == state
    && state.next < 8
  }

  lemma RanStep(sc: Scan, tb: CodeTables, history: seq<Mcu>, state: ScanState, mcu: Mcu)
    requires sc.Valid() && tb.WellTyped() && Ran(sc, tb, history, state) && sc.layout.Fits([mcu])
    ensures StepOk(sc.layout, HuffCoder(sc, tb), state, mcu) ==>
      Ran(sc, tb, history + [mcu], Step(sc.layout, HuffCoder(sc, tb), state, mcu))
    ensures sc.layout.Fits(history + [mcu])
    ensures !StepOk(sc.layout, HuffCoder(sc, tb), state, mcu) ==>
      !RunOk(sc.layout, HuffCoder(sc, tb), Start(sc.layout), history + [mcu])
  {
    RunAppend(sc.layout, HuffCoder(sc, tb), Start(sc.layout), history, mcu);
  }

  lemma StepCounters(sc: Scan, bc: BlockCoder, st: ScanState, mcu: Mcu)
    requires sc.Valid() && sc.layout.Fits([mcu]) && |st.dc| == sc.layout.comps
    ensures var t, s := AfterRestart(sc.layout, st), Step(sc.layout, bc, st, mcu);
      s.toGo == (if sc.layout.restartInterval > 0 then t.toGo - 1 else t.toGo) && s.next == t.next
  {
  }

  /** The entropy encoder object, with the state saved between MCUs. */
  class Encoder {
    const sc: Scan
    const tb: CodeTables
    const dest: Destination
    var putBuffer: nat            // saved.put_buffer
    var putBits: nat              // saved.put_bits
    var lastDc: seq<int>          // saved.last_dc_val
    var restartsToGo: nat
    var nextRestart: nat

    ghost const before: seq<Byte>   // what the destination held when the pass began
    ghost var history: seq<Mcu>     // the MCUs committed so far
    ghost var state: ScanState      // the state machine after them

    /** The saved fields are those of the state. */
    ghost predicate Saved()
      reads this
    {
      && lastDc == state.dc && restartsToGo == state.toGo && nextRestart == state.next
      && putBits == |Pending(state.seg)| && Holds(putBuffer, Pending(state.seg))
    }

    ghost predicate Configured() {
      sc.Valid() && tb.WellTyped()
    }

    /** The committed bytes are those of the committed MCUs, up to the pending bits. */
    ghost predicate Valid()
      requires Configured()
      reads this, dest, dest.buf
    {
      match state
      case ScanState(base, seg, _, _, _) =>
        && Ran(sc, tb, history, state) && Saved()
        && dest.Valid() && dest.Committed() == before + base + Stuff(seg)
    }

    /** start_pass_huff, the derived tables being made. */
    constructor (sc: Scan, tb: CodeTables, dest: Destination)
      requires sc.Valid() && tb.WellTyped() && dest.Valid()
      ensures Configured() && Valid() && this.sc == sc && this.tb == tb && this.dest == dest && history == []
      ensures before == dest.Committed()
    {
      this.sc, this.tb, this.dest := sc, tb, dest;
      putBuffer, putBits, lastDc := 0, 0, ZeroDc(sc.layout.comps);
      restartsToGo, nextRestart := sc.layout.restartInterval, 0;
      before, history, state := dest.Committed(), [], Start(sc.layout);
      new;
      HoldsEmpty();
      assert before + [] + [] == before;
    }

    /** The marker that closes an interval goes out before the first MCU of the next. */
    method RestartIfNeeded(ws: WorkingState) returns (ok: bool)
      requires sc.Valid() && Saved() && state.next < 8 && |state.dc| == sc.layout.comps
      requires ws.Valid() && ws.dest == dest
      requires ws.base == before + state.base && ws.seg == state.seg && ws.lastDc == lastDc
      modifies ws, dest`next, dest`free, dest`sent, dest.buf
      ensures var s := AfterRestart(sc.layout, state);
        ok ==> ws.Valid() && ws.base == before + s.base && ws.seg == s.seg && ws.lastDc == s.dc
      ensures !ok ==> dest.refuses
      ensures Kept(dest)
    {
      ok := true;
      if sc.layout.restartInterval > 0 && restartsToGo == 0 {
        ok := ws.EmitRestart(nextRestart);
        Associate(before, state.base, Stuff(Padded(state.seg)));
        Associate(before, state.Flushed(), Marker(nextRestart));
      }
    }

    /** The marker that is due and the MCU's blocks, into the working state. */
    method EncodeInto(ws: WorkingState, mcu: Mcu) returns (res: Outcome)
      requires Configured() && Saved() && state.next < 8 && |state.dc| == sc.layout.comps && sc.layout.Fits([mcu])
      requires ws.Valid() && ws.dest == dest
      requires ws.base == before + state.base && ws.seg == state.seg && ws.lastDc == lastDc
      modifies ws, dest`next, dest`free, dest`sent, dest.buf
      ensures res.Done? ==> StepOk(sc.layout, HuffCoder(sc, tb), state, mcu)
      ensures var s := Step(sc.layout, HuffCoder(sc, tb), state, mcu);
        res.Done? ==> ws.Valid() && ws.base == before + s.base && ws.seg == s.seg && ws.lastDc == s.dc
      ensures res.Failed? ==> !StepOk(sc.layout, HuffCoder(sc, tb), state, mcu)
      ensures res.Suspended? ==> dest.refuses
      ensures Kept(dest)
    {
      hide McuBits, DcAfter, McuEncodable, HuffCoder, Stuff, Padded, Pending, Marker, ZeroDc, Holds;
      assert |[mcu][0]| == |sc.layout.membership|;
      var ok := RestartIfNeeded(ws);
      if !ok {
        return Suspended;
      }
      res := EncodeBlocks(ws, sc, tb, mcu);
    }

    /**
     encode_mcu_huff. A completed MCU advances the state machine by one step; a refused one leaves the saved
     state and the destination as they were; an error means the MCU could not be coded.
     */
    method EncodeMcu(mcu: Mcu) returns (res: Outcome)
      requires Configured() && Valid() && sc.layout.Fits([mcu])
      modifies this, dest`next, dest`free, dest`sent, dest.buf
      ensures res.Done? ==> Valid() && history == old(history) + [mcu]
      ensures res.Suspended? ==> Valid() && dest.refuses && history == old(history)
      ensures res.Suspended? ==> putBuffer == old(putBuffer) && putBits == old(putBits) && lastDc == old(lastDc)
      ensures res.Suspended? ==> restartsToGo == old(restartsToGo) && nextRestart == old(nextRestart)
      ensures res.Suspended? ==> dest.next == old(dest.next) && dest.free == old(dest.free)
      ensures res.Suspended? ==> dest.Committed() == old(dest.Committed())
      ensures sc.layout.Fits(old(history) + [mcu])
      ensures res.Failed? ==> !RunOk(sc.layout, HuffCoder(sc, tb), Start(sc.layout), old(history) + [mcu])
    {
      hide Step, StepOk, AfterRestart, RunFrom, RunOk, HuffCoder, Stuff, Pending, Holds;
      RanStep(sc, tb, history, state, mcu);
      var ws := new WorkingState(dest, putBuffer, putBits, lastDc, before + state.base, state.seg);
      res := EncodeInto(ws, mcu);
      if res != Done {
        return;
      }
      StepCounters(sc, HuffCoder(sc, tb), state, mcu);
      Commit(ws, Step(sc.layout, HuffCoder(sc, tb), state, mcu));
      history := history + [mcu];
    }

    /** What the MCU has changed becomes the saved state. */
    method Commit(ws: WorkingState, ghost s: ScanState)
      requires ws.Valid() && ws.dest == dest && Saved()
      requires ws.base == before + s.base && ws.seg == s.seg && ws.lastDc == s.dc
      requires var t := AfterRestart(sc.layout, state);
        s.toGo == (if sc.layout.restartInterval > 0 then t.toGo - 1 else t.toGo) && s.next == t.next
      modifies this, dest`next, dest`free, dest`sent
      ensures Saved() && state == s && history == old(history)
      ensures dest.Valid() && dest.Committed() == before + s.base + Stuff(s.seg)
    {
      dest.next, dest.free := ws.next, ws.free;
      putBuffer, putBits, lastDc := ws.putBuffer, ws.putBits, ws.lastDc;
      if sc.layout.restartInterval > 0 {
        if restartsToGo == 0 {
          restartsToGo := sc.layout.restartInterval;
          nextRestart := (nextRestart + 1) % 8;
        }
        restartsToGo := restartsToGo - 1;
      }
      state := s;
    }

    /** finish_pass_huff: with the last bits flushed, the destination holds the whole coded scan. */
    method FinishPass() returns (ok: bool)
      requires Configured() && Valid()
      modifies this, dest`next, dest`free, dest`sent, dest.buf
      ensures ok ==> dest.Valid() && dest.Committed() == before + ScanBytes(sc.layout, HuffCoder(sc, tb), old(history), 0)
      ensures ok ==> ScanEncodable(sc.layout, HuffCoder(sc, tb), old(history))
      ensures !ok ==> dest.refuses
    {
      hide ScanBytes, RunFrom, HuffCoder, Padded, Pending, ScanEncodable;
      var ws := new WorkingState(dest, putBuffer, putBits, lastDc, before + state.base, state.seg);
      ok := ws.FlushBits();
      if !ok {
        return;
      }
      dest.next, dest.free := ws.next, ws.free;
      putBuffer, putBits, lastDc := ws.putBuffer, ws.putBits, ws.lastDc;
      WholeRun(sc.layout, HuffCoder(sc, tb), history);
      Associate(before, state.base, Stuff(Padded(state.seg)));
      assert ws.base + [] == ws.base;
    }
  }
}
