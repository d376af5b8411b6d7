/** The entropy coder as a state machine that takes one MCU at a time, against the scan it has to produce. */
module ScanRuns {
  import opened JpegTypes
  import opened EntropyStream
  import opened ScanCode

  /** What the coder carries from one MCU to the next. */
  datatype ScanState = ScanState(
    base: seq<Byte>,    // the bytes of the finished restart intervals and their markers
    seg: seq<bool>,     // the bits of the interval under way
    dc: seq<int>,       // last_dc_val
    toGo: nat,          // restarts_to_go
    next: nat)          // next_restart_num
  {
    /** The bytes once the pending bits are flushed. */
    function Flushed(): seq<Byte> {
      base + Stuff(Padded(seg))
    }
  }

  function Start(sc: Layout): ScanState {
    ScanState([], [], ZeroDc(sc.comps), sc.restartInterval, 0)
  }

  /** The state after the restart marker due before the next MCU, if one is due. */
  function AfterRestart(sc: Layout, st: ScanState): (r: ScanState)
    ensures sc.restartInterval > 0 ==> r.toGo > 0
  {
    if sc.restartInterval > 0 && st.toGo == 0 then
      ScanState(st.Flushed() + Marker(st.next), [], ZeroDc(sc.comps), sc.restartInterval, (st.next + 1) % 8)
    else st
  }

  ghost function Step(sc: Layout, bc: BlockCoder, st: ScanState, mcu: Mcu): (r: ScanState)
    requires sc.Fits([mcu]) && |st.dc| == sc.comps
    ensures |r.dc| == sc.comps
  {
    assert |[mcu][0]| == |sc.membership|;
    var s := AfterRestart(sc, st);
    s.(seg := s.seg + McuBits(sc, bc, s.dc, mcu, 0),
       dc := DcAfter(sc, s.dc, mcu, 0),
       toGo := if sc.restartInterval > 0 then s.toGo - 1 else s.toGo)
  }

  ghost predicate StepOk(sc: Layout, bc: BlockCoder, st: ScanState, mcu: Mcu)
    requires sc.Fits([mcu]) && |st.dc| == sc.comps
  {
    assert |[mcu][0]| == |sc.membership|;
    McuEncodable(sc, bc, AfterRestart(sc, st).dc, mcu, 0)
  }

  ghost function RunFrom(sc: Layout, bc: BlockCoder, st: ScanState, mcus: seq<Mcu>): (r: ScanState)
    requires sc.Fits(mcus) && |st.dc| == sc.comps
    ensures |r.dc| == sc.comps
    decreases |mcus|
  {
    if mcus == [] then st
    else
      assert |mcus[0]| == |sc.membership|;
      RunFrom(sc, bc, Step(sc, bc, st, mcus[0]), mcus[1..])
  }

  ghost predicate RunOk(sc: Layout, bc: BlockCoder, st: ScanState, mcus: seq<Mcu>)
    requires sc.Fits(mcus) && |st.dc| == sc.comps
    decreases |mcus|
  {
    mcus == [] ||
    (assert |mcus[0]| == |sc.membership|;
     StepOk(sc, bc, st, mcus[0]) && RunOk(sc, bc, Step(sc, bc, st, mcus[0]), mcus[1..]))
  }

  lemma {:induction false} RunConcat(sc: Layout, bc: BlockCoder, st: ScanState, a: seq<Mcu>, b: seq<Mcu>)
    requires sc.Fits(a) && sc.Fits(b) && |st.dc| == sc.comps
    ensures sc.Fits(a + b)
    ensures RunFrom(sc, bc, st, a + b) == RunFrom(sc, bc, RunFrom(sc, bc, st, a), b)
    ensures RunOk(sc, bc, st, a + b) <==> RunOk(sc, bc, st, a) && RunOk(sc, bc, RunFrom(sc, bc, st, a), b)
    decreases |a|
  {
    if a == [] {
      assert a + b == b;
    } else {
      assert |a[0]| == |sc.membership|;
      assert (a + b)[0] == a[0] && (a + b)[1..] == a[1..] + b;
      RunConcat(sc, bc, Step(sc, bc, st, a[0]), a[1..], b);
    }
  }

  /** One more MCU is one more step. */
  lemma RunAppend(sc: Layout, bc: BlockCoder, st: ScanState, mcus: seq<Mcu>, mcu: Mcu)
    requires sc.Fits(mcus) && sc.Fits([mcu]) && |st.dc| == sc.comps
    ensures sc.Fits(mcus + [mcu])
    ensures RunFrom(sc, bc, st, mcus + [mcu]) == Step(sc, bc, RunFrom(sc, bc, st, mcus), mcu)
    ensures RunOk(sc, bc, st, mcus + [mcu]) <==> RunOk(sc, bc, st, mcus) && StepOk(sc, bc, RunFrom(sc, bc, st, mcus), mcu)
  {
    RunConcat(sc, bc, st, mcus, [mcu]);
    var mid := RunFrom(sc, bc, st, mcus);
    assert [mcu][0] == mcu && [mcu][1..] == [];
    assert RunFrom(sc, bc, mid, [mcu]) == Step(sc, bc, mid, mcu);
    assert RunOk(sc, bc, mid, [mcu]) <==> StepOk(sc, bc, mid, mcu);
  }

  /** What can be coded throughout can be coded up to any MCU. */
  lemma PartOk(sc: Layout, bc: BlockCoder, st: ScanState, mcus: seq<Mcu>, k: nat)
    requires sc.Fits(mcus) && |st.dc| == sc.comps && RunOk(sc, bc, st, mcus) && k <= |mcus|
    ensures sc.Fits(mcus[..k]) && RunOk(sc, bc, st, mcus[..k])
  {
    assert mcus[..k] + mcus[k..] == mcus;
    RunConcat(sc, bc, st, mcus[..k], mcus[k..]);
  }

  /** No restart falls inside the interval: the bits just accumulate. */
  lemma {:induction false} WithinInterval(sc: Layout, bc: BlockCoder, st: ScanState, mcus: seq<Mcu>)
    requires sc.Fits(mcus) && |st.dc| == sc.comps
    requires sc.restartInterval > 0 ==> |mcus| <= st.toGo
    ensures var r := RunFrom(sc, bc, st, mcus);
      && r.base == st.base && r.next == st.next
      && r.seg == st.seg + McusBits(sc, bc, st.dc, mcus)
      && (sc.restartInterval > 0 ==> r.toGo == st.toGo - |mcus|)
    ensures RunOk(sc, bc, st, mcus) <==> McusEncodable(sc, bc, st.dc, mcus)
    decreases |mcus|
  {
    if mcus == [] {
      assert st.seg + [] == st.seg;
    } else {
      assert |mcus[0]| == |sc.membership|;
      var s := Step(sc, bc, st, mcus[0]);
      WithinInterval(sc, bc, s, mcus[1..]);
      var x, y := McuBits(sc, bc, st.dc, mcus[0], 0), McusBits(sc, bc, s.dc, mcus[1..]);
      assert st.seg + x + y == st.seg + (x + y);
    }
  }

  /** A restart that is due makes no difference before a further MCU. */
  lemma RestartDue(sc: Layout, bc: BlockCoder, st: ScanState, mcus: seq<Mcu>)
    requires sc.Fits(mcus) && |st.dc| == sc.comps && mcus != []
    ensures RunFrom(sc, bc, st, mcus) == RunFrom(sc, bc, AfterRestart(sc, st), mcus)
    ensures RunOk(sc, bc, st, mcus) <==> RunOk(sc, bc, AfterRestart(sc, st), mcus)
  {
    var again := AfterRestart(sc, st);
    assert |mcus[0]| == |sc.membership|;
    assert AfterRestart(sc, again) == again;
    assert Step(sc, bc, st, mcus[0]) == Step(sc, bc, again, mcus[0]);
  }

  ghost predicate AtIntervalStart(sc: Layout, st: ScanState, k: nat) {
    st == ScanState(st.base, [], ZeroDc(sc.comps), sc.restartInterval, k % 8)
  }

  /** A full interval, then the marker: the coder stands at the start of the next interval. */
  lemma NextInterval(sc: Layout, bc: BlockCoder, st: ScanState, now: seq<Mcu>, k: nat)
    requires sc.Fits(now) && AtIntervalStart(sc, st, k) && |now| == sc.restartInterval > 0
    ensures var again := AfterRestart(sc, RunFrom(sc, bc, st, now));
      AtIntervalStart(sc, again, k + 1) && again.base == st.base + SegmentBytes(sc, bc, now) + Marker(k)
    ensures RunOk(sc, bc, st, now) <==> McusEncodable(sc, bc, ZeroDc(sc.comps), now)
  {
    WithinInterval(sc, bc, st, now);
    assert [] + McusBits(sc, bc, st.dc, now) == McusBits(sc, bc, st.dc, now);
    assert (k % 8 + 1) % 8 == (k + 1) % 8;
  }

  lemma LastInterval(sc: Layout, bc: BlockCoder, st: ScanState, mcus: seq<Mcu>, k: nat)
    requires sc.Fits(mcus) && AtIntervalStart(sc, st, k) && FirstInterval(sc.restartInterval, |mcus|) == |mcus|
    ensures RunFrom(sc, bc, st, mcus).Flushed() == st.base + ScanBytes(sc, bc, mcus, k)
    ensures RunOk(sc, bc, st, mcus) <==> ScanEncodable(sc, bc, mcus)
  {
    assert mcus[..|mcus|] == mcus;
    WithinInterval(sc, bc, st, mcus);
    assert [] + McusBits(sc, bc, st.dc, mcus) == McusBits(sc, bc, st.dc, mcus);
  }

  /** From the start of interval k, stepping and then flushing yields exactly the coded scan. */
  lemma {:induction false} RunIsScan(sc: Layout, bc: BlockCoder, st: ScanState, mcus: seq<Mcu>, k: nat)
    requires sc.Fits(mcus) && AtIntervalStart(sc, st, k)
    ensures RunFrom(sc, bc, st, mcus).Flushed() == st.base + ScanBytes(sc, bc, mcus, k)
    ensures RunOk(sc, bc, st, mcus) <==> ScanEncodable(sc, bc, mcus)
    decreases |mcus|
  {
    var m := FirstInterval(sc.restartInterval, |mcus|);
    if m == |mcus| {
      LastInterval(sc, bc, st, mcus, k);
    } else {
      var now, later := mcus[..m], mcus[m..];
      assert now + later == mcus;
      RunConcat(sc, bc, st, now, later);
      NextInterval(sc, bc, st, now, k);
      var mid := RunFrom(sc, bc, st, now);
      RestartDue(sc, bc, mid, later);
      RunIsScan(sc, bc, AfterRestart(sc, mid), later, k + 1);
      var x, y, z := SegmentBytes(sc, bc, now), Marker(k), ScanBytes(sc, bc, later, k + 1);
      assert st.base + x + y + z == st.base + (x + (y + z));
    }
  }

  /** A whole run, from the start of the pass. */
  lemma WholeRun(sc: Layout, bc: BlockCoder, mcus: seq<Mcu>)
    requires sc.Fits(mcus)
    ensures RunFrom(sc, bc, Start(sc), mcus).Flushed() == ScanBytes(sc, bc, mcus, 0)
    ensures RunOk(sc, bc, Start(sc), mcus) <==> ScanEncodable(sc, bc, mcus)
  {
    RunIsScan(sc, bc, Start(sc), mcus, 0);
    assert [] + ScanBytes(sc, bc, mcus, 0) == ScanBytes(sc, bc, mcus, 0);
  }
}
