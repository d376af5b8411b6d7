/** encode_mcu_gather over a whole pass: the counts are those of every block's symbols. */
module GatherPass {
  import opened JpegTypes
  import opened HuffmanTree
  import opened BlockCode
  import opened ScanCode
  import opened ScanTables
  import opened ScanVisits
  import opened Statistics

  ghost predicate VisitInRange(sc: Scan, v: Visit)
    requires sc.Valid()
  {
    InRange(sc.order, v.block, v.lastDc)
  }

  ghost predicate AllInRange(sc: Scan, visits: seq<Visit>)
    requires sc.Valid()
  {
    forall v :: v in visits ==> VisitInRange(sc, v)
  }

  function NoCounts(): (f: seq<nat>)
    ensures |f| == SYMBOLS
  {
    seq(SYMBOLS, _ => 0)
  }

  /** Counts of table t of a class, after these visits from f. */
  ghost predicate CountedFrom(sc: Scan, f: seq<seq<nat>>, visits: seq<Visit>, dc: bool, g: seq<seq<nat>>)
    requires sc.Valid()
  {
    |f| == |g| == NUM_HUFF_TBLS && forall t :: 0 <= t < NUM_HUFF_TBLS ==> g[t] == TallyVisits(sc, f[t], visits, dc, t)
  }

  lemma CountedTwice(sc: Scan, f: seq<seq<nat>>, a: seq<Visit>, g: seq<seq<nat>>, b: seq<Visit>, h: seq<seq<nat>>, dc: bool)
    requires sc.Valid() && CountedFrom(sc, f, a, dc, g) && CountedFrom(sc, g, b, dc, h)
    ensures CountedFrom(sc, f, a + b, dc, h)
  {
    forall t | 0 <= t < NUM_HUFF_TBLS ensures h[t] == TallyVisits(sc, f[t], a + b, dc, t) {
      TallyVisitsConcat(sc, f[t], a, b, dc, t);
    }
  }

  ghost predicate Separate(dcCounts: seq<array<nat>>, acCounts: seq<array<nat>>) {
    && |dcCounts| == |acCounts| == NUM_HUFF_TBLS
    && (forall t :: 0 <= t < NUM_HUFF_TBLS ==> dcCounts[t].Length == SYMBOLS && acCounts[t].Length == SYMBOLS)
    && (forall t, u :: 0 <= t < u < NUM_HUFF_TBLS ==> dcCounts[t] != dcCounts[u] && acCounts[t] != acCounts[u])
    && (forall t, u :: 0 <= t < NUM_HUFF_TBLS && 0 <= u < NUM_HUFF_TBLS ==> dcCounts[t] != acCounts[u])
  }

  ghost function Snapshot(counts: seq<array<nat>>): (g: seq<seq<nat>>)
    reads counts
    ensures |g| == |counts| && forall t :: 0 <= t < |counts| ==> g[t] == counts[t][..]
  {
    seq(|counts|, t requires 0 <= t < |counts| reads counts => counts[t][..])
  }

  /** The blocks of an MCU from b on are still to be counted. */
  ghost predicate McuLeft(sc: Scan, dc0: seq<int>, mcu: Mcu, dc: seq<int>, b: nat, done: seq<Visit>)
    requires sc.Valid() && |dc0| == sc.layout.comps && b <= |mcu| == |sc.layout.membership|
  {
    && |dc| == sc.layout.comps
    && done + McuVisits(sc.layout, dc, mcu, b) == McuVisits(sc.layout, dc0, mcu, 0)
    && DcAfter(sc.layout, dc, mcu, b) == DcAfter(sc.layout, dc0, mcu, 0)
  }

  lemma McuLeftStep(sc: Scan, dc0: seq<int>, mcu: Mcu, dc: seq<int>, b: nat, done: seq<Visit>, v: Visit)
    requires sc.Valid() && |dc0| == sc.layout.comps && b < |mcu| == |sc.layout.membership|
    requires McuLeft(sc, dc0, mcu, dc, b, done)
    requires v == Visit(sc.layout.membership[b], dc[sc.layout.membership[b]], mcu[b])
    ensures McuLeft(sc, dc0, mcu, Predict(sc.layout, dc, mcu, b), b + 1, done + [v])
    ensures v in McuVisits(sc.layout, dc0, mcu, 0)
  {
    var later := McuVisits(sc.layout, Predict(sc.layout, dc, mcu, b), mcu, b + 1);
    assert done + ([v] + later) == done + [v] + later;
    assert v in done + [v] + later;
  }

  /** Four zeroed statistics tables. */
  method NewCounts() returns (counts: seq<array<nat>>)
    ensures |counts| == NUM_HUFF_TBLS && fresh(counts)
    ensures forall t :: 0 <= t < NUM_HUFF_TBLS ==> counts[t].Length == SYMBOLS
    ensures forall t, u :: 0 <= t < u < NUM_HUFF_TBLS ==> counts[t] != counts[u]
    ensures Snapshot(counts) == seq(NUM_HUFF_TBLS, _ => NoCounts())
  {
    counts := [];
    while |counts| < NUM_HUFF_TBLS
      invariant |counts| <= NUM_HUFF_TBLS && fresh(counts)
      invariant forall t :: 0 <= t < |counts| ==> counts[t].Length == SYMBOLS
      invariant forall t, u :: 0 <= t < u < |counts| ==> counts[t] != counts[u]
      invariant forall t :: 0 <= t < |counts| ==> counts[t][..] == NoCounts()
    {
      var c := new nat[SYMBOLS](_ => 0);
      assert c[..] == NoCounts();
      counts := counts + [c];
    }
  }

  /** The counting entropy encoder of one scan. */
  class Gatherer {
    const sc: Scan
    const dcCounts: seq<array<nat>>   // dc_count_ptrs
    const acCounts: seq<array<nat>>   // ac_count_ptrs
    var lastDc: seq<int>
    var restartsToGo: nat
    ghost var history: seq<Mcu>

    ghost function Coded(): seq<Visit>
      requires sc.layout.Fits(history)
      reads this
    {
      Visits(sc.layout, StartPace(sc.layout), history)
    }

    /** The counts are exactly those of the MCUs so far, all of them in range. */
    ghost predicate Valid()
      reads this, dcCounts, acCounts
    {
      && sc.Valid() && sc.layout.Fits(history) && Separate(dcCounts, acCounts)
      && Pace(lastDc, restartsToGo) == AfterPace(sc.layout, StartPace(sc.layout), history)
      && AllInRange(sc, Coded())
      && CountedFrom(sc, seq(NUM_HUFF_TBLS, _ => NoCounts()), Coded(), true, Snapshot(dcCounts))
      && CountedFrom(sc, seq(NUM_HUFF_TBLS, _ => NoCounts()), Coded(), false, Snapshot(acCounts))
    }

    /** start_pass_huff with gather_statistics. */
    constructor (sc: Scan)
      requires sc.Valid()
      ensures Valid() && this.sc == sc && history == []
      ensures fresh(dcCounts) && fresh(acCounts)
    {
      this.sc := sc;
      lastDc, restartsToGo, history := ZeroDc(sc.layout.comps), sc.layout.restartInterval, [];
      var d := NewCounts();
      var a := NewCounts();
      dcCounts, acCounts := d, a;
    }

    /** Counts one block of component c. */
    method CountVisit(c: nat, lastDcOfC: int, block: Block) returns (ok: bool)
      requires sc.Valid() && c < sc.layout.comps && Separate(dcCounts, acCounts)
      modifies dcCounts, acCounts
      ensures ok <==> InRange(sc.order, block, lastDcOfC)
      ensures ok ==> CountedFrom(sc, old(Snapshot(dcCounts)), [Visit(c, lastDcOfC, block)], true, Snapshot(dcCounts))
      ensures ok ==> CountedFrom(sc, old(Snapshot(acCounts)), [Visit(c, lastDcOfC, block)], false, Snapshot(acCounts))
    {
      ok := HtestOneBlock(sc.order, block, lastDcOfC, dcCounts[sc.dcNo[c]], acCounts[sc.acNo[c]]);
      ghost var v := Visit(c, lastDcOfC, block);
      if ok {
        forall t | 0 <= t < NUM_HUFF_TBLS
          ensures dcCounts[t][..] == TallyVisits(sc, old(dcCounts[t][..]), [v], true, t)
        {
          OneVisit(sc, old(dcCounts[t][..]), v, true, t);
          assert t != sc.dcNo[c] ==> dcCounts[t][..] == old(dcCounts[t][..]);
        }
        forall t | 0 <= t < NUM_HUFF_TBLS
          ensures acCounts[t][..] == TallyVisits(sc, old(acCounts[t][..]), [v], false, t)
        {
          OneVisit(sc, old(acCounts[t][..]), v, false, t);
          assert t != sc.acNo[c] ==> acCounts[t][..] == old(acCounts[t][..]);
        }
      }
    }

    /** Where a restart is due the predictions start over; the MCU to come is counted off the interval. */
    method Resync()
      requires sc.Valid()
      modifies this`lastDc, this`restartsToGo
      ensures var p := Resynced(sc.layout, Pace(old(lastDc), old(restartsToGo)));
        && lastDc == p.dc
        && restartsToGo == if sc.layout.restartInterval > 0 then p.toGo - 1 else p.toGo
    {
      if sc.layout.restartInterval > 0 {
        if restartsToGo == 0 {
          lastDc := ZeroDc(sc.layout.comps);
          restartsToGo := sc.layout.restartInterval;
        }
        restartsToGo := restartsToGo - 1;
      }
    }

    /** Where the counting of an MCU's blocks stands. */
    ghost predicate Underway(mcu: Mcu, b: nat, dc0: seq<int>, d0: seq<seq<nat>>, a0: seq<seq<nat>>, done: seq<Visit>)
      requires sc.Valid() && |dc0| == sc.layout.comps && b <= |mcu| == |sc.layout.membership|
      reads this, dcCounts, acCounts
    {
      && McuLeft(sc, dc0, mcu, lastDc, b, done) && AllInRange(sc, done)
      && CountedFrom(sc, d0, done, true, Snapshot(dcCounts))
      && CountedFrom(sc, a0, done, false, Snapshot(acCounts))
    }

    method CountNextBlock(mcu: Mcu, b: nat, ghost dc0: seq<int>, ghost d0: seq<seq<nat>>, ghost a0: seq<seq<nat>>,
                          ghost done: seq<Visit>) returns (ok: bool, ghost v: Visit)
      requires sc.Valid() && Separate(dcCounts, acCounts)
      requires |dc0| == sc.layout.comps && b < |mcu| == |sc.layout.membership| && Underway(mcu, b, dc0, d0, a0, done)
      modifies this`lastDc, dcCounts, acCounts
      ensures ok ==> Underway(mcu, b + 1, dc0, d0, a0, done + [v])
      ensures !ok ==> !AllInRange(sc, McuVisits(sc.layout, dc0, mcu, 0))
    {
      var c := sc.layout.membership[b];
      v := Visit(c, lastDc[c], mcu[b]);
      ghost var d, a := Snapshot(dcCounts), Snapshot(acCounts);
      McuLeftStep(sc, dc0, mcu, lastDc, b, done, v);
      ok := CountVisit(c, lastDc[c], mcu[b]);
      if !ok {
        assert !VisitInRange(sc, v);
        return;
      }
      CountedTwice(sc, d0, done, d, [v], Snapshot(dcCounts), true);
      CountedTwice(sc, a0, done, a, [v], Snapshot(acCounts), false);
      lastDc := lastDc[c := mcu[b][0]];
    }

    /** Counts the blocks of one MCU. */
    method CountBlocks(mcu: Mcu) returns (ok: bool)
      requires sc.Valid() && Separate(dcCounts, acCounts)
      requires |lastDc| == sc.layout.comps && |mcu| == |sc.layout.membership|
      modifies this`lastDc, dcCounts, acCounts
      ensures var visits := McuVisits(sc.layout, old(lastDc), mcu, 0);
        && (ok <==> AllInRange(sc, visits))
        && (ok ==> CountedFrom(sc, old(Snapshot(dcCounts)), visits, true, Snapshot(dcCounts)))
        && (ok ==> CountedFrom(sc, old(Snapshot(acCounts)), visits, false, Snapshot(acCounts)))
        && (ok ==> lastDc == DcAfter(sc.layout, old(lastDc), mcu, 0))
    {
      ghost var dc0, done := lastDc, [];
      ghost var d0, a0 := Snapshot(dcCounts), Snapshot(acCounts);
      var b := 0;
      assert [] + McuVisits(sc.layout, dc0, mcu, 0) == McuVisits(sc.layout, dc0, mcu, 0);
      while b < |mcu|
        invariant b <= |mcu| && Underway(mcu, b, dc0, d0, a0, done)
      {
        ghost var v;
        ok, v := CountNextBlock(mcu, b, dc0, d0, a0, done);
        if !ok {
          return;
        }
        done := done + [v];
        b := b + 1;
      }
      assert done + [] == done;
      ok := true;
    }

    /** encode_mcu_gather: counts the MCU, or fails on a coefficient out of range. */
    method EncodeMcuGather(mcu: Mcu) returns (ok: bool)
      requires Valid() && |mcu| == |sc.layout.membership|
      modifies this, dcCounts, acCounts
      ensures ok ==> Valid() && history == old(history) + [mcu]
      ensures sc.layout.Fits(old(history) + [mcu])
      ensures ok <==> AllInRange(sc, Visits(sc.layout, StartPace(sc.layout), old(history) + [mcu]))
    {
      ghost var visits := Coded();
      ghost var d, a := Snapshot(dcCounts), Snapshot(acCounts);
      VisitsAppend(sc.layout, StartPace(sc.layout), history, mcu);
      Resync();
      ghost var more := McuVisits(sc.layout, lastDc, mcu, 0);
      ok := CountBlocks(mcu);
      if ok {
        history := history + [mcu];
        CountedTwice(sc, seq(NUM_HUFF_TBLS, _ => NoCounts()), visits, d, more, Snapshot(dcCounts), true);
        CountedTwice(sc, seq(NUM_HUFF_TBLS, _ => NoCounts()), visits, a, more, Snapshot(acCounts), false);
      }
    }
  }

  lemma OneVisit(sc: Scan, f: seq<nat>, v: Visit, dc: bool, t: nat)
    requires sc.Valid()
    ensures TallyVisits(sc, f, [v], dc, t)
      == if UsesTable(sc, dc, t, v.comp) then Tally(f, BlockItems(sc.order, v.block, v.lastDc), dc) else f
  {
    assert [v][1..] == [];
  }
}
