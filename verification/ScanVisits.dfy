/** The blocks of a scan in coding order, each with the DC prediction in force: what both entropy passes must agree on. */
module ScanVisits {
  import opened JpegTypes
  import opened ScanCode
  import opened ScanRuns

  /** One block as the entropy coder meets it. */
  datatype Visit = Visit(comp: nat, lastDc: int, block: Block)

  /** Predictions and the restart counter between MCUs. */
  datatype Pace = Pace(dc: seq<int>, toGo: nat)

  function StartPace(sc: Layout): Pace {
    Pace(ZeroDc(sc.comps), sc.restartInterval)
  }

  /** Predictions are reset when a restart is due. */
  function Resynced(sc: Layout, p: Pace): (r: Pace)
    ensures sc.restartInterval > 0 ==> r.toGo > 0
  {
    if sc.restartInterval > 0 && p.toGo == 0 then StartPace(sc) else p
  }

  ghost function McuVisits(sc: Layout, dc: seq<int>, mcu: Mcu, b: nat): seq<Visit>
    requires sc.Valid() && |dc| == sc.comps && b <= |mcu| == |sc.membership|
    decreases |mcu| - b
  {
    if b == |mcu| then []
    else [Visit(sc.membership[b], dc[sc.membership[b]], mcu[b])] + McuVisits(sc, Predict(sc, dc, mcu, b), mcu, b + 1)
  }

  ghost function NextPace(sc: Layout, p: Pace, mcu: Mcu): (r: Pace)
    requires sc.Valid() && |p.dc| == sc.comps && |mcu| == |sc.membership|
    ensures |r.dc| == sc.comps
  {
    var q := Resynced(sc, p);
    Pace(DcAfter(sc, q.dc, mcu, 0), if sc.restartInterval > 0 then q.toGo - 1 else q.toGo)
  }

  ghost function Visits(sc: Layout, p: Pace, mcus: seq<Mcu>): seq<Visit>
    requires sc.Fits(mcus) && |p.dc| == sc.comps
    decreases |mcus|
  {
    if mcus == [] then []
    else
      assert |mcus[0]| == |sc.membership|;
      McuVisits(sc, Resynced(sc, p).dc, mcus[0], 0) + Visits(sc, NextPace(sc, p, mcus[0]), mcus[1..])
  }

  ghost function AfterPace(sc: Layout, p: Pace, mcus: seq<Mcu>): (r: Pace)
    requires sc.Fits(mcus) && |p.dc| == sc.comps
    ensures |r.dc| == sc.comps
    decreases |mcus|
  {
    if mcus == [] then p
    else
      assert |mcus[0]| == |sc.membership|;
      AfterPace(sc, NextPace(sc, p, mcus[0]), mcus[1..])
  }

  lemma {:induction false} VisitsAppend(sc: Layout, p: Pace, mcus: seq<Mcu>, mcu: Mcu)
    requires sc.Fits(mcus) && |p.dc| == sc.comps && |mcu| == |sc.membership|
    ensures sc.Fits(mcus + [mcu])
    ensures var q := AfterPace(sc, p, mcus);
      && Visits(sc, p, mcus + [mcu]) == Visits(sc, p, mcus) + McuVisits(sc, Resynced(sc, q).dc, mcu, 0)
      && AfterPace(sc, p, mcus + [mcu]) == NextPace(sc, q, mcu)
    decreases |mcus|
  {
    var more := mcus + [mcu];
    if mcus == [] {
      assert more[0] == mcu && more[1..] == [];
      assert McuVisits(sc, Resynced(sc, p).dc, mcu, 0) + [] == McuVisits(sc, Resynced(sc, p).dc, mcu, 0);
    } else {
      assert |mcus[0]| == |sc.membership|;
      assert more[0] == mcus[0] && more[1..] == mcus[1..] + [mcu];
      VisitsAppend(sc, NextPace(sc, p, mcus[0]), mcus[1..], mcu);
    }
  }

  // ----- The predictions -----

  /** The DC value of the last of these blocks that belongs to the component, 0 if none does. */
  function LatestDc(visits: seq<Visit>, comp: nat): int {
    if visits == [] then 0
    else if visits[|visits| - 1].comp == comp then visits[|visits| - 1].block[0]
    else LatestDc(visits[..|visits| - 1], comp)
  }

  /** Each block is predicted from the last one of its component; what went before this list is given. */
  ghost predicate Predicted(before: seq<Visit>, visits: seq<Visit>) {
    forall k :: 0 <= k < |visits| ==> visits[k].lastDc == LatestDc(before + visits[..k], visits[k].comp)
  }

  ghost predicate Holds(dc: seq<int>, visits: seq<Visit>) {
    forall c :: 0 <= c < |dc| ==> dc[c] == LatestDc(visits, c)
  }

  lemma PredictedNext(before: seq<Visit>, v: Visit, later: seq<Visit>)
    requires v.lastDc == LatestDc(before, v.comp) && Predicted(before + [v], later)
    ensures Predicted(before, [v] + later)
  {
    var all := [v] + later;
    forall k | 0 <= k < |all| ensures all[k].lastDc == LatestDc(before + all[..k], all[k].comp) {
      if k == 0 {
        assert before + all[..0] == before;
      } else {
        assert before + all[..k] == before + [v] + later[..k - 1];
      }
    }
  }

  lemma TakenFrom(before: seq<Visit>, a: seq<Visit>, b: seq<Visit>, k: nat)
    requires k < |a + b|
    ensures k < |a| ==> (a + b)[k] == a[k] && before + (a + b)[..k] == before + a[..k]
    ensures k >= |a| ==> (a + b)[k] == b[k - |a|] && before + (a + b)[..k] == before + a + b[..k - |a|]
  {
  }

  lemma PredictedJoin(before: seq<Visit>, a: seq<Visit>, b: seq<Visit>)
    requires Predicted(before, a) && Predicted(before + a, b)
    ensures Predicted(before, a + b)
  {
    hide LatestDc;
    forall k | 0 <= k < |a + b| ensures (a + b)[k].lastDc == LatestDc(before + (a + b)[..k], (a + b)[k].comp) {
      TakenFrom(before, a, b, k);
    }
  }

  lemma {:induction false} McuPredicted(sc: Layout, dc: seq<int>, mcu: Mcu, b: nat, before: seq<Visit>)
    requires sc.Valid() && |dc| == sc.comps && b <= |mcu| == |sc.membership| && Holds(dc, before)
    ensures Predicted(before, McuVisits(sc, dc, mcu, b)) && Holds(DcAfter(sc, dc, mcu, b), before + McuVisits(sc, dc, mcu, b))
    decreases |mcu| - b
  {
    hide LatestDc;
    if b == |mcu| {
      assert before + [] == before;
    } else {
      var v := Visit(sc.membership[b], dc[sc.membership[b]], mcu[b]);
      var later := McuVisits(sc, Predict(sc, dc, mcu, b), mcu, b + 1);
      LatestAfter(sc, dc, mcu, b, before);
      McuPredicted(sc, Predict(sc, dc, mcu, b), mcu, b + 1, before + [v]);
      PredictedNext(before, v, later);
      assert before + ([v] + later) == before + [v] + later;
    }
  }

  lemma LatestAfter(sc: Layout, dc: seq<int>, mcu: Mcu, b: nat, before: seq<Visit>)
    requires sc.Valid() && |dc| == sc.comps && b < |mcu| == |sc.membership| && Holds(dc, before)
    ensures Holds(Predict(sc, dc, mcu, b), before + [Visit(sc.membership[b], dc[sc.membership[b]], mcu[b])])
  {
    var all := before + [Visit(sc.membership[b], dc[sc.membership[b]], mcu[b])];
    assert all[..|all| - 1] == before;
  }

  lemma {:induction false} RunPredicted(sc: Layout, p: Pace, mcus: seq<Mcu>, before: seq<Visit>)
    requires sc.Fits(mcus) && |p.dc| == sc.comps && Holds(p.dc, before)
    requires sc.restartInterval > 0 ==> |mcus| <= p.toGo
    ensures Predicted(before, Visits(sc, p, mcus))
    decreases |mcus|
  {
    hide LatestDc, Predicted, Holds, McuVisits, DcAfter;
    if mcus == [] {
      NonePredicted(before);
    } else {
      assert |mcus[0]| == |sc.membership|;
      var first := McuVisits(sc, p.dc, mcus[0], 0);
      McuPredicted(sc, p.dc, mcus[0], 0, before);
      RunPredicted(sc, NextPace(sc, p, mcus[0]), mcus[1..], before + first);
      PredictedJoin(before, first, Visits(sc, NextPace(sc, p, mcus[0]), mcus[1..]));
    }
  }

  lemma NonePredicted(before: seq<Visit>)
    ensures Predicted(before, [])
  {
  }

  /** Within a restart interval each block is predicted from the last block of its component, the first ones from 0. */
  lemma IntervalPredicted(sc: Layout, mcus: seq<Mcu>)
    requires sc.Fits(mcus) && (sc.restartInterval > 0 ==> |mcus| <= sc.restartInterval)
    ensures Predicted([], Visits(sc, StartPace(sc), mcus))
  {
    RunPredicted(sc, StartPace(sc), mcus, []);
  }

  // ----- What the emitting coder does with the same visits -----

  ghost predicate OkAt(bc: BlockCoder, v: Visit) {
    bc.ok(v.comp, v.lastDc, v.block)
  }

  ghost predicate AllOk(bc: BlockCoder, visits: seq<Visit>) {
    forall v :: v in visits ==> OkAt(bc, v)
  }

  ghost function BitsOf(bc: BlockCoder, visits: seq<Visit>): seq<bool> {
    if visits == [] then []
    else bc.bits(visits[0].comp, visits[0].lastDc, visits[0].block) + BitsOf(bc, visits[1..])
  }

  /** An MCU can be coded when each of its visits can, and its bits are theirs. */
  lemma {:induction false} McuByVisits(sc: Layout, bc: BlockCoder, dc: seq<int>, mcu: Mcu, b: nat)
    requires sc.Valid() && |dc| == sc.comps && b <= |mcu| == |sc.membership|
    ensures McuEncodable(sc, bc, dc, mcu, b) <==> AllOk(bc, McuVisits(sc, dc, mcu, b))
    ensures McuBits(sc, bc, dc, mcu, b) == BitsOf(bc, McuVisits(sc, dc, mcu, b))
    decreases |mcu| - b
  {
    if b < |mcu| {
      var v := Visit(sc.membership[b], dc[sc.membership[b]], mcu[b]);
      var later := McuVisits(sc, Predict(sc, dc, mcu, b), mcu, b + 1);
      McuByVisits(sc, bc, Predict(sc, dc, mcu, b), mcu, b + 1);
      assert ([v] + later)[1..] == later;
      assert AllOk(bc, [v] + later) <==> OkAt(bc, v) && AllOk(bc, later) by {
        assert v in [v] + later;
      }
    }
  }

  /** A run of the emitting coder succeeds exactly when every visit of the counting pass can be coded. */
  lemma {:induction false} RunByVisits(sc: Layout, bc: BlockCoder, st: ScanState, mcus: seq<Mcu>)
    requires sc.Fits(mcus) && |st.dc| == sc.comps
    ensures RunOk(sc, bc, st, mcus) <==> AllOk(bc, Visits(sc, Pace(st.dc, st.toGo), mcus))
    decreases |mcus|
  {
    if mcus != [] {
      assert |mcus[0]| == |sc.membership|;
      var p := Pace(st.dc, st.toGo);
      McuByVisits(sc, bc, Resynced(sc, p).dc, mcus[0], 0);
      RunByVisits(sc, bc, Step(sc, bc, st, mcus[0]), mcus[1..]);
    }
  }

  lemma {:induction false} McuComponents(sc: Layout, dc: seq<int>, mcu: Mcu, b: nat)
    requires sc.Valid() && |dc| == sc.comps && b <= |mcu| == |sc.membership|
    ensures forall v :: v in McuVisits(sc, dc, mcu, b) ==> v.comp < sc.comps
    ensures forall i :: b <= i < |mcu| ==> exists v :: v in McuVisits(sc, dc, mcu, b) && v.comp == sc.membership[i]
    decreases |mcu| - b
  {
    if b < |mcu| {
      var v := Visit(sc.membership[b], dc[sc.membership[b]], mcu[b]);
      McuComponents(sc, Predict(sc, dc, mcu, b), mcu, b + 1);
      assert v in McuVisits(sc, dc, mcu, b);
      forall i | b <= i < |mcu| ensures exists w :: w in McuVisits(sc, dc, mcu, b) && w.comp == sc.membership[i] {
        if i > b {
          var w :| w in McuVisits(sc, Predict(sc, dc, mcu, b), mcu, b + 1) && w.comp == sc.membership[i];
          assert w in McuVisits(sc, dc, mcu, b);
        }
      }
    }
  }

  /** Visits belong to the scan's components, and once an MCU is coded every component of the MCU has been visited. */
  lemma {:induction false} VisitComponents(sc: Layout, p: Pace, mcus: seq<Mcu>)
    requires sc.Fits(mcus) && |p.dc| == sc.comps
    ensures forall v :: v in Visits(sc, p, mcus) ==> v.comp < sc.comps
    ensures mcus != [] ==> forall c :: c in sc.membership ==> exists v :: v in Visits(sc, p, mcus) && v.comp == c
    decreases |mcus|
  {
    if mcus != [] {
      assert |mcus[0]| == |sc.membership|;
      McuComponents(sc, Resynced(sc, p).dc, mcus[0], 0);
      VisitComponents(sc, NextPace(sc, p, mcus[0]), mcus[1..]);
      var first := McuVisits(sc, Resynced(sc, p).dc, mcus[0], 0);
      assert forall v :: v in first ==> v in Visits(sc, p, mcus);
    }
  }
}
