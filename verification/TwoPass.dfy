/** Optimized tables: what the counting pass produces never leaves the emitting pass without a code. */
module TwoPass {
  import opened BitStrings
  import opened JpegTypes
  import opened HuffmanOptimality
  import opened HuffmanTree
  import opened HuffmanRun
  import opened LengthLimit
  import opened Crowding
  import opened HuffmanTable
  import opened OptimalTable
  import opened BlockCode
  import opened ScanCode
  import opened ScanRuns
  import opened ScanTables
  import opened ScanVisits
  import opened Statistics
  import opened GatherPass

  // ----- From counts to a table -----

  ghost predicate Listed(t: HuffTable, s: nat)
    requires t.WellTyped()
  {
    exists p :: 0 <= p < |Sizes(t.bits, MAX_LEN)| && p < 256 && t.huffval[p] == s
  }

  /** The table is acceptable and gives codes to exactly the counted symbols. */
  ghost predicate Serves(isDC: bool, f: seq<nat>, t: HuffTable) {
    && |f| == SYMBOLS && t.WellTyped() && Acceptable(isDC, t)
    && forall s :: 0 <= s < PSEUDO ==> (f[s] > 0 <==> Listed(t, s))
  }

  /** Counts the optimizer can take: some symbol, a bounded total, and only symbols of the class. */
  ghost predicate Countable(isDC: bool, f: seq<nat>) {
    && |f| == SYMBOLS
    && Total(f[PSEUDO := 1]) <= MAX_FREQ
    && (exists s :: 0 <= s < PSEUDO && f[s] > 0)
    && f[12] == 0 && f[13] == 0
    && (isDC ==> forall s :: 16 <= s < PSEUDO ==> f[s] == 0)
  }

  /** Counts that miss two real symbols never crowd a length: their table serves them. */
  lemma AlwaysNarrow(f: seq<nat>, cs: seq<nat>, i: nat, j: nat)
    requires |f| == |cs| == SYMBOLS && i < j < PSEUDO && f[i] == 0 && f[j] == 0 && cs[i] == 0 && cs[j] == 0
    ensures Narrow(Counts(cs)) && !Level(f) && !Tower(f)
  {
    forall k | 0 <= k < |Counts(cs)| ensures Counts(cs)[k] <= 255 {
      if k > 0 {
        CountOfMisses(cs, k, i, j);
      }
    }
  }

  /** The ranking holds the real symbols with a code. */
  lemma RankedCoded(cs: seq<nat>)
    requires |cs| == SYMBOLS && Within(cs, MAX_CLEN)
    ensures forall p :: 0 <= p < |Ranking(cs)| ==> Ranking(cs)[p] < PSEUDO && cs[Ranking(cs)[p]] > 0
    ensures forall s :: 0 <= s < PSEUDO && cs[s] > 0 ==> s in Ranking(cs)
  {
    hide Sorted;
    SortedMembers(cs[..PSEUDO], MAX_CLEN);
    assert forall s :: 0 <= s < PSEUDO ==> cs[..PSEUDO][s] == cs[s];
  }

  /** The table lists the ranking. */
  lemma ListedRanked(cs: seq<nat>, t: HuffTable)
    requires |cs| == SYMBOLS && t.WellTyped() && CodesFor(cs, t)
    ensures |Sizes(t.bits, MAX_LEN)| == |Ranking(cs)| <= 256
    ensures forall p :: 0 <= p < |Ranking(cs)| ==> t.huffval[p] == Ranking(cs)[p]
  {
    hide Ranking, Sizes, Slots;
    var n := |Sizes(t.bits, MAX_LEN)|;
    assert forall p :: 0 <= p < n ==> t.huffval[..n][p] == t.huffval[p];
  }

  lemma CodesServe(isDC: bool, f: seq<nat>, cs: seq<nat>, t: HuffTable)
    requires Countable(isDC, f) && OptimalLengths(f[PSEUDO := 1], cs) && Within(cs, MAX_CLEN)
    requires t.WellTyped() && CodesFor(cs, t)
    ensures Serves(isDC, f, t)
  {
    hide Ranking, Sizes, Slots, Total;
    RankedCoded(cs);
    ListedRanked(cs, t);
    assert forall s :: 0 <= s < PSEUDO ==> f[PSEUDO := 1][s] == f[s];
    assert forall s :: 0 <= s < PSEUDO ==> (cs[s] > 0 <==> f[s] > 0);
    hide OptimalLengths, CodesFor;
    forall s | 0 <= s < PSEUDO && f[s] > 0 ensures Listed(t, s) {
      assert s in Ranking(cs);
      var p :| 0 <= p < |Ranking(cs)| && Ranking(cs)[p] == s;
      assert t.huffval[p] == s;
    }
  }

  ghost predicate LongRun(f: seq<nat>, cs: seq<nat>, pairs: seq<Pair>)
    requires |f| == SYMBOLS
  {
    BuiltBy(f[PSEUDO := 1], cs, pairs) && !Within(cs, MAX_CLEN)
  }

  /** The code that the merge loop builds for the counts has a word of more than 32 bits. */
  ghost predicate Overlong(f: seq<nat>)
    requires |f| == SYMBOLS
  {
    exists cs, pairs :: LongRun(f, cs, pairs)
  }

  lemma OverlongIs(f: seq<nat>, cs: seq<nat>, pairs: seq<Pair>)
    requires |f| == SYMBOLS && BuiltBy(f[PSEUDO := 1], cs, pairs)
    ensures Overlong(f) <==> !Within(cs, MAX_CLEN)
  {
    hide BuiltBy;
    if Overlong(f) {
      var cs', pairs' :| LongRun(f, cs', pairs');
      OneResult(f[PSEUDO := 1], cs, pairs, cs', pairs');
    } else {
      assert !LongRun(f, cs, pairs);
    }
  }

  /** Fewer counts than LONG_TOTAL are never overlong. */
  lemma FewNotOverlong(f: seq<nat>)
    requires |f| == SYMBOLS && Total(f[PSEUDO := 1]) < LONG_TOTAL
    ensures !Overlong(f)
  {
    if Overlong(f) {
      var cs, pairs :| LongRun(f, cs, pairs);
      BuiltFinished(f[PSEUDO := 1], cs, pairs);
      var s :| 0 <= s < |cs| && cs[s] > MAX_CLEN;
      LongOnlyFrom(f[PSEUDO := 1], cs, pairs, s);
    }
  }

  /** One table from its counts; nothing when a code length exceeds 32. */
  method GenerateTable(freq: array<nat>, isDC: bool) returns (r: Option<HuffTable>)
    requires freq.Length == SYMBOLS && Countable(isDC, freq[..])
    modifies freq
    ensures r.None? <==> Overlong(old(freq[..]))
    ensures r.Some? ==> Serves(isDC, old(freq[..]), r.value)
  {
    hide Total, BuiltBy, CodesFor;
    ghost var f := freq[..];
    var huffval := new nat[256](_ => 0);
    var g;
    ghost var cs, pairs;
    g, cs, pairs := GenOptimalTable(freq, huffval);
    OverlongIs(f, cs, pairs);
    if g.LengthOverflow? {
      return None;
    }
    Uncoded(f, cs);
    AlwaysNarrow(f[PSEUDO := 1], cs, 12, 13);
    CodesServe(isDC, f, cs, g.table);
    return Some(g.table);
  }

  lemma Uncoded(f: seq<nat>, cs: seq<nat>)
    requires |f| == SYMBOLS && f[12] == 0 && f[13] == 0 && OptimalLengths(f[PSEUDO := 1], cs)
    ensures |cs| == SYMBOLS && cs[12] == 0 && cs[13] == 0
  {
  }

  // ----- finish_pass_gather -----

  /** Tables already generated serve the counts, which are not overlong; the other counts are untouched. */
  ghost predicate Partway(isDC: bool, f0: seq<seq<nat>>, did: seq<bool>, f: seq<seq<nat>>, tables: seq<HuffTable>) {
    && |f0| == |did| == |f| == |tables| == NUM_HUFF_TBLS
    && (forall t :: 0 <= t < NUM_HUFF_TBLS ==> tables[t].WellTyped())
    && (forall t :: 0 <= t < NUM_HUFF_TBLS && did[t] ==>
          |f0[t]| == SYMBOLS && Serves(isDC, f0[t], tables[t]) && !Overlong(f0[t]))
    && (forall t :: 0 <= t < NUM_HUFF_TBLS && !did[t] ==> f[t] == f0[t])
  }

  /** Generates table t unless that has been done. */
  method GenerateOnce(isDC: bool, counts: seq<array<nat>>, did0: seq<bool>, tables0: seq<HuffTable>, t: nat, ghost f0: seq<seq<nat>>)
    returns (ok: bool, did: seq<bool>, tables: seq<HuffTable>)
    requires |counts| == NUM_HUFF_TBLS && t < NUM_HUFF_TBLS
    requires forall u :: 0 <= u < NUM_HUFF_TBLS ==> counts[u].Length == SYMBOLS
    requires forall u, v :: 0 <= u < v < NUM_HUFF_TBLS ==> counts[u] != counts[v]
    requires Partway(isDC, f0, did0, Snapshot(counts), tables0) && Countable(isDC, f0[t])
    modifies counts[t]
    ensures ok ==> Partway(isDC, f0, did, Snapshot(counts), tables) && did[t]
    ensures ok ==> forall u :: 0 <= u < NUM_HUFF_TBLS && did0[u] ==> did[u]
    ensures !ok ==> Overlong(f0[t])
  {
    ok, did, tables := true, did0, tables0;
    if !did[t] {
      ghost var f := Snapshot(counts);
      var r := GenerateTable(counts[t], isDC);
      if r.None? {
        return false, did, tables;
      }
      did, tables := did[t := true], tables[t := r.value];
      assert forall u :: 0 <= u < NUM_HUFF_TBLS && u != t ==> Snapshot(counts)[u] == f[u];
    }
  }

  /** A table number some component uses, with counts the optimizer can take. */
  ghost predicate AllCountable(sc: Scan, d: seq<seq<nat>>, a: seq<seq<nat>>)
    requires sc.Valid()
  {
    && |d| == |a| == NUM_HUFF_TBLS
    && (forall c :: 0 <= c < sc.layout.comps ==> Countable(true, d[sc.dcNo[c]]))
    && (forall c :: 0 <= c < sc.layout.comps ==> Countable(false, a[sc.acNo[c]]))
  }

  /** The counts of one of component c's tables lead to a code word of more than 32 bits. */
  ghost predicate LongFor(sc: Scan, d: seq<seq<nat>>, a: seq<seq<nat>>, c: nat)
    requires sc.Valid() && c < sc.layout.comps && |d| == |a| == NUM_HUFF_TBLS
  {
    || (|d[sc.dcNo[c]]| == SYMBOLS && Overlong(d[sc.dcNo[c]]))
    || (|a[sc.acNo[c]]| == SYMBOLS && Overlong(a[sc.acNo[c]]))
  }

  /** Each component's tables serve the counts. */
  ghost predicate AllServe(sc: Scan, d: seq<seq<nat>>, a: seq<seq<nat>>, ts: HuffTables)
    requires sc.Valid()
  {
    && ts.WellTyped() && |d| == |a| == NUM_HUFF_TBLS
    && (forall c :: 0 <= c < sc.layout.comps ==> Serves(true, d[sc.dcNo[c]], ts.dc[sc.dcNo[c]]))
    && (forall c :: 0 <= c < sc.layout.comps ==> Serves(false, a[sc.acNo[c]], ts.ac[sc.acNo[c]]))
  }

  /** The components before ci have both their tables. */
  ghost predicate Generated(sc: Scan, d0: seq<seq<nat>>, a0: seq<seq<nat>>, did: (seq<bool>, seq<bool>),
                            d: seq<seq<nat>>, a: seq<seq<nat>>, ts: HuffTables, ci: nat)
    requires sc.Valid() && ci <= sc.layout.comps
  {
    && Partway(true, d0, did.0, d, ts.dc) && Partway(false, a0, did.1, a, ts.ac)
    && forall c :: 0 <= c < ci ==> did.0[sc.dcNo[c]] && did.1[sc.acNo[c]]
  }

  lemma NoneGenerated(sc: Scan, d0: seq<seq<nat>>, a0: seq<seq<nat>>, ts: HuffTables)
    requires sc.Valid() && |d0| == |a0| == NUM_HUFF_TBLS && ts.WellTyped()
    ensures var none := [false, false, false, false]; Generated(sc, d0, a0, (none, none), d0, a0, ts, 0)
  {
  }

  lemma AllGenerated(sc: Scan, d0: seq<seq<nat>>, a0: seq<seq<nat>>, did: (seq<bool>, seq<bool>),
                     d: seq<seq<nat>>, a: seq<seq<nat>>, ts: HuffTables)
    requires sc.Valid() && Generated(sc, d0, a0, did, d, a, ts, sc.layout.comps)
    ensures AllServe(sc, d0, a0, ts)
    ensures AllCountable(sc, d0, a0) ==> forall c :: 0 <= c < sc.layout.comps ==> !LongFor(sc, d0, a0, c)
  {
    hide Serves, Countable, Overlong;
  }

  /** Both of component ci's tables, each unless it has been generated. */
  method GenerateBoth(sc: Scan, dcCounts: seq<array<nat>>, acCounts: seq<array<nat>>, did0: (seq<bool>, seq<bool>),
                      ts0: HuffTables, ci: nat, ghost d0: seq<seq<nat>>, ghost a0: seq<seq<nat>>)
    returns (ok: bool, did: (seq<bool>, seq<bool>), ts: HuffTables)
    requires sc.Valid() && Separate(dcCounts, acCounts) && ci < sc.layout.comps && AllCountable(sc, d0, a0)
    requires Generated(sc, d0, a0, did0, Snapshot(dcCounts), Snapshot(acCounts), ts0, ci)
    modifies dcCounts, acCounts
    ensures ok ==> Generated(sc, d0, a0, did, Snapshot(dcCounts), Snapshot(acCounts), ts, ci + 1)
    ensures !ok ==> LongFor(sc, d0, a0, ci)
  {
    hide Serves, Countable, Overlong;
    ghost var a := Snapshot(acCounts);
    var didDc, dc, didAc, ac;
    ok, didDc, dc := GenerateOnce(true, dcCounts, did0.0, ts0.dc, sc.dcNo[ci], d0);
    if !ok {
      return false, did0, ts0;
    }
    assert Snapshot(acCounts) == a;
    ghost var d := Snapshot(dcCounts);
    ok, didAc, ac := GenerateOnce(false, acCounts, did0.1, ts0.ac, sc.acNo[ci], a0);
    if !ok {
      return false, did0, ts0;
    }
    assert Snapshot(dcCounts) == d;
    return true, (didDc, didAc), HuffTables(dc, ac);
  }

  /** Creates the new Huffman tables from the counts, once per table, over the tables there were. */
  method FinishPassGather(sc: Scan, dcCounts: seq<array<nat>>, acCounts: seq<array<nat>>, before: HuffTables)
    returns (ok: bool, ts: HuffTables)
    requires sc.Valid() && Separate(dcCounts, acCounts) && before.WellTyped()
    requires AllCountable(sc, Snapshot(dcCounts), Snapshot(acCounts))
    modifies dcCounts, acCounts
    ensures ok ==> AllServe(sc, old(Snapshot(dcCounts)), old(Snapshot(acCounts)), ts)
    ensures !ok <==> exists c :: 0 <= c < sc.layout.comps && LongFor(sc, old(Snapshot(dcCounts)), old(Snapshot(acCounts)), c)
  {
    ghost var d0, a0 := Snapshot(dcCounts), Snapshot(acCounts);
    var none := [false, false, false, false];
    var did := (none, none);
    ts := before;
    NoneGenerated(sc, d0, a0, ts);
    var ci := 0;
    while ci < sc.layout.comps
      invariant ci <= sc.layout.comps && Generated(sc, d0, a0, did, Snapshot(dcCounts), Snapshot(acCounts), ts, ci)
    {
      ok, did, ts := GenerateBoth(sc, dcCounts, acCounts, did, ts, ci, d0, a0);
      if !ok {
        return;
      }
      ci := ci + 1;
    }
    AllGenerated(sc, d0, a0, did, Snapshot(dcCounts), Snapshot(acCounts), ts);
    ok := true;
  }

  // ----- start_pass_huff of the emitting pass: deriving the tables -----

  ghost predicate Accepted(sc: Scan, ts: HuffTables, c: nat)
    requires sc.Valid() && ts.WellTyped() && c < sc.layout.comps
  {
    Acceptable(true, ts.dc[sc.dcNo[c]]) && Acceptable(false, ts.ac[sc.acNo[c]])
  }

  /** Deriving component ci's tables again leaves every component that was prepared prepared. */
  lemma StaysPrepared(sc: Scan, ts: HuffTables, tb: CodeTables, tb': CodeTables, ci: nat, c: nat)
    requires sc.Valid() && ts.WellTyped() && tb.WellTyped() && tb'.WellTyped()
    requires ci < sc.layout.comps && c < sc.layout.comps
    requires Prepared(sc, ts, tb', ci) && Prepared(sc, ts, tb, c)
    requires forall t :: 0 <= t < NUM_HUFF_TBLS && t != sc.dcNo[ci] ==> tb'.dc[t] == tb.dc[t]
    requires forall t :: 0 <= t < NUM_HUFF_TBLS && t != sc.acNo[ci] ==> tb'.ac[t] == tb.ac[t]
    ensures Prepared(sc, ts, tb', c)
  {
  }

  ghost predicate PreparedUpTo(sc: Scan, ts: HuffTables, tb: CodeTables, n: nat)
    requires sc.Valid() && ts.WellTyped() && tb.WellTyped() && n <= sc.layout.comps
  {
    forall c :: 0 <= c < n ==> Prepared(sc, ts, tb, c)
  }

  lemma OneMorePrepared(sc: Scan, ts: HuffTables, tb: CodeTables, tb': CodeTables, ci: nat)
    requires sc.Valid() && ts.WellTyped() && tb.WellTyped() && tb'.WellTyped() && ci < sc.layout.comps
    requires PreparedUpTo(sc, ts, tb, ci) && Prepared(sc, ts, tb', ci)
    requires forall t :: 0 <= t < NUM_HUFF_TBLS && t != sc.dcNo[ci] ==> tb'.dc[t] == tb.dc[t]
    requires forall t :: 0 <= t < NUM_HUFF_TBLS && t != sc.acNo[ci] ==> tb'.ac[t] == tb.ac[t]
    ensures PreparedUpTo(sc, ts, tb', ci + 1)
  {
    forall c | 0 <= c < ci ensures Prepared(sc, ts, tb', c) {
      StaysPrepared(sc, ts, tb, tb', ci, c);
    }
  }

  lemma PreparedMeansAccepted(sc: Scan, ts: HuffTables, tb: CodeTables)
    requires sc.Valid() && ts.WellTyped() && tb.WellTyped() && PreparedUpTo(sc, ts, tb, sc.layout.comps)
    ensures AllPrepared(sc, ts, tb) && forall c :: 0 <= c < sc.layout.comps ==> Accepted(sc, ts, c)
  {
    forall c | 0 <= c < sc.layout.comps ensures Accepted(sc, ts, c) {
      assert Prepared(sc, ts, tb, c);
    }
  }

  /** All four slots of a class filled. */
  function Present(tables: seq<HuffTable>): (r: seq<Option<HuffTable>>)
    ensures |r| == |tables| && forall i :: 0 <= i < |r| ==> r[i] == Some(tables[i])
  {
    seq(|tables|, i requires 0 <= i < |tables| => Some(tables[i]))
  }

  /** Derives one component's two tables. */
  method DeriveFor(sc: Scan, ts: HuffTables, tb: CodeTables, ci: nat) returns (r: Result<CodeTables>)
    requires sc.Valid() && ts.WellTyped() && tb.WellTyped() && ci < sc.layout.comps
    ensures r.Ok? <==> Accepted(sc, ts, ci)
    ensures r.Ok? ==> r.value.WellTyped() && Prepared(sc, ts, r.value, ci)
    ensures r.Ok? ==> forall t :: 0 <= t < NUM_HUFF_TBLS && t != sc.dcNo[ci] ==> r.value.dc[t] == tb.dc[t]
    ensures r.Ok? ==> forall t :: 0 <= t < NUM_HUFF_TBLS && t != sc.acNo[ci] ==> r.value.ac[t] == tb.ac[t]
  {
    var dc := MakeDerivedTable(true, sc.dcNo[ci], Present(ts.dc));
    if dc.Err? {
      return Err(dc.error);
    }
    var ac := MakeDerivedTable(false, sc.acNo[ci], Present(ts.ac));
    if ac.Err? {
      return Err(ac.error);
    }
    return Ok(CodeTables(tb.dc[sc.dcNo[ci] := dc.value], tb.ac[sc.acNo[ci] := ac.value]));
  }

  /** Derives the tables of every component, or reports the first bad one. */
  method DeriveTables(sc: Scan, ts: HuffTables) returns (r: Result<CodeTables>)
    requires sc.Valid() && ts.WellTyped()
    ensures r.Ok? <==> forall c :: 0 <= c < sc.layout.comps ==> Accepted(sc, ts, c)
    ensures r.Ok? ==> AllPrepared(sc, ts, r.value)
  {
    var empty := Derived(seq(256, _ => 0), seq(256, _ => 0));
    var tb := CodeTables(seq(NUM_HUFF_TBLS, _ => empty), seq(NUM_HUFF_TBLS, _ => empty));
    var ci := 0;
    while ci < sc.layout.comps
      invariant ci <= sc.layout.comps && tb.WellTyped()
      invariant PreparedUpTo(sc, ts, tb, ci)
    {
      r := DeriveFor(sc, ts, tb, ci);
      if r.Err? {
        return;
      }
      OneMorePrepared(sc, ts, tb, r.value, ci);
      tb := r.value;
      ci := ci + 1;
    }
    PreparedMeansAccepted(sc, ts, tb);
    return Ok(tb);
  }

  // ----- The two passes agree -----

  /** The symbols a table of the class codes stay within the class's alphabet. */
  lemma {:induction false} SymbolRange(items: seq<Item>, dc: bool)
    requires forall i :: 0 <= i < |items| ==> if items[i].dc then items[i].sym <= MAX_COEF_BITS + 1 else AcSymbol(items[i])
    ensures forall s :: s in Symbols(items, dc) ==> s < 256 && s != 12 && s != 13 && (dc ==> s < 12)
    decreases |items|
  {
    if items != [] {
      SymbolRange(items[1..], dc);
    }
  }

  lemma BlockSymbolRange(sc: Scan, v: Visit, dc: bool)
    requires sc.Valid() && VisitInRange(sc, v)
    ensures forall s :: s in Symbols(BlockItems(sc.order, v.block, v.lastDc), dc) ==> s < 256 && s != 12 && s != 13 && (dc ==> s < 12)
    ensures Symbols(BlockItems(sc.order, v.block, v.lastDc), dc) != []
  {
    var zz := Zigzag(sc.order, v.block);
    var items := BlockItems(sc.order, v.block, v.lastDc);
    var ac := AcItems(zz, 0);
    AcSymbols(zz, 0);
    assert forall i :: 1 <= i < |items| ==> items[i] == ac[i - 1];
    SymbolRange(items, dc);
    assert items[1..] == ac;
    if !dc {
      assert Symbols(ac, dc) == [ac[0].sym] + Symbols(ac[1..], dc);
    }
  }

  /** Over all visits: the coded symbols are in the class's alphabet, and a table that is used codes some symbol. */
  lemma {:induction false} CodedRange(sc: Scan, visits: seq<Visit>, dc: bool, t: nat)
    requires sc.Valid() && AllInRange(sc, visits)
    ensures forall s :: s in CodedSymbols(sc, visits, dc, t) ==> s < 256 && s != 12 && s != 13 && (dc ==> s < 12)
    ensures (exists v :: v in visits && UsesTable(sc, dc, t, v.comp)) ==> CodedSymbols(sc, visits, dc, t) != []
    decreases |visits|
  {
    if visits != [] {
      var v := visits[0];
      assert v in visits && VisitInRange(sc, v);
      BlockSymbolRange(sc, v, dc);
      assert AllInRange(sc, visits[1..]) by {
        assert forall w :: w in visits[1..] ==> w in visits;
      }
      CodedRange(sc, visits[1..], dc, t);
    }
  }

  lemma {:induction false} SymbolCoded(items: seq<Item>, i: nat)
    requires i < |items|
    ensures items[i].sym in Symbols(items, items[i].dc)
    decreases |items|
  {
    if i > 0 {
      SymbolCoded(items[1..], i - 1);
    }
  }

  lemma {:induction false} VisitCoded(sc: Scan, visits: seq<Visit>, v: Visit, dc: bool, t: nat, s: nat)
    requires sc.Valid() && v in visits && UsesTable(sc, dc, t, v.comp)
    requires s in Symbols(BlockItems(sc.order, v.block, v.lastDc), dc)
    ensures s in CodedSymbols(sc, visits, dc, t)
    decreases |visits|
  {
    if v != visits[0] {
      assert v in visits[1..];
      VisitCoded(sc, visits[1..], v, dc, t, s);
    }
  }

  /** The counts of a table after these visits. */
  ghost function FinalCounts(sc: Scan, visits: seq<Visit>, dc: bool): (f: seq<seq<nat>>)
    requires sc.Valid()
    ensures |f| == NUM_HUFF_TBLS && forall t :: 0 <= t < NUM_HUFF_TBLS ==> f[t] == TallyVisits(sc, NoCounts(), visits, dc, t)
  {
    seq(NUM_HUFF_TBLS, t requires 0 <= t < NUM_HUFF_TBLS => TallyVisits(sc, NoCounts(), visits, dc, t))
  }

  /** A symbol is counted exactly when it is coded. */
  lemma CountedIffCoded(sc: Scan, visits: seq<Visit>, dc: bool, t: nat, s: nat)
    requires sc.Valid() && t < NUM_HUFF_TBLS && s < SYMBOLS
    ensures FinalCounts(sc, visits, dc)[t][s] == multiset(CodedSymbols(sc, visits, dc, t))[s]
    ensures FinalCounts(sc, visits, dc)[t][s] > 0 <==> s in CodedSymbols(sc, visits, dc, t)
  {
    CountsAreUses(sc, NoCounts(), visits, dc, t, s);
  }

  /** The counts of a table that is used meet the optimizer's conditions, as long as their total does. */
  lemma UsedCountable(sc: Scan, visits: seq<Visit>, dc: bool, t: nat)
    requires sc.Valid() && t < NUM_HUFF_TBLS && AllInRange(sc, visits)
    requires exists v :: v in visits && UsesTable(sc, dc, t, v.comp)
    requires Total(FinalCounts(sc, visits, dc)[t][PSEUDO := 1]) <= MAX_FREQ
    ensures Countable(dc, FinalCounts(sc, visits, dc)[t])
  {
    var f := FinalCounts(sc, visits, dc)[t];
    CodedRange(sc, visits, dc, t);
    CountedIffCoded(sc, visits, dc, t, 12);
    CountedIffCoded(sc, visits, dc, t, 13);
    var s := CodedSymbols(sc, visits, dc, t)[0];
    assert s in CodedSymbols(sc, visits, dc, t);
    CountedIffCoded(sc, visits, dc, t, s);
    assert f[s] > 0;
    if dc {
      forall s | 16 <= s < PSEUDO ensures f[s] == 0 {
        CountedIffCoded(sc, visits, dc, t, s);
      }
    }
  }

  /** A counted symbol has a code in the table generated and derived from the counts. */
  lemma ServedHasCode(isDC: bool, f: seq<nat>, t: HuffTable, d: Derived, s: nat)
    requires Serves(isDC, f, t) && Derives(t, d) && s < PSEUDO && f[s] > 0
    ensures d.size[s] > 0
  {
    assert Listed(t, s);
  }

  lemma ItemHasCode(sc: Scan, ts: HuffTables, tb: CodeTables, visits: seq<Visit>, v: Visit, i: nat)
    requires AllPrepared(sc, ts, tb) && AllInRange(sc, visits) && v in visits && v.comp < sc.layout.comps
    requires AllServe(sc, FinalCounts(sc, visits, true), FinalCounts(sc, visits, false), ts)
    requires i < |BlockItems(sc.order, v.block, v.lastDc)|
    ensures HasCode(tb.dc[sc.dcNo[v.comp]], tb.ac[sc.acNo[v.comp]], BlockItems(sc.order, v.block, v.lastDc)[i])
  {
    var items := BlockItems(sc.order, v.block, v.lastDc);
    var dc, s := items[i].dc, items[i].sym;
    var t := if dc then sc.dcNo[v.comp] else sc.acNo[v.comp];
    SymbolCoded(items, i);
    assert VisitInRange(sc, v);
    BlockSymbolRange(sc, v, dc);
    VisitCoded(sc, visits, v, dc, t, s);
    CountedIffCoded(sc, visits, dc, t, s);
    assert Prepared(sc, ts, tb, v.comp);
    if dc {
      ServedHasCode(true, FinalCounts(sc, visits, true)[t], ts.dc[t], tb.dc[t], s);
    } else {
      ServedHasCode(false, FinalCounts(sc, visits, false)[t], ts.ac[t], tb.ac[t], s);
    }
  }

  /** With tables made from its own counts, a scan in range can be coded throughout. */
  lemma SecondPassCodes(sc: Scan, ts: HuffTables, tb: CodeTables, mcus: seq<Mcu>)
    requires AllPrepared(sc, ts, tb) && sc.layout.Fits(mcus)
    requires var visits := Visits(sc.layout, StartPace(sc.layout), mcus);
      AllInRange(sc, visits) && AllServe(sc, FinalCounts(sc, visits, true), FinalCounts(sc, visits, false), ts)
    ensures RunOk(sc.layout, HuffCoder(sc, tb), Start(sc.layout), mcus)
    ensures ScanEncodable(sc.layout, HuffCoder(sc, tb), mcus)
  {
    var bc := HuffCoder(sc, tb);
    var visits := Visits(sc.layout, StartPace(sc.layout), mcus);
    VisitComponents(sc.layout, StartPace(sc.layout), mcus);
    forall v | v in visits ensures OkAt(bc, v) {
      assert VisitInRange(sc, v);
      forall i | 0 <= i < |BlockItems(sc.order, v.block, v.lastDc)|
        ensures HasCode(tb.dc[sc.dcNo[v.comp]], tb.ac[sc.acNo[v.comp]], BlockItems(sc.order, v.block, v.lastDc)[i])
      {
        ItemHasCode(sc, ts, tb, visits, v, i);
      }
      assert Encodable(sc, tb, v.comp, v.lastDc, v.block);
    }
    RunByVisits(sc.layout, bc, Start(sc.layout), mcus);
    WholeRun(sc.layout, bc, mcus);
  }

  /** The counting pass is over: the totals are within the optimizer's limit and every component was coded. */
  ghost predicate PassComplete(sc: Scan, mcus: seq<Mcu>)
    requires sc.Valid() && sc.layout.Fits(mcus)
  {
    && mcus != []
    && (forall c :: 0 <= c < sc.layout.comps ==> c in sc.layout.membership)
    && WithinLimit(sc, Visits(sc.layout, StartPace(sc.layout), mcus))
  }

  ghost predicate WithinLimit(sc: Scan, visits: seq<Visit>)
    requires sc.Valid()
  {
    forall t :: 0 <= t < NUM_HUFF_TBLS ==>
      && Total(FinalCounts(sc, visits, true)[t][PSEUDO := 1]) <= MAX_FREQ
      && Total(FinalCounts(sc, visits, false)[t][PSEUDO := 1]) <= MAX_FREQ
  }

  lemma CountsCountable(sc: Scan, mcus: seq<Mcu>)
    requires sc.Valid() && sc.layout.Fits(mcus) && PassComplete(sc, mcus)
    requires AllInRange(sc, Visits(sc.layout, StartPace(sc.layout), mcus))
    ensures var visits := Visits(sc.layout, StartPace(sc.layout), mcus);
      AllCountable(sc, FinalCounts(sc, visits, true), FinalCounts(sc, visits, false))
  {
    var visits := Visits(sc.layout, StartPace(sc.layout), mcus);
    VisitComponents(sc.layout, StartPace(sc.layout), mcus);
    forall c | 0 <= c < sc.layout.comps
      ensures Countable(true, FinalCounts(sc, visits, true)[sc.dcNo[c]])
      ensures Countable(false, FinalCounts(sc, visits, false)[sc.acNo[c]])
    {
      assert c in sc.layout.membership;
      var v :| v in visits && v.comp == c;
      assert UsesTable(sc, true, sc.dcNo[c], v.comp) && UsesTable(sc, false, sc.acNo[c], v.comp);
      UsedCountable(sc, visits, true, sc.dcNo[c]);
      UsedCountable(sc, visits, false, sc.acNo[c]);
    }
  }

  /** For some table of the scan the counted symbols lead to a code word of more than 32 bits. */
  ghost predicate SomeTooLong(sc: Scan, mcus: seq<Mcu>)
    requires sc.Valid() && sc.layout.Fits(mcus)
  {
    var visits := Visits(sc.layout, StartPace(sc.layout), mcus);
    exists c :: 0 <= c < sc.layout.comps && LongFor(sc, FinalCounts(sc, visits, true), FinalCounts(sc, visits, false), c)
  }

  // ----- A scan too small for an overlong code -----

  lemma {:induction false} AcItemsFew(zz: seq<int>, r: nat)
    ensures |AcItems(zz, r)| <= |zz| + (r + 15) / 16
    decreases |zz|, r
  {
    if zz == [] {
    } else if zz[0] == 0 {
      AcItemsFew(zz[1..], r + 1);
    } else if r > 15 {
      AcItemsFew(zz, r - 16);
    } else {
      AcItemsFew(zz[1..], 0);
    }
  }

  lemma {:induction false} TallyTotal(f: seq<nat>, items: seq<Item>, dc: bool)
    ensures Total(Tally(f, items, dc)) <= Total(f) + |items|
    decreases |items|
  {
    if items != [] {
      var it := items[0];
      if it.dc == dc && it.sym < |f| {
        TotalUpdate(f, it.sym, f[it.sym] + 1);
      }
      TallyTotal(Bump(f, it, dc), items[1..], dc);
    }
  }

  /** A block counts at most 64 symbols. */
  lemma {:induction false} TallyVisitsTotal(sc: Scan, f: seq<nat>, visits: seq<Visit>, dc: bool, t: nat)
    requires sc.Valid()
    ensures Total(TallyVisits(sc, f, visits, dc, t)) <= Total(f) + 64 * |visits|
    decreases |visits|
  {
    hide Total, Tally, AcItems, Zigzag;
    if visits != [] {
      var v := visits[0];
      var items := BlockItems(sc.order, v.block, v.lastDc);
      AcItemsFew(Zigzag(sc.order, v.block), 0);
      TallyTotal(f, items, dc);
      TallyVisitsTotal(sc, if UsesTable(sc, dc, t, v.comp) then Tally(f, items, dc) else f, visits[1..], dc, t);
    }
  }

  lemma FewCounts(sc: Scan, visits: seq<Visit>, dc: bool, t: nat)
    requires sc.Valid() && t < NUM_HUFF_TBLS
    ensures Total(FinalCounts(sc, visits, dc)[t][PSEUDO := 1]) <= 64 * |visits| + 1
  {
    hide TallyVisits;
    TallyVisitsTotal(sc, NoCounts(), visits, dc, t);
    AllZero(NoCounts());
    TotalUpdate(FinalCounts(sc, visits, dc)[t], PSEUDO, 1);
  }

  /** With fewer than LONG_TOTAL / 64 blocks (some 144 thousand) no word exceeds 32 bits, and the totals are within the limit. */
  lemma SmallScan(sc: Scan, mcus: seq<Mcu>)
    requires sc.Valid() && sc.layout.Fits(mcus)
    requires 64 * |Visits(sc.layout, StartPace(sc.layout), mcus)| + 1 < LONG_TOTAL
    ensures !SomeTooLong(sc, mcus) && WithinLimit(sc, Visits(sc.layout, StartPace(sc.layout), mcus))
  {
    hide Total, Overlong;
    var visits := Visits(sc.layout, StartPace(sc.layout), mcus);
    forall t | 0 <= t < NUM_HUFF_TBLS
      ensures Total(FinalCounts(sc, visits, true)[t][PSEUDO := 1]) <= 64 * |visits| + 1 && !Overlong(FinalCounts(sc, visits, true)[t])
      ensures Total(FinalCounts(sc, visits, false)[t][PSEUDO := 1]) <= 64 * |visits| + 1 && !Overlong(FinalCounts(sc, visits, false)[t])
    {
      FewCounts(sc, visits, true, t);
      FewCounts(sc, visits, false, t);
      FewNotOverlong(FinalCounts(sc, visits, true)[t]);
      FewNotOverlong(FinalCounts(sc, visits, false)[t]);
    }
  }

  /**
   From the counting pass to the emitting pass. Unless a Huffman code exceeds 32 bits, the generated tables
   are accepted, and every MCU that was counted can be coded with them.
   */
  method OptimizeTables(g: Gatherer, before: HuffTables) returns (r: Result<CodeTables>, ts: HuffTables)
    requires g.Valid() && before.WellTyped() && PassComplete(g.sc, g.history)
    modifies g.dcCounts, g.acCounts
    ensures r.Err? <==> SomeTooLong(g.sc, g.history)
    ensures r.Err? ==> r.error == CodeLengthOverflow
    ensures r.Ok? ==> AllPrepared(g.sc, ts, r.value)
    ensures r.Ok? ==> RunOk(g.sc.layout, HuffCoder(g.sc, r.value), Start(g.sc.layout), g.history)
    ensures r.Ok? ==> ScanEncodable(g.sc.layout, HuffCoder(g.sc, r.value), g.history)
  {
    hide Total, TallyVisits, HuffCoder, RunOk, Visits;
    ghost var d, a := FinalCounts(g.sc, g.Coded(), true), FinalCounts(g.sc, g.Coded(), false);
    assert Snapshot(g.dcCounts) == d && Snapshot(g.acCounts) == a;
    CountsCountable(g.sc, g.history);
    var ok;
    ok, ts := FinishPassGather(g.sc, g.dcCounts, g.acCounts, before);
    if !ok {
      return Err(CodeLengthOverflow), ts;
    }
    ServedAccepted(g.sc, d, a, ts);
    r := DeriveTables(g.sc, ts);
    SecondPassCodes(g.sc, ts, r.value, g.history);
  }

  lemma ServedAccepted(sc: Scan, d: seq<seq<nat>>, a: seq<seq<nat>>, ts: HuffTables)
    requires sc.Valid() && AllServe(sc, d, a, ts)
    ensures forall c :: 0 <= c < sc.layout.comps ==> Accepted(sc, ts, c)
  {
  }
}
