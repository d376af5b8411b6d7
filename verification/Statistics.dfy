/** The counting pass: htest_one_block and encode_mcu_gather. */
module Statistics {
  import opened JpegTypes
  import opened HuffmanTree
  import opened BlockCode
  import opened HuffmanEncoder
  import opened ScanTables
  import opened ScanVisits

  // ----- What is counted -----

  function Bump(f: seq<nat>, it: Item, dc: bool): (r: seq<nat>)
    ensures |r| == |f|
  {
    if it.dc == dc && it.sym < |f| then f[it.sym := f[it.sym] + 1] else f
  }

  /** The counts of one table class after these items. */
  function Tally(f: seq<nat>, items: seq<Item>, dc: bool): (r: seq<nat>)
    ensures |r| == |f|
    decreases |items|
  {
    if items == [] then f else Tally(Bump(f, items[0], dc), items[1..], dc)
  }

  /** The symbols of one table class among the items, in the order they are emitted. */
  function Symbols(items: seq<Item>, dc: bool): seq<nat>
    decreases |items|
  {
    if items == [] then [] else (if items[0].dc == dc then [items[0].sym] else []) + Symbols(items[1..], dc)
  }

  lemma {:induction false} TallyCounts(f: seq<nat>, items: seq<Item>, dc: bool, s: nat)
    requires s < |f|
    ensures Tally(f, items, dc)[s] == f[s] + multiset(Symbols(items, dc))[s]
    decreases |items|
  {
    if items != [] {
      TallyCounts(Bump(f, items[0], dc), items[1..], dc, s);
    }
  }

  /** Whether component c uses table number t of the class. */
  predicate UsesTable(sc: Scan, dc: bool, t: nat, c: nat) {
    if dc then c < |sc.dcNo| && sc.dcNo[c] == t else c < |sc.acNo| && sc.acNo[c] == t
  }

  ghost function TallyVisits(sc: Scan, f: seq<nat>, visits: seq<Visit>, dc: bool, t: nat): (r: seq<nat>)
    requires sc.Valid()
    ensures |r| == |f|
    decreases |visits|
  {
    if visits == [] then f
    else
      var v := visits[0];
      var g := if UsesTable(sc, dc, t, v.comp) then Tally(f, BlockItems(sc.order, v.block, v.lastDc), dc) else f;
      TallyVisits(sc, g, visits[1..], dc, t)
  }

  /** The symbols coded with one table over all visits, in coding order. */
  ghost function CodedSymbols(sc: Scan, visits: seq<Visit>, dc: bool, t: nat): seq<nat>
    requires sc.Valid()
    decreases |visits|
  {
    if visits == [] then []
    else
      var v := visits[0];
      (if UsesTable(sc, dc, t, v.comp) then Symbols(BlockItems(sc.order, v.block, v.lastDc), dc) else [])
      + CodedSymbols(sc, visits[1..], dc, t)
  }

  /** Each symbol is counted exactly as often as it will be coded. */
  lemma {:induction false} CountsAreUses(sc: Scan, f: seq<nat>, visits: seq<Visit>, dc: bool, t: nat, s: nat)
    requires sc.Valid() && s < |f|
    ensures TallyVisits(sc, f, visits, dc, t)[s] == f[s] + multiset(CodedSymbols(sc, visits, dc, t))[s]
    decreases |visits|
  {
    if visits != [] {
      var v := visits[0];
      if UsesTable(sc, dc, t, v.comp) {
        var items := BlockItems(sc.order, v.block, v.lastDc);
        TallyCounts(f, items, dc, s);
        CountsAreUses(sc, Tally(f, items, dc), visits[1..], dc, t, s);
      } else {
        CountsAreUses(sc, f, visits[1..], dc, t, s);
      }
    }
  }

  lemma {:induction false} TallyVisitsConcat(sc: Scan, f: seq<nat>, a: seq<Visit>, b: seq<Visit>, dc: bool, t: nat)
    requires sc.Valid()
    ensures TallyVisits(sc, f, a + b, dc, t) == TallyVisits(sc, TallyVisits(sc, f, a, dc, t), b, dc, t)
    decreases |a|
  {
    if a == [] {
      assert a + b == b;
    } else {
      var v := a[0];
      assert (a + b)[0] == v && (a + b)[1..] == a[1..] + b;
      var g := if UsesTable(sc, dc, t, v.comp) then Tally(f, BlockItems(sc.order, v.block, v.lastDc), dc) else f;
      TallyVisitsConcat(sc, g, a[1..], b, dc, t);
    }
  }

  // ----- Counting one block -----

  /** counts[sym]++ */
  method CountSymbol(counts: array<nat>, it: Item)
    requires counts.Length == SYMBOLS && it.sym < SYMBOLS
    modifies counts
    ensures counts[..] == Bump(old(counts[..]), it, it.dc)
  {
    counts[it.sym] := counts[it.sym] + 1;
  }

  /** Counting the rest of the items leads from here to the whole tally. */
  ghost predicate AcLeft(f0: seq<nat>, all: seq<Item>, f: seq<nat>, items: seq<Item>) {
    Tally(f, items, false) == Tally(f0, all, false)
  }

  lemma AcLeftStep(f0: seq<nat>, all: seq<Item>, f: seq<nat>, it: Item, items: seq<Item>)
    requires AcLeft(f0, all, f, [it] + items)
    ensures AcLeft(f0, all, Bump(f, it, false), items)
  {
    assert ([it] + items)[1..] == items;
  }

  /** One nonzero coefficient after r0 zeros: the head of zz. */
  method CountCoefficient(counts: array<nat>, r0: nat, coef: int, ghost zz: seq<int>, ghost f0: seq<nat>, ghost all: seq<Item>)
    returns (ok: bool)
    requires counts.Length == SYMBOLS && zz != [] && zz[0] == coef != 0
    requires AcLeft(f0, all, counts[..], AcItems(zz, r0))
    modifies counts
    ensures ok <==> NBits(Abs(coef)) <= MAX_COEF_BITS
    ensures ok ==> AcLeft(f0, all, counts[..], AcItems(zz[1..], 0))
  {
    var r: nat := r0;
    while r > 15
      invariant AcLeft(f0, all, counts[..], AcItems(zz, r))
    {
      AcLeftStep(f0, all, counts[..], Item(false, ZRL, 0), AcItems(zz, r - 16));
      CountSymbol(counts, Item(false, ZRL, 0));
      r := r - 16;
    }
    var nbits := CountBitsNonzero(Abs(coef));
    ok := nbits <= MAX_COEF_BITS;
    if ok {
      var it := Item(false, 16 * r + nbits, coef);
      AcLeftStep(f0, all, counts[..], it, AcItems(zz[1..], 0));
      CountSymbol(counts, it);
    }
  }

  method CountAc(order: seq<nat>, block: Block, counts: array<nat>) returns (ok: bool)
    requires InBlock(order) && counts.Length == SYMBOLS
    modifies counts
    ensures ok <==> AcInRange(Zigzag(order, block))
    ensures ok ==> counts[..] == Tally(old(counts[..]), AcItems(Zigzag(order, block), 0), false)
  {
    ghost var zz := Zigzag(order, block);
    ghost var f0, all := counts[..], AcItems(zz, 0);
    var r, k := 0, 1;
    assert zz[0..] == zz;
    while k < DCT_SIZE2
      invariant 1 <= k <= DCT_SIZE2
      invariant AcLeft(f0, all, counts[..], AcItems(zz[k - 1..], r))
      invariant AcInRange(zz[k - 1..]) <==> AcInRange(zz)
    {
      var temp := block[order[k]];
      RangeStep(zz, k - 1);
      if temp == 0 {
        r := r + 1;
      } else {
        ok := CountCoefficient(counts, r, temp, zz[k - 1..], f0, all);
        if !ok {
          return;
        }
        r := 0;
      }
      k := k + 1;
    }
    assert zz[k - 1..] == [];
    if r > 0 {
      assert AcItems([], r) == [Item(false, EOB, 0)] + [];
      AcLeftStep(f0, all, counts[..], Item(false, EOB, 0), []);
      CountSymbol(counts, Item(false, EOB, 0));
    }
    ok := true;
  }

  lemma {:induction false} AcItemsAreAc(zz: seq<int>, r: nat)
    ensures forall f :: Tally(f, AcItems(zz, r), true) == f
    decreases |zz|, r
  {
    if zz == [] {
    } else if zz[0] == 0 {
      AcItemsAreAc(zz[1..], r + 1);
    } else if r > 15 {
      AcItemsAreAc(zz, r - 16);
    } else {
      AcItemsAreAc(zz[1..], 0);
    }
  }

  /** htest_one_block: counts the block's items, or fails when a coefficient is out of range. */
  method HtestOneBlock(order: seq<nat>, block: Block, lastDc: int, dcCounts: array<nat>, acCounts: array<nat>) returns (ok: bool)
    requires InBlock(order) && dcCounts != acCounts && dcCounts.Length == acCounts.Length == SYMBOLS
    modifies dcCounts, acCounts
    ensures ok <==> InRange(order, block, lastDc)
    ensures ok ==> dcCounts[..] == Tally(old(dcCounts[..]), BlockItems(order, block, lastDc), true)
    ensures ok ==> acCounts[..] == Tally(old(acCounts[..]), BlockItems(order, block, lastDc), false)
  {
    var diff := block[0] - lastDc;
    var nbits := CountBits(Abs(diff));
    if nbits > MAX_COEF_BITS + 1 {
      return false;
    }
    ghost var it, items := Item(true, nbits, diff), AcItems(Zigzag(order, block), 0);
    assert ([it] + items)[1..] == items;
    CountSymbol(dcCounts, Item(true, nbits, diff));
    ok := CountAc(order, block, acCounts);
    AcItemsAreAc(Zigzag(order, block), 0);
  }
}
