/** What the AC symbols of a block stand for, in the numbers of T.81 section F.1.2.2 and its table F.1. */
module BlockSymbols {
  import opened BitStrings
  import opened JpegTypes
  import opened BlockCode

  // ----- Sizes -----

  /** The size category of a coefficient or a difference: 0 for 0, and n for magnitudes from 2^(n-1) to 2^n - 1. */
  predicate HasSize(v: int, n: nat) {
    if v == 0 then n == 0 else n > 0 && (Pow2(n - 1) <= v < Pow2(n) || Pow2(n - 1) <= -v < Pow2(n))
  }

  lemma BitsIffSize(v: int, n: nat)
    ensures NBits(Abs(v)) == n <==> HasSize(v, n)
  {
    var m := NBits(Abs(v));
    NBitsBounds(Abs(v));
    if v != 0 && n > 0 {
      if m < n {
        Pow2Monotone(m, n - 1);
      } else if n < m {
        Pow2Monotone(n, m - 1);
      }
    }
  }

  lemma BitsIffBelow(v: int, n: nat)
    ensures NBits(Abs(v)) <= n <==> Abs(v) < Pow2(n)
  {
    var m := NBits(Abs(v));
    NBitsBounds(Abs(v));
    if m <= n {
      Pow2Monotone(m, n);
    } else {
      Pow2Monotone(n, m - 1);
    }
  }

  lemma PowersTo2048()
    ensures Pow2(10) == 1024 && Pow2(11) == 2048
  {
    assert Pow2(5) == 32;
    assert Pow2(10) == 1024;
  }

  /** The block is coded exactly when the difference is below 2048 and every AC coefficient below 1024 in magnitude. */
  lemma RangeIff(order: seq<nat>, block: Block, lastDc: int)
    requires InBlock(order)
    ensures InRange(order, block, lastDc) <==>
      -2048 < block[0] - lastDc < 2048 && forall k :: 1 <= k < 64 ==> -1024 < block[order[k]] < 1024
  {
    PowersTo2048();
    BitsIffBelow(block[0] - lastDc, 11);
    var zz := Zigzag(order, block);
    forall k | 0 <= k < 63 ensures NBits(Abs(zz[k])) <= 10 <==> -1024 < zz[k] < 1024 {
      BitsIffBelow(zz[k], 10);
    }
    forall k | 1 <= k < 64 ensures zz[k - 1] == block[order[k]] {
    }
  }

  /** The extra bits of a value of size n, as a number: the value, or the value plus 2^n - 1 when it is negative. */
  lemma ExtraNumber(v: int, n: nat)
    requires HasSize(v, n)
    ensures |Extra(v)| == n && FromBits(Extra(v)) == if v >= 0 then v else v + Pow2(n) - 1
  {
    BitsIffSize(v, n);
    var x := if v >= 0 then v else v - 1 + Pow2(n);
    FromToBits(x, n);
    ShlZero(n);
    SplitUnique(x, n, 0, x);
  }

  // ----- The symbols -----

  /** A symbol that may stand at position i: 0x00 at the end, 0xF0 before some coefficient, or a run of up to 15 and a size of 1 to 10. */
  ghost predicate LegalAt(items: seq<Item>, i: nat)
    requires i < |items|
  {
    var it := items[i];
    && !it.dc
    && ( || (it.sym == 0x00 && it.value == 0 && i == |items| - 1)
         || (it.sym == 0xF0 && it.value == 0 && exists j :: i < j < |items| && items[j].sym % 16 != 0)
         || (it.sym / 16 <= 15 && 1 <= it.sym % 16 <= 10))
  }

  ghost predicate Legal(items: seq<Item>) {
    forall i :: 0 <= i < |items| ==> LegalAt(items, i)
  }

  /** The first n coefficients, or all when there are fewer, are zero. */
  predicate ZerosTo(zz: seq<int>, n: nat) {
    forall k :: 0 <= k < n && k < |zz| ==> zz[k] == 0
  }

  /**
   The items stand for these coefficients: 0x00 for as many zeros as are left, 0xF0 for sixteen zeros,
   and 16 * run + size for a run of zeros and a coefficient of that size.
   */
  ghost predicate StandFor(items: seq<Item>, zz: seq<int>)
    decreases |items|
  {
    if items == [] then zz == []
    else if items[0].sym == 0x00 then |items| == 1 && zz != [] && ZerosTo(zz, |zz|)
    else if items[0].sym == 0xF0 then |zz| >= 16 && ZerosTo(zz, 16) && StandFor(items[1..], zz[16..])
    else
      var run := items[0].sym / 16;
      && run < |zz| && ZerosTo(zz, run) && zz[run] == items[0].value != 0
      && HasSize(zz[run], items[0].sym % 16) && StandFor(items[1..], zz[run + 1..])
  }

  // ----- The encoder's items stand for the coefficients -----

  lemma LegalFirst(it: Item, items: seq<Item>)
    requires Legal(items) && !it.dc
    requires (it.sym == 0xF0 && it.value == 0 && exists j :: 0 <= j < |items| && items[j].sym % 16 != 0)
      || (it.sym / 16 <= 15 && 1 <= it.sym % 16 <= 10)
    ensures Legal([it] + items)
  {
    var all := [it] + items;
    forall i | 0 <= i < |all| ensures LegalAt(all, i) {
      if i == 0 {
        if it.sym == 0xF0 && exists j :: 0 <= j < |items| && items[j].sym % 16 != 0 {
          var j :| 0 <= j < |items| && items[j].sym % 16 != 0;
          assert all[j + 1].sym % 16 != 0;
        }
      } else {
        LegalLater(it, items, i - 1);
      }
    }
  }

  lemma LegalLater(it: Item, items: seq<Item>, i: nat)
    requires i < |items| && LegalAt(items, i)
    ensures LegalAt([it] + items, i + 1)
  {
    var all := [it] + items;
    assert all[i + 1] == items[i];
    if items[i].sym == 0xF0 && exists j :: i < j < |items| && items[j].sym % 16 != 0 {
      var j :| i < j < |items| && items[j].sym % 16 != 0;
      assert all[j + 1].sym % 16 != 0;
    }
  }

  /** A coefficient of some size is still to come. */
  lemma {:induction false} CoefficientComes(zz: seq<int>, r: nat)
    requires AcInRange(zz) && exists k :: 0 <= k < |zz| && zz[k] != 0
    ensures exists j :: 0 <= j < |AcItems(zz, r)| && AcItems(zz, r)[j].sym % 16 != 0
    decreases |zz|, r
  {
    var items := AcItems(zz, r);
    if zz[0] == 0 {
      var k :| 0 <= k < |zz| && zz[k] != 0;
      assert zz[1..][k - 1] != 0;
      CoefficientComes(zz[1..], r + 1);
    } else if r > 15 {
      CoefficientComes(zz, r - 16);
      var j :| 0 <= j < |AcItems(zz, r - 16)| && AcItems(zz, r - 16)[j].sym % 16 != 0;
      assert items[j + 1] == AcItems(zz, r - 16)[j];
    } else {
      var n := NBits(Abs(zz[0]));
      NBitsBounds(Abs(zz[0]));
      RunSize(r, n);
      assert items[0].sym % 16 != 0;
    }
  }

  lemma {:induction false} ItemsLegal(zz: seq<int>, r: nat)
    requires AcInRange(zz)
    ensures Legal(AcItems(zz, r))
    decreases |zz|, r
  {
    if zz == [] {
    } else if zz[0] == 0 {
      ItemsLegal(zz[1..], r + 1);
    } else if r > 15 {
      ItemsLegal(zz, r - 16);
      CoefficientComes(zz, r - 16);
      LegalFirst(Item(false, 0xF0, 0), AcItems(zz, r - 16));
    } else {
      ItemsLegal(zz[1..], 0);
      var n := NBits(Abs(zz[0]));
      NBitsBounds(Abs(zz[0]));
      RunSize(r, n);
      LegalFirst(Item(false, 16 * r + n, zz[0]), AcItems(zz[1..], 0));
    }
  }

  lemma FirstRun(r: nat, v: int, items: seq<Item>, zz: seq<int>)
    requires v != 0 && r <= 15 && NBits(Abs(v)) <= 10 && StandFor(items, zz)
    ensures StandFor([Item(false, 16 * r + NBits(Abs(v)), v)] + items, Zeros(r) + [v] + zz)
  {
    var n := NBits(Abs(v));
    var all, whole := [Item(false, 16 * r + n, v)] + items, Zeros(r) + [v] + zz;
    NBitsBounds(Abs(v));
    RunSize(r, n);
    BitsIffSize(v, n);
    assert all[1..] == items && whole[r + 1..] == zz;
    assert forall k :: 0 <= k < r ==> whole[k] == Zeros(r)[k];
  }

  lemma FirstSixteen(items: seq<Item>, zz: seq<int>)
    requires StandFor(items, zz)
    ensures StandFor([Item(false, 0xF0, 0)] + items, Zeros(16) + zz)
  {
    var all, whole := [Item(false, 0xF0, 0)] + items, Zeros(16) + zz;
    assert all[1..] == items && whole[16..] == zz;
    assert forall k :: 0 <= k < 16 ==> whole[k] == Zeros(16)[k];
  }

  lemma EndStands(r: nat)
    ensures StandFor(AcItems([], r), Zeros(r))
  {
  }

  lemma RunStands(zz: seq<int>, r: nat)
    requires zz != [] && zz[0] != 0 && r <= 15 && AcInRange(zz) && StandFor(AcItems(zz[1..], 0), Zeros(0) + zz[1..])
    ensures StandFor(AcItems(zz, r), Zeros(r) + zz)
  {
    hide StandFor, NBits;
    FirstRun(r, zz[0], AcItems(zz[1..], 0), Zeros(0) + zz[1..]);
    RunJoins(zz, r);
  }

  lemma SixteenStand(zz: seq<int>, r: nat)
    requires zz != [] && zz[0] != 0 && r > 15 && StandFor(AcItems(zz, r - 16), Zeros(r - 16) + zz)
    ensures StandFor(AcItems(zz, r), Zeros(r) + zz)
  {
    hide StandFor;
    FirstSixteen(AcItems(zz, r - 16), Zeros(r - 16) + zz);
    assert Zeros(16) + (Zeros(r - 16) + zz) == Zeros(r) + zz;
  }

  lemma ZeroStands(zz: seq<int>, r: nat)
    requires zz != [] && zz[0] == 0 && StandFor(AcItems(zz[1..], r + 1), Zeros(r + 1) + zz[1..])
    ensures StandFor(AcItems(zz, r), Zeros(r) + zz)
  {
    hide StandFor;
    assert Zeros(r) + zz == Zeros(r + 1) + zz[1..];
  }

  lemma {:induction false} ItemsStand(zz: seq<int>, r: nat)
    requires AcInRange(zz)
    ensures StandFor(AcItems(zz, r), Zeros(r) + zz)
    decreases |zz|, r
  {
    hide StandFor, AcItems;
    if zz == [] {
      assert Zeros(r) + zz == Zeros(r);
      EndStands(r);
    } else if zz[0] == 0 {
      ItemsStand(zz[1..], r + 1);
      ZeroStands(zz, r);
    } else if r > 15 {
      ItemsStand(zz, r - 16);
      SixteenStand(zz, r);
    } else {
      ItemsStand(zz[1..], 0);
      RunStands(zz, r);
    }
  }

  // ----- No other legal items do -----

  lemma {:induction false} SkipZeros(zz: seq<int>, a: nat, r: nat)
    requires a <= |zz| && ZerosTo(zz, a)
    ensures AcItems(zz, r) == AcItems(zz[a..], r + a)
    decreases a
  {
    if a > 0 {
      SkipZeros(zz[1..], a - 1, r + 1);
      assert zz[1..][a - 1..] == zz[a..];
    } else {
      assert zz[0..] == zz;
    }
  }

  /** Sixteen more zeros before a coefficient take one more symbol. */
  lemma {:induction false} SixteenMore(zz: seq<int>, r: nat)
    requires exists k :: 0 <= k < |zz| && zz[k] != 0
    ensures AcItems(zz, r + 16) == [Item(false, ZRL, 0)] + AcItems(zz, r)
    decreases |zz|
  {
    if zz[0] == 0 {
      var k :| 0 <= k < |zz| && zz[k] != 0;
      assert zz[1..][k - 1] != 0;
      SixteenMore(zz[1..], r + 1);
    } else {
      assert r + 16 - 16 == r;
    }
  }

  lemma LegalRest(items: seq<Item>)
    requires Legal(items) && items != []
    ensures Legal(items[1..])
  {
    var rest := items[1..];
    forall i | 0 <= i < |rest| ensures LegalAt(rest, i) {
      assert LegalAt(items, i + 1);
      if items[i + 1].sym == 0xF0 && exists j :: i + 1 < j < |items| && items[j].sym % 16 != 0 {
        var j :| i + 1 < j < |items| && items[j].sym % 16 != 0;
        assert rest[j - 1] == items[j];
      }
    }
  }

  lemma {:induction false} SomeCoefficient(items: seq<Item>, zz: seq<int>, j: nat)
    requires StandFor(items, zz) && j < |items| && items[j].sym % 16 != 0
    ensures exists k :: 0 <= k < |zz| && zz[k] != 0
    decreases |items|
  {
    if j > 0 {
      var d := if items[0].sym == 0xF0 then 16 else items[0].sym / 16 + 1;
      assert items[1..][j - 1] == items[j];
      SomeCoefficient(items[1..], zz[d..], j - 1);
      var k :| 0 <= k < |zz[d..]| && zz[d..][k] != 0;
      assert zz[d + k] != 0;
    } else {
      var run := items[0].sym / 16;
      assert zz[run] != 0;
    }
  }

  lemma {:induction false} OnlyItems(items: seq<Item>, zz: seq<int>)
    requires Legal(items) && StandFor(items, zz)
    ensures items == AcItems(zz, 0)
    decreases |items|
  {
    if items == [] {
    } else if items[0].sym == 0x00 {
      assert LegalAt(items, 0);
      assert zz[|zz|..] == [];
      SkipZeros(zz, |zz|, 0);
    } else {
      LegalRest(items);
      if items[0].sym == 0xF0 {
        OnlyItems(items[1..], zz[16..]);
        OnlySixteen(items, zz);
      } else {
        OnlyItems(items[1..], zz[items[0].sym / 16 + 1..]);
        OnlyRun(items, zz);
      }
    }
  }

  lemma OnlySixteen(items: seq<Item>, zz: seq<int>)
    requires Legal(items) && items != [] && items[0].sym == 0xF0 && StandFor(items, zz) && |zz| >= 16
    requires items[1..] == AcItems(zz[16..], 0)
    ensures items == AcItems(zz, 0)
  {
    hide AcItems, StandFor;
    SixteenParts(items, zz);
    assert LegalAt(items, 0);
    var j :| 0 < j < |items| && items[j].sym % 16 != 0;
    assert items[1..][j - 1] == items[j];
    SomeCoefficient(items[1..], zz[16..], j - 1);
    SkipZeros(zz, 16, 0);
    SixteenMore(zz[16..], 0);
    assert items == [items[0]] + items[1..];
  }

  lemma SixteenParts(items: seq<Item>, zz: seq<int>)
    requires items != [] && items[0].sym == 0xF0 && StandFor(items, zz)
    ensures |zz| >= 16 && ZerosTo(zz, 16) && StandFor(items[1..], zz[16..])
  {
  }

  lemma OnlyRun(items: seq<Item>, zz: seq<int>)
    requires Legal(items) && items != [] && items[0].sym != 0x00 && items[0].sym != 0xF0 && StandFor(items, zz)
    requires items[1..] == AcItems(zz[items[0].sym / 16 + 1..], 0)
    ensures items == AcItems(zz, 0)
  {
    assert LegalAt(items, 0);
    var run, size := items[0].sym / 16, items[0].sym % 16;
    SkipZeros(zz, run, 0);
    assert zz[run..][0] == zz[run] && zz[run..][1..] == zz[run + 1..];
    BitsIffSize(zz[run], size);
    assert items == [items[0]] + items[1..];
  }

  // ----- The end of the block -----

  lemma {:induction false} LastItem(items: seq<Item>, zz: seq<int>)
    requires Legal(items) && StandFor(items, zz)
    ensures items == [] <==> zz == []
    ensures items != [] ==> (items[|items| - 1].sym == 0x00 <==> zz[|zz| - 1] == 0)
    decreases |items|
  {
    if items != [] && items[0].sym != 0x00 {
      LegalRest(items);
      assert LegalAt(items, 0);
      var d := if items[0].sym == 0xF0 then 16 else items[0].sym / 16 + 1;
      LastItem(items[1..], zz[d..]);
    }
  }

  lemma EndSymbol(items: seq<Item>, zz: seq<int>)
    requires Legal(items) && StandFor(items, zz)
    ensures (exists i :: 0 <= i < |items| && items[i].sym == 0x00) <==> zz != [] && zz[|zz| - 1] == 0
  {
    hide StandFor;
    LastItem(items, zz);
    if i :| 0 <= i < |items| && items[i].sym == 0x00 {
      assert LegalAt(items, i);
    }
  }

  lemma InRangeBits(zz: seq<int>)
    requires forall k :: 0 <= k < |zz| ==> -1024 < zz[k] < 1024
    ensures AcInRange(zz)
  {
    PowersTo2048();
    forall k | 0 <= k < |zz| ensures NBits(Abs(zz[k])) <= 10 {
      BitsIffBelow(zz[k], 10);
    }
  }

  /**
   The AC items of a block in range. They are legal and stand for its coefficients, and no other legal items do;
   0x00 is among them, at the end, exactly when the last coefficient is zero.
   */
  lemma ItemsIff(zz: seq<int>, items: seq<Item>)
    requires forall k :: 0 <= k < |zz| ==> -1024 < zz[k] < 1024
    ensures items == AcItems(zz, 0) <==> Legal(items) && StandFor(items, zz)
    ensures (exists i :: 0 <= i < |AcItems(zz, 0)| && AcItems(zz, 0)[i].sym == 0x00) <==> zz != [] && zz[|zz| - 1] == 0
  {
    hide AcItems, StandFor, Legal;
    InRangeBits(zz);
    ItemsLegal(zz, 0);
    ItemsStand(zz, 0);
    assert Zeros(0) + zz == zz;
    EndSymbol(AcItems(zz, 0), zz);
    if Legal(items) && StandFor(items, zz) {
      OnlyItems(items, zz);
    }
  }

  /** The items of a whole block: the size of the DC difference, and the AC items of the rest in zigzag order. */
  lemma BlockItemsIff(order: seq<nat>, block: Block, lastDc: int, items: seq<Item>)
    requires InBlock(order) && InRange(order, block, lastDc)
    ensures items == BlockItems(order, block, lastDc) <==>
      && items != [] && items[0].dc && items[0].value == block[0] - lastDc && HasSize(block[0] - lastDc, items[0].sym)
      && Legal(items[1..]) && StandFor(items[1..], Zigzag(order, block))
  {
    hide AcItems, StandFor, Legal, HasSize;
    RangeIff(order, block, lastDc);
    if items != [] {
      ItemsIff(Zigzag(order, block), items[1..]);
      BitsIffSize(block[0] - lastDc, items[0].sym);
      assert items == [items[0]] + items[1..];
      ItemsTail(order, block, lastDc);
    }
  }

  lemma ItemsTail(order: seq<nat>, block: Block, lastDc: int)
    requires InBlock(order)
    ensures BlockItems(order, block, lastDc)[1..] == AcItems(Zigzag(order, block), 0)
  {
  }
}
