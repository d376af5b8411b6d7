/**
 One block of coefficients as Huffman symbols with extra bits (T.81 sections F.1.2.1 and F.1.2.2),
 and the decoding procedures that read it back (sections F.2.2.1 to F.2.2.4).
 */
module BlockCode {
  import opened BitStrings
  import opened JpegTypes
  import opened HuffmanTable

  const MAX_COEF_BITS := 10
  const EOB := 0
  const ZRL := 0xF0

  // ----- Magnitudes -----

  function Abs(v: int): nat {
    if v < 0 then -v else v
  }

  /** The number of bits needed for a magnitude. */
  function NBits(v: nat): nat {
    if v == 0 then 0 else 1 + NBits(v / 2)
  }

  /** The low-order bits of v when positive, of v - 1 in two's complement when negative. */
  function Extra(v: int): (s: seq<bool>)
    ensures |s| == NBits(Abs(v))
  {
    var n := NBits(Abs(v));
    if v >= 0 then ToBits(v, n)
    else
      NBitsBounds(-v);
      ToBits(v - 1 + Pow2(n), n)
  }

  lemma {:induction false} NBitsBounds(v: nat)
    ensures v < Pow2(NBits(v))
    ensures v > 0 ==> NBits(v) > 0 && Pow2(NBits(v) - 1) <= v
  {
    if v > 0 {
      NBitsBounds(v / 2);
    }
  }

  // ----- The symbols of a block -----

  /** A Huffman symbol of the DC or the AC table, and the value whose extra bits follow it. */
  datatype Item = Item(dc: bool, sym: nat, value: int)

  predicate InBlock(order: seq<nat>) {
    |order| == DCT_SIZE2 && forall k :: 0 <= k < DCT_SIZE2 ==> order[k] < DCT_SIZE2
  }

  /** A zigzag order: a bijection on 0..63 that fixes 0. */
  ghost predicate IsZigzag(order: seq<nat>) {
    && InBlock(order) && order[0] == 0
    && (forall j, k :: 0 <= j < k < DCT_SIZE2 ==> order[j] != order[k])
    && (forall i :: 0 <= i < DCT_SIZE2 ==> i in order)
  }

  /** The AC coefficients in zigzag order. */
  function Zigzag(order: seq<nat>, block: Block): (zz: seq<int>)
    requires InBlock(order)
    ensures |zz| == DCT_SIZE2 - 1
    ensures forall k :: 0 <= k < |zz| ==> zz[k] == block[order[k + 1]]
  {
    seq(DCT_SIZE2 - 1, k requires 0 <= k < DCT_SIZE2 - 1 => block[order[k + 1]])
  }

  /** Run-length coding of the remaining coefficients zz after r zeros. */
  function AcItems(zz: seq<int>, r: nat): seq<Item>
    decreases |zz|, r
  {
    if zz == [] then (if r > 0 then [Item(false, EOB, 0)] else [])
    else if zz[0] == 0 then AcItems(zz[1..], r + 1)
    else if r > 15 then [Item(false, ZRL, 0)] + AcItems(zz, r - 16)
    else [Item(false, 16 * r + NBits(Abs(zz[0])), zz[0])] + AcItems(zz[1..], 0)
  }

  function BlockItems(order: seq<nat>, block: Block, lastDc: int): seq<Item>
    requires InBlock(order)
  {
    var diff := block[0] - lastDc;
    [Item(true, NBits(Abs(diff)), diff)] + AcItems(Zigzag(order, block), 0)
  }

  predicate AcInRange(zz: seq<int>) {
    forall k :: 0 <= k < |zz| ==> NBits(Abs(zz[k])) <= MAX_COEF_BITS
  }

  predicate InRange(order: seq<nat>, block: Block, lastDc: int)
    requires InBlock(order)
  {
    NBits(Abs(block[0] - lastDc)) <= MAX_COEF_BITS + 1 && AcInRange(Zigzag(order, block))
  }

  /** Symbol it can be coded: its table gives it a code. */
  predicate HasCode(dct: Derived, act: Derived, it: Item)
    requires dct.WellTyped() && act.WellTyped()
  {
    it.sym < 256 && (if it.dc then dct else act).size[it.sym] > 0
  }

  predicate HaveCodes(dct: Derived, act: Derived, items: seq<Item>)
    requires dct.WellTyped() && act.WellTyped()
  {
    forall i :: 0 <= i < |items| ==> HasCode(dct, act, items[i])
  }

  function ItemBits(dct: Derived, act: Derived, it: Item): seq<bool>
    requires dct.WellTyped() && act.WellTyped()
  {
    var d := if it.dc then dct else act;
    if it.sym < 256 then ToBits(d.code[it.sym], d.size[it.sym]) + Extra(it.value) else []
  }

  function ItemsBits(dct: Derived, act: Derived, items: seq<Item>): seq<bool>
    requires dct.WellTyped() && act.WellTyped()
  {
    if items == [] then [] else ItemBits(dct, act, items[0]) + ItemsBits(dct, act, items[1..])
  }

  lemma {:induction false} ItemsBitsConcat(dct: Derived, act: Derived, a: seq<Item>, b: seq<Item>)
    requires dct.WellTyped() && act.WellTyped()
    ensures ItemsBits(dct, act, a + b) == ItemsBits(dct, act, a) + ItemsBits(dct, act, b)
  {
    if a == [] {
      assert a + b == b;
    } else {
      assert (a + b)[1..] == a[1..] + b;
      ItemsBitsConcat(dct, act, a[1..], b);
      var x := ItemBits(dct, act, a[0]);
      assert x + (ItemsBits(dct, act, a[1..]) + ItemsBits(dct, act, b)) == x + ItemsBits(dct, act, a[1..]) + ItemsBits(dct, act, b);
    }
  }

  /** EOB, ZRL, or a run/size pair of a coefficient in range. */
  predicate AcSymbol(it: Item) {
    !it.dc && (it.sym == EOB || it.sym == ZRL || (it.sym < 256 && 1 <= it.sym % 16 <= MAX_COEF_BITS))
  }

  /** The AC symbols of in-range coefficients; there is at least one. */
  lemma {:induction false} AcSymbols(zz: seq<int>, r: nat)
    requires AcInRange(zz)
    ensures forall i :: 0 <= i < |AcItems(zz, r)| ==> AcSymbol(AcItems(zz, r)[i])
    ensures zz != [] || r > 0 ==> |AcItems(zz, r)| > 0
    decreases |zz|, r
  {
    if zz == [] {
    } else if zz[0] == 0 {
      AcSymbols(zz[1..], r + 1);
    } else if r > 15 {
      AcSymbols(zz, r - 16);
    } else {
      var n := NBits(Abs(zz[0]));
      NBitsBounds(Abs(zz[0]));
      AcSymbols(zz[1..], 0);
      RunSize(r, n);
      assert AcSymbol(Item(false, 16 * r + n, zz[0]));
    }
  }

  lemma RunSize(r: nat, n: nat)
    requires n < 16
    ensures (16 * r + n) / 16 == r && (16 * r + n) % 16 == n
  {
  }

  // ----- Decoding -----

  /** RECEIVE and EXTEND: n extra bits as a signed value; no bits mean zero. */
  function DecodeValue(s: seq<bool>, n: nat): Decoded<int> {
    if n == 0 then Got(0, s)
    else if |s| < n then Corrupt
    else Got(Extend(FromBits(s[..n]), n), s[n..])
  }

  function Extend(x: nat, n: nat): int
    requires n > 0
  {
    if x < Pow2(n - 1) then x - Pow2(n) + 1 else x
  }

  /** The DECODE procedure of one table: the next symbol of a bit string. */
  type Reader = seq<bool> -> Decoded<nat>

  function TableReader(t: HuffTable): Reader
    requires t.WellTyped()
  {
    s => DecodeSymbol(t, s, 1)
  }

  /** Decode_AC_coefficients for the n coefficients that remain, in zigzag order. */
  function DecodeAc(ac: Reader, s: seq<bool>, n: nat): (r: Decoded<seq<int>>)
    ensures r.Got? ==> |r.value| == n
    decreases n, 1
  {
    if n == 0 then Got([], s)
    else
      var sym := ac(s);
      if sym.Corrupt? then Corrupt
      else if sym.value % 16 != 0 then DecodeRun(ac, sym.rest, n, sym.value / 16, sym.value % 16)
      else if sym.value / 16 != 15 || n < 16 then Got(Zeros(n), sym.rest)
      else
        var later := DecodeAc(ac, sym.rest, n - 16);
        if later.Corrupt? then Corrupt else Got(Zeros(16) + later.value, later.rest)
  }

  /** A run of zeros, a coefficient of the given size, and the rest. */
  function DecodeRun(ac: Reader, s: seq<bool>, n: nat, run: nat, size: nat): (r: Decoded<seq<int>>)
    ensures r.Got? ==> |r.value| == n
    decreases n, 0
  {
    if run >= n then Corrupt
    else
      var v := DecodeValue(s, size);
      if v.Corrupt? then Corrupt
      else
        var later := DecodeAc(ac, v.rest, n - run - 1);
        if later.Corrupt? then Corrupt else Got(Zeros(run) + [v.value] + later.value, later.rest)
  }

  function Zeros(n: nat): (z: seq<int>)
    ensures |z| == n && forall i :: 0 <= i < n ==> z[i] == 0
  {
    seq(n, _ => 0)
  }

  /** Store the coefficients from zigzag position k on into the block. */
  function Place(order: seq<nat>, zz: seq<int>, k: nat, block: Block): Block
    requires InBlock(order)
    requires |zz| == DCT_SIZE2 - 1 && 1 <= k <= DCT_SIZE2
    decreases DCT_SIZE2 - k
  {
    if k == DCT_SIZE2 then block else Place(order, zz, k + 1, block[order[k] := zz[k - 1]])
  }

  /** A block of zeros except for its DC coefficient. */
  function Blank(dc: int): (b: Block)
    ensures b[0] == dc && forall i :: 1 <= i < DCT_SIZE2 ==> b[i] == 0
  {
    [dc] + Zeros(DCT_SIZE2 - 1)
  }

  function DecodeBlock(order: seq<nat>, dc: Reader, ac: Reader, lastDc: int, s: seq<bool>): Decoded<Block>
    requires InBlock(order)
  {
    var size := dc(s);
    if size.Corrupt? then Corrupt
    else
      var diff := DecodeValue(size.rest, size.value);
      if diff.Corrupt? then Corrupt
      else
        var zz := DecodeAc(ac, diff.rest, DCT_SIZE2 - 1);
        if zz.Corrupt? then Corrupt
        else Got(Place(order, zz.value, 1, Blank(lastDc + diff.value)), zz.rest)
  }

  // ----- Round trip of one block -----

  lemma ValueRoundTrip(v: int, rest: seq<bool>)
    ensures DecodeValue(Extra(v) + rest, NBits(Abs(v))) == Got(v, rest)
  {
    var n := NBits(Abs(v));
    var s := Extra(v) + rest;
    assert s[..n] == Extra(v) && s[n..] == rest;
    NBitsBounds(Abs(v));
    var x := if v >= 0 then v else v - 1 + Pow2(n);
    FromToBits(x, n);
    ShlZero(n);
    SplitUnique(x, n, 0, x);
  }

  ghost predicate Reads(read: Reader, d: Derived, v: nat, rest: seq<bool>)
    requires d.WellTyped() && v < 256
  {
    read(ToBits(d.code[v], d.size[v]) + rest) == Got(v, rest)
  }

  /** The reader takes back every code word of d, whatever follows it. */
  ghost predicate Readable(read: Reader, d: Derived) {
    && d.WellTyped()
    && forall v: nat, rest :: v < 256 && d.size[v] > 0 ==> Reads(read, d, v, rest)
  }

  /** A table the encoder accepted and derived its codes from is readable. */
  lemma DerivedReadable(isDC: bool, t: HuffTable, d: Derived)
    requires t.WellTyped() && Acceptable(isDC, t) && Derives(t, d)
    ensures Readable(TableReader(t), d)
  {
    forall v: nat, rest | v < 256 && d.size[v] > 0 ensures Reads(TableReader(t), d, v, rest) {
      DecodeEncoded(isDC, t, d, v, rest);
    }
  }

  lemma AcItemDecodes(ac: Reader, dct: Derived, act: Derived, it: Item, rest: seq<bool>)
    requires Readable(ac, act) && dct.WellTyped() && !it.dc && HasCode(dct, act, it)
    ensures ac(ItemBits(dct, act, it) + rest) == Got(it.sym, Extra(it.value) + rest)
  {
    var w, x := ToBits(act.code[it.sym], act.size[it.sym]), Extra(it.value) + rest;
    assert Reads(ac, act, it.sym, x);
    assert w + Extra(it.value) + rest == w + x;
  }

  /** A ZRL symbol reads as sixteen zeros. */
  lemma ZrlStep(ac: Reader, dct: Derived, act: Derived, tail: seq<bool>, m: nat, later: seq<int>, rest: seq<bool>)
    requires Readable(ac, act) && dct.WellTyped() && HasCode(dct, act, Item(false, ZRL, 0))
    requires DecodeAc(ac, tail, m) == Got(later, rest)
    ensures DecodeAc(ac, ItemBits(dct, act, Item(false, ZRL, 0)) + tail, m + 16) == Got(Zeros(16) + later, rest)
  {
    AcItemDecodes(ac, dct, act, Item(false, ZRL, 0), tail);
    assert Extra(0) + tail == tail;
    assert m + 16 - 16 == m;
  }

  lemma CoefficientReads(ac: Reader, r: nat, v: int, tail: seq<bool>, m: nat, later: seq<int>, rest: seq<bool>)
    requires DecodeAc(ac, tail, m) == Got(later, rest)
    ensures DecodeRun(ac, Extra(v) + tail, r + 1 + m, r, NBits(Abs(v))) == Got(Zeros(r) + [v] + later, rest)
  {
    ValueRoundTrip(v, tail);
    assert r + 1 + m - r - 1 == m;
  }

  /** A run/size symbol with its extra bits reads as the run of zeros and the coefficient. */
  lemma RunStep(ac: Reader, dct: Derived, act: Derived, r: nat, v: int, tail: seq<bool>, m: nat, later: seq<int>, rest: seq<bool>)
    requires Readable(ac, act) && dct.WellTyped()
    requires v != 0 && NBits(Abs(v)) <= MAX_COEF_BITS
    requires HasCode(dct, act, Item(false, 16 * r + NBits(Abs(v)), v))
    requires DecodeAc(ac, tail, m) == Got(later, rest)
    ensures DecodeAc(ac, ItemBits(dct, act, Item(false, 16 * r + NBits(Abs(v)), v)) + tail, r + 1 + m)
      == Got(Zeros(r) + [v] + later, rest)
  {
    var size := NBits(Abs(v));
    NBitsBounds(Abs(v));
    RunSize(r, size);
    AcItemDecodes(ac, dct, act, Item(false, 16 * r + size, v), tail);
    CoefficientReads(ac, r, v, tail, m, later, rest);
  }

  /** The first of several items, apart from the others and from whatever follows. */
  lemma FirstItem(dct: Derived, act: Derived, it: Item, items: seq<Item>, rest: seq<bool>)
    requires dct.WellTyped() && act.WellTyped() && HaveCodes(dct, act, [it] + items)
    ensures HasCode(dct, act, it) && HaveCodes(dct, act, items)
    ensures ItemsBits(dct, act, [it] + items) + rest == ItemBits(dct, act, it) + (ItemsBits(dct, act, items) + rest)
  {
    var all := [it] + items;
    assert all[0] == it && all[1..] == items;
    forall i | 0 <= i < |items| ensures HasCode(dct, act, items[i]) {
      assert items[i] == all[i + 1];
    }
    var x, y := ItemBits(dct, act, it), ItemsBits(dct, act, items);
    assert x + y + rest == x + (y + rest);
  }

  ghost predicate AcReadsBack(ac: Reader, dct: Derived, act: Derived, zz: seq<int>, r: nat, rest: seq<bool>)
    requires dct.WellTyped() && act.WellTyped()
  {
    DecodeAc(ac, ItemsBits(dct, act, AcItems(zz, r)) + rest, r + |zz|) == Got(Zeros(r) + zz, rest)
  }

  lemma AcZrlCase(ac: Reader, dct: Derived, act: Derived, zz: seq<int>, r: nat, rest: seq<bool>)
    requires Readable(ac, act) && dct.WellTyped()
    requires zz != [] && zz[0] != 0 && r > 15 && HaveCodes(dct, act, AcItems(zz, r))
    requires AcReadsBack(ac, dct, act, zz, r - 16, rest)
    ensures AcReadsBack(ac, dct, act, zz, r, rest)
  {
    var it, items := Item(false, ZRL, 0), AcItems(zz, r - 16);
    FirstItem(dct, act, it, items, rest);
    var y := ItemsBits(dct, act, items);
    ZrlStep(ac, dct, act, y + rest, r - 16 + |zz|, Zeros(r - 16) + zz, rest);
    assert r - 16 + |zz| + 16 == r + |zz|;
    assert Zeros(16) + (Zeros(r - 16) + zz) == Zeros(r) + zz;
  }

  lemma AcRunCase(ac: Reader, dct: Derived, act: Derived, zz: seq<int>, r: nat, rest: seq<bool>)
    requires Readable(ac, act) && dct.WellTyped() && AcInRange(zz)
    requires zz != [] && zz[0] != 0 && r <= 15 && HaveCodes(dct, act, AcItems(zz, r))
    requires AcReadsBack(ac, dct, act, zz[1..], 0, rest)
    ensures AcReadsBack(ac, dct, act, zz, r, rest)
  {
    var it, items := Item(false, 16 * r + NBits(Abs(zz[0])), zz[0]), AcItems(zz[1..], 0);
    FirstItem(dct, act, it, items, rest);
    var y := ItemsBits(dct, act, items);
    var m, later := |zz[1..]|, Zeros(0) + zz[1..];
    assert 0 + m == m;
    RunStep(ac, dct, act, r, zz[0], y + rest, m, later, rest);
    assert r + 1 + m == r + |zz|;
    RunJoins(zz, r);
  }

  lemma RunJoins(zz: seq<int>, r: nat)
    requires zz != []
    ensures Zeros(r) + [zz[0]] + (Zeros(0) + zz[1..]) == Zeros(r) + zz
  {
  }

  /** Decoding the coded run-lengths gives back the r zeros seen before zz, and zz. */
  lemma {:induction false} AcRoundTrip(ac: Reader, dct: Derived, act: Derived, zz: seq<int>, r: nat, rest: seq<bool>)
    requires Readable(ac, act) && dct.WellTyped()
    requires AcInRange(zz) && HaveCodes(dct, act, AcItems(zz, r))
    ensures AcReadsBack(ac, dct, act, zz, r, rest)
    decreases |zz|, r
  {
    hide DecodeAc, ItemsBits;
    if zz == [] {
      AcRoundTripEnd(ac, dct, act, r, rest);
      assert Zeros(r) + zz == Zeros(r);
    } else if zz[0] == 0 {
      AcRoundTrip(ac, dct, act, zz[1..], r + 1, rest);
      assert r + 1 + |zz[1..]| == r + |zz|;
      assert Zeros(r) + zz == Zeros(r + 1) + zz[1..];
    } else if r > 15 {
      FirstItem(dct, act, Item(false, ZRL, 0), AcItems(zz, r - 16), rest);
      AcRoundTrip(ac, dct, act, zz, r - 16, rest);
      AcZrlCase(ac, dct, act, zz, r, rest);
    } else {
      FirstItem(dct, act, Item(false, 16 * r + NBits(Abs(zz[0])), zz[0]), AcItems(zz[1..], 0), rest);
      AcRoundTrip(ac, dct, act, zz[1..], 0, rest);
      AcRunCase(ac, dct, act, zz, r, rest);
    }
  }

  lemma AcRoundTripEnd(ac: Reader, dct: Derived, act: Derived, r: nat, rest: seq<bool>)
    requires Readable(ac, act) && dct.WellTyped() && HaveCodes(dct, act, AcItems([], r))
    ensures DecodeAc(ac, ItemsBits(dct, act, AcItems([], r)) + rest, r) == Got(Zeros(r), rest)
  {
    if r > 0 {
      var it := Item(false, EOB, 0);
      assert AcItems([], r) == [it] + [];
      FirstItem(dct, act, it, [], rest);
      AcItemDecodes(ac, dct, act, it, rest);
      assert ItemBits(dct, act, it) + [] == ItemBits(dct, act, it);
      assert Extra(0) + rest == rest;
    } else {
      assert ItemsBits(dct, act, []) + rest == rest;
      assert Zeros(0) == [];
    }
  }

  /** Placing the zigzag coefficients of a block rebuilds it. */
  lemma {:induction false} PlaceRebuilds(order: seq<nat>, block: Block, k: nat, partial: Block)
    requires IsZigzag(order) && 1 <= k <= DCT_SIZE2
    requires forall j :: 0 <= j < k ==> partial[order[j]] == block[order[j]]
    ensures Place(order, Zigzag(order, block), k, partial) == block
    decreases DCT_SIZE2 - k
  {
    if k == DCT_SIZE2 {
      forall i | 0 <= i < DCT_SIZE2 ensures partial[i] == block[i] {
        assert i in order;
      }
    } else {
      PlaceRebuilds(order, block, k + 1, partial[order[k] := Zigzag(order, block)[k - 1]]);
    }
  }

  lemma DcDecodes(dc: Reader, dct: Derived, act: Derived, diff: int, tail: seq<bool>)
    requires Readable(dc, dct) && act.WellTyped() && HasCode(dct, act, Item(true, NBits(Abs(diff)), diff))
    ensures var size := dc(ItemBits(dct, act, Item(true, NBits(Abs(diff)), diff)) + tail);
      size.Got? && DecodeValue(size.rest, size.value) == Got(diff, tail)
  {
    var n := NBits(Abs(diff));
    var w, x := ToBits(dct.code[n], dct.size[n]), Extra(diff) + tail;
    assert Reads(dc, dct, n, x);
    assert w + Extra(diff) + tail == w + x;
    ValueRoundTrip(diff, tail);
  }

  lemma BlockBits(order: seq<nat>, dct: Derived, act: Derived, block: Block, lastDc: int, rest: seq<bool>)
    requires InBlock(order) && dct.WellTyped() && act.WellTyped()
    requires HaveCodes(dct, act, BlockItems(order, block, lastDc))
    ensures var diff := block[0] - lastDc;
      var it, items := Item(true, NBits(Abs(diff)), diff), AcItems(Zigzag(order, block), 0);
      && HasCode(dct, act, it) && HaveCodes(dct, act, items)
      && ItemsBits(dct, act, BlockItems(order, block, lastDc)) + rest == ItemBits(dct, act, it) + (ItemsBits(dct, act, items) + rest)
  {
    var diff := block[0] - lastDc;
    var it, items := Item(true, NBits(Abs(diff)), diff), AcItems(Zigzag(order, block), 0);
    FirstItem(dct, act, it, items, rest);
  }

  lemma ItemsRead(order: seq<nat>, dc: Reader, ac: Reader, dct: Derived, act: Derived,
                  diff: int, zz: seq<int>, lastDc: int, rest: seq<bool>)
    requires InBlock(order) && Readable(dc, dct) && Readable(ac, act) && |zz| == DCT_SIZE2 - 1 && AcInRange(zz)
    requires HasCode(dct, act, Item(true, NBits(Abs(diff)), diff)) && HaveCodes(dct, act, AcItems(zz, 0))
    ensures DecodeBlock(order, dc, ac, lastDc,
        ItemBits(dct, act, Item(true, NBits(Abs(diff)), diff)) + (ItemsBits(dct, act, AcItems(zz, 0)) + rest))
      == Got(Place(order, zz, 1, Blank(lastDc + diff)), rest)
  {
    var x, tail := ItemBits(dct, act, Item(true, NBits(Abs(diff)), diff)), ItemsBits(dct, act, AcItems(zz, 0)) + rest;
    DcDecodes(dc, dct, act, diff, tail);
    WholeAc(ac, dct, act, zz, rest);
    DecodeSteps(order, dc, ac, lastDc, x + tail, diff, tail, zz, rest);
  }

  /** Block round trip: whatever follows, the coded block decodes to itself. */
  lemma BlockRoundTrip(order: seq<nat>, dc: Reader, ac: Reader, dct: Derived, act: Derived,
                       block: Block, lastDc: int, rest: seq<bool>)
    requires IsZigzag(order) && Readable(dc, dct) && Readable(ac, act)
    requires InRange(order, block, lastDc) && HaveCodes(dct, act, BlockItems(order, block, lastDc))
    ensures DecodeBlock(order, dc, ac, lastDc, ItemsBits(dct, act, BlockItems(order, block, lastDc)) + rest) == Got(block, rest)
  {
    hide AcItems, ItemsBits, ItemBits, DecodeBlock, Place, HasCode;
    BlockBits(order, dct, act, block, lastDc, rest);
    ItemsRead(order, dc, ac, dct, act, block[0] - lastDc, Zigzag(order, block), lastDc, rest);
    Rebuilt(order, block);
  }

  lemma WholeAc(ac: Reader, dct: Derived, act: Derived, zz: seq<int>, rest: seq<bool>)
    requires Readable(ac, act) && dct.WellTyped()
    requires AcInRange(zz) && HaveCodes(dct, act, AcItems(zz, 0))
    ensures DecodeAc(ac, ItemsBits(dct, act, AcItems(zz, 0)) + rest, |zz|) == Got(zz, rest)
  {
    AcRoundTrip(ac, dct, act, zz, 0, rest);
    assert 0 + |zz| == |zz|;
    assert Zeros(0) + zz == zz;
  }

  lemma Rebuilt(order: seq<nat>, block: Block)
    requires IsZigzag(order)
    ensures Place(order, Zigzag(order, block), 1, Blank(block[0])) == block
  {
    PlaceRebuilds(order, block, 1, Blank(block[0]));
  }

  lemma DecodeSteps(order: seq<nat>, dc: Reader, ac: Reader, lastDc: int, s: seq<bool>,
                    diff: int, s1: seq<bool>, zz: seq<int>, rest: seq<bool>)
    requires InBlock(order)
    requires dc(s).Got? && DecodeValue(dc(s).rest, dc(s).value) == Got(diff, s1)
    requires DecodeAc(ac, s1, DCT_SIZE2 - 1) == Got(zz, rest)
    ensures |zz| == DCT_SIZE2 - 1
    ensures DecodeBlock(order, dc, ac, lastDc, s) == Got(Place(order, zz, 1, Blank(lastDc + diff)), rest)
  {
  }
}
