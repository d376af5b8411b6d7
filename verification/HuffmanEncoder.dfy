/** The Huffman entropy encoder of the emitting pass: blocks, MCUs, restart markers, and backing out of a refused MCU. */
module HuffmanEncoder {
  import opened BitStrings
  import opened JpegTypes
  import opened HuffmanTable
  import opened BlockCode
  import opened HuffmanOutput

  // ----- One block -----

  /** The number of bits of a magnitude, counted by shifting. */
  method CountBits(v: nat) returns (nbits: nat)
    ensures nbits == NBits(v)
  {
    var temp := v;
    nbits := 0;
    while temp > 0
      invariant nbits + NBits(temp) == NBits(v)
    {
      nbits := nbits + 1;
      temp := temp / 2;
    }
  }

  /** The same for a magnitude known not to be zero. */
  method CountBitsNonzero(v: nat) returns (nbits: nat)
    requires v > 0
    ensures nbits == NBits(v)
  {
    var temp: nat := v / 2;
    nbits := 1;
    while temp > 0
      invariant nbits + NBits(temp) == NBits(v)
      decreases temp
    {
      nbits := nbits + 1;
      temp := temp / 2;
    }
  }

  /** temp2 as an unsigned 32-bit number: v, or v - 1 in two's complement. */
  function Complement(v: int): nat
    requires 0 < v + SPACE_32
  {
    if v < 0 then v - 1 + SPACE_32 else v
  }

  lemma ComplementBits(v: int)
    requires 0 < v + SPACE_32 && NBits(Abs(v)) <= 32
    ensures ToBits(Complement(v), NBits(Abs(v))) == Extra(v)
  {
    if v < 0 {
      var n := NBits(Abs(v));
      NBitsBounds(-v);
      Split32(32 - n, n);
      var k := v - 1 + Pow2(n);
      TwosComplement(n, 32 - n, k);
      assert Complement(v) == SPACE_32 - Pow2(n) + k;
      ToBitsLow(Complement(v), n);
    }
  }

  lemma TwosComplement(n: nat, m: nat, k: nat)
    requires Shl(Pow2(m), n) == SPACE_32 && k < Pow2(n)
    ensures SPACE_32 >= Pow2(n) && Low(SPACE_32 - Pow2(n) + k, n) == k
  {
    ShlAdd(Pow2(m) - 1, 1, n);
    ShlOne(n);
    SplitUnique(SPACE_32 - Pow2(n) + k, n, Pow2(m) - 1, k);
  }

  /** The symbol's code word, then the value's extra bits if it has any. */
  method EmitItem(ws: WorkingState, dct: Derived, act: Derived, it: Item, nbits: nat) returns (r: Outcome)
    requires ws.Valid() && dct.WellTyped() && act.WellTyped()
    requires it.sym < 256 && nbits == NBits(Abs(it.value)) <= 16 && 0 < it.value + SPACE_32
    modifies ws`next, ws`free, ws`putBuffer, ws`putBits, ws`seg, ws.dest`next, ws.dest`free, ws.dest`sent, ws.dest.buf
    ensures r.Done? ==> ws.Valid() && HasCode(dct, act, it) && ws.seg == old(ws.seg) + ItemBits(dct, act, it)
    ensures r.Suspended? ==> ws.dest.refuses
    ensures r.Failed? ==> !HasCode(dct, act, it)
    ensures Kept(ws.dest)
  {
    hide ToBits, Extra, ItemBits, NBits, Complement;
    WordThenExtra(ws.seg, dct, act, it);
    var d := if it.dc then dct else act;
    r := ws.EmitBits(d.code[it.sym], d.size[it.sym]);
    if r != Done {
      return;
    }
    ComplementBits(it.value);
    if nbits > 0 {
      r := ws.EmitBits(Complement(it.value), nbits);
    }
  }

  lemma WordThenExtra(seg: seq<bool>, dct: Derived, act: Derived, it: Item)
    requires dct.WellTyped() && act.WellTyped() && it.sym < 256
    ensures var d := if it.dc then dct else act;
      seg + ToBits(d.code[it.sym], d.size[it.sym]) + Extra(it.value) == seg + ItemBits(dct, act, it)
    ensures NBits(Abs(it.value)) == 0 ==> Extra(it.value) == []
  {
  }

  /** Of all the items, these remain to be emitted after seg; those already emitted had codes. */
  ghost predicate Remaining(dct: Derived, act: Derived, start: seq<bool>, all: seq<Item>, seg: seq<bool>, items: seq<Item>)
    requires dct.WellTyped() && act.WellTyped()
  {
    && seg + ItemsBits(dct, act, items) == start + ItemsBits(dct, act, all)
    && (HaveCodes(dct, act, items) <==> HaveCodes(dct, act, all))
  }

  lemma RemainingStep(dct: Derived, act: Derived, start: seq<bool>, all: seq<Item>, seg: seq<bool>, it: Item, items: seq<Item>)
    requires dct.WellTyped() && act.WellTyped()
    requires Remaining(dct, act, start, all, seg, [it] + items)
    ensures !HasCode(dct, act, it) ==> !HaveCodes(dct, act, all)
    ensures HasCode(dct, act, it) ==> Remaining(dct, act, start, all, seg + ItemBits(dct, act, it), items)
  {
    var more := [it] + items;
    assert more[0] == it && more[1..] == items;
    assert HaveCodes(dct, act, items) ==> forall i :: 1 <= i < |more| ==> more[i] == items[i - 1];
    assert HaveCodes(dct, act, more) ==> forall i :: 0 <= i < |items| ==> items[i] == more[i + 1];
    assert seg + ItemBits(dct, act, it) + ItemsBits(dct, act, items) == seg + (ItemBits(dct, act, it) + ItemsBits(dct, act, items));
  }

  /** ZRL codes until the run is below sixteen. */
  method EmitRuns(ws: WorkingState, dct: Derived, act: Derived, r0: nat,
                  ghost zz: seq<int>, ghost start: seq<bool>, ghost all: seq<Item>) returns (res: Outcome, r: nat)
    requires ws.Valid() && dct.WellTyped() && act.WellTyped()
    requires zz != [] && zz[0] != 0 && Remaining(dct, act, start, all, ws.seg, AcItems(zz, r0))
    modifies ws`next, ws`free, ws`putBuffer, ws`putBits, ws`seg, ws.dest`next, ws.dest`free, ws.dest`sent, ws.dest.buf
    ensures res.Done? ==> ws.Valid() && r <= 15 && Remaining(dct, act, start, all, ws.seg, AcItems(zz, r))
    ensures res.Suspended? ==> ws.dest.refuses
    ensures res.Failed? ==> !HaveCodes(dct, act, all)
    ensures Kept(ws.dest)
  {
    r := r0;
    res := Done;
    while r > 15
      invariant ws.Valid() && Remaining(dct, act, start, all, ws.seg, AcItems(zz, r))
      invariant res.Done? && Kept(ws.dest)
    {
      RemainingStep(dct, act, start, all, ws.seg, Item(false, ZRL, 0), AcItems(zz, r - 16));
      res := EmitItem(ws, dct, act, Item(false, ZRL, 0), 0);
      if res != Done {
        return;
      }
      r := r - 16;
    }
  }

  /** One nonzero coefficient after r0 zeros: the head of zz. */
  method EmitCoefficient(ws: WorkingState, dct: Derived, act: Derived, r0: nat, coef: int,
                         ghost zz: seq<int>, ghost start: seq<bool>, ghost all: seq<Item>) returns (res: Outcome)
    requires ws.Valid() && dct.WellTyped() && act.WellTyped()
    requires zz != [] && zz[0] == coef != 0 && Remaining(dct, act, start, all, ws.seg, AcItems(zz, r0))
    modifies ws`next, ws`free, ws`putBuffer, ws`putBits, ws`seg, ws.dest`next, ws.dest`free, ws.dest`sent, ws.dest.buf
    ensures res.Done? ==> ws.Valid() && NBits(Abs(coef)) <= MAX_COEF_BITS
    ensures res.Done? ==> Remaining(dct, act, start, all, ws.seg, AcItems(zz[1..], 0))
    ensures res.Suspended? ==> ws.dest.refuses
    ensures res.Failed? ==> NBits(Abs(coef)) > MAX_COEF_BITS || !HaveCodes(dct, act, all)
    ensures Kept(ws.dest)
  {
    var r;
    res, r := EmitRuns(ws, dct, act, r0, zz, start, all);
    if res.Done? {
      res := EmitRunSize(ws, dct, act, r, coef, zz, start, all);
    }
  }

  /** The symbol for run length and number of bits, with the coefficient's bits. */
  method EmitRunSize(ws: WorkingState, dct: Derived, act: Derived, r: nat, coef: int,
                     ghost zz: seq<int>, ghost start: seq<bool>, ghost all: seq<Item>) returns (res: Outcome)
    requires ws.Valid() && dct.WellTyped() && act.WellTyped()
    requires zz != [] && zz[0] == coef != 0 && r <= 15 && Remaining(dct, act, start, all, ws.seg, AcItems(zz, r))
    modifies ws`next, ws`free, ws`putBuffer, ws`putBits, ws`seg, ws.dest`next, ws.dest`free, ws.dest`sent, ws.dest.buf
    ensures res.Done? ==> ws.Valid() && NBits(Abs(coef)) <= MAX_COEF_BITS
    ensures res.Done? ==> Remaining(dct, act, start, all, ws.seg, AcItems(zz[1..], 0))
    ensures res.Suspended? ==> ws.dest.refuses
    ensures res.Failed? ==> NBits(Abs(coef)) > MAX_COEF_BITS || !HaveCodes(dct, act, all)
    ensures Kept(ws.dest)
  {
    hide AcItems, ItemsBits, ItemBits, HaveCodes, Extra;
    var nbits := CountBitsNonzero(Abs(coef));
    if nbits > MAX_COEF_BITS {
      return Failed(BadDctCoef);
    }
    SmallMagnitude(coef);
    FirstCoefficient(zz, r);
    var it := Item(false, 16 * r + nbits, coef);
    RemainingStep(dct, act, start, all, ws.seg, it, AcItems(zz[1..], 0));
    res := EmitItem(ws, dct, act, it, nbits);
  }

  lemma FirstCoefficient(zz: seq<int>, r: nat)
    requires zz != [] && zz[0] != 0 && r <= 15
    ensures AcItems(zz, r) == [Item(false, 16 * r + NBits(Abs(zz[0])), zz[0])] + AcItems(zz[1..], 0)
  {
  }

  lemma SmallMagnitude(v: int)
    requires NBits(Abs(v)) <= 16
    ensures Abs(v) < SPACE_16
  {
    NBitsBounds(Abs(v));
    Pow2Monotone(NBits(Abs(v)), 16);
    Pow2Constants();
  }

  /** The coefficients after the first, as runs of zeros and values (section F.1.2.2 of T.81). */
  method EncodeAc(ws: WorkingState, order: seq<nat>, block: Block, dct: Derived, act: Derived) returns (res: Outcome)
    requires ws.Valid() && dct.WellTyped() && act.WellTyped() && InBlock(order)
    modifies ws`next, ws`free, ws`putBuffer, ws`putBits, ws`seg, ws.dest`next, ws.dest`free, ws.dest`sent, ws.dest.buf
    ensures var zz := Zigzag(order, block);
      && (res.Done? ==> ws.Valid() && AcInRange(zz) && HaveCodes(dct, act, AcItems(zz, 0))
                        && ws.seg == old(ws.seg) + ItemsBits(dct, act, AcItems(zz, 0)))
      && (res.Failed? ==> !(AcInRange(zz) && HaveCodes(dct, act, AcItems(zz, 0))))
    ensures res.Suspended? ==> ws.dest.refuses
    ensures Kept(ws.dest)
  {
    hide HaveCodes, ItemsBits;
    ghost var zz := Zigzag(order, block);
    ghost var start, all := ws.seg, AcItems(zz, 0);
    var r, k := 0, 1;
    assert zz[0..] == zz;
    while k < DCT_SIZE2
      invariant 1 <= k <= DCT_SIZE2 && ws.Valid()
      invariant Remaining(dct, act, start, all, ws.seg, AcItems(zz[k - 1..], r))
      invariant AcInRange(zz[k - 1..]) <==> AcInRange(zz)
      invariant Kept(ws.dest)
      decreases DCT_SIZE2 - k
    {
      var temp := block[order[k]];
      RangeStep(zz, k - 1);
      if temp == 0 {
        r := r + 1;
      } else {
        res := EmitCoefficient(ws, dct, act, r, temp, zz[k - 1..], start, all);
        if res != Done {
          return;
        }
        r := 0;
      }
      k := k + 1;
    }
    assert zz[k - 1..] == [];
    res := EmitEob(ws, dct, act, r, start, all);
  }

  /** Zeros up to the end of the block become one EOB code. */
  method EmitEob(ws: WorkingState, dct: Derived, act: Derived, r: nat, ghost start: seq<bool>, ghost all: seq<Item>)
    returns (res: Outcome)
    requires ws.Valid() && dct.WellTyped() && act.WellTyped()
    requires Remaining(dct, act, start, all, ws.seg, AcItems([], r))
    modifies ws`next, ws`free, ws`putBuffer, ws`putBits, ws`seg, ws.dest`next, ws.dest`free, ws.dest`sent, ws.dest.buf
    ensures res.Done? ==> ws.Valid() && HaveCodes(dct, act, all) && ws.seg == start + ItemsBits(dct, act, all)
    ensures res.Suspended? ==> ws.dest.refuses
    ensures res.Failed? ==> !HaveCodes(dct, act, all)
    ensures Kept(ws.dest)
  {
    if r > 0 {
      assert AcItems([], r) == [Item(false, EOB, 0)] + [];
      RemainingStep(dct, act, start, all, ws.seg, Item(false, EOB, 0), []);
      res := EmitItem(ws, dct, act, Item(false, EOB, 0), 0);
      if res != Done {
        return;
      }
    }
    assert ws.seg + [] == ws.seg;
    res := Done;
  }

  lemma RangeStep(zz: seq<int>, j: nat)
    requires j < |zz|
    ensures zz[j..][0] == zz[j] && zz[j..][1..] == zz[j + 1..]
    ensures AcInRange(zz[j..]) <==> NBits(Abs(zz[j])) <= MAX_COEF_BITS && AcInRange(zz[j + 1..])
  {
    var a, b := zz[j..], zz[j + 1..];
    assert AcInRange(a) ==> forall k :: 0 <= k < |b| ==> b[k] == a[k + 1];
    assert forall k :: 1 <= k < |a| ==> a[k] == b[k - 1];
  }

  /** encode_one_block: exactly the block's items, or an error when a value or a symbol has no code. */
  method EncodeOneBlock(ws: WorkingState, order: seq<nat>, block: Block, lastDc: int, dct: Derived, act: Derived)
    returns (res: Outcome)
    requires ws.Valid() && dct.WellTyped() && act.WellTyped() && InBlock(order)
    modifies ws`next, ws`free, ws`putBuffer, ws`putBits, ws`seg, ws.dest`next, ws.dest`free, ws.dest`sent, ws.dest.buf
    ensures var items := BlockItems(order, block, lastDc);
      && (res.Done? ==> ws.Valid() && InRange(order, block, lastDc) && HaveCodes(dct, act, items)
                        && ws.seg == old(ws.seg) + ItemsBits(dct, act, items))
      && (res.Failed? ==> !(InRange(order, block, lastDc) && HaveCodes(dct, act, items)))
    ensures res.Suspended? ==> ws.dest.refuses
    ensures Kept(ws.dest)
  {
    var diff := block[0] - lastDc;
    var nbits := CountBits(Abs(diff));
    if nbits > MAX_COEF_BITS + 1 {
      return Failed(BadDctCoef);
    }
    SmallMagnitude(diff);
    ghost var it, items := Item(true, nbits, diff), AcItems(Zigzag(order, block), 0);
    ghost var start := ws.seg;
    RemainingStep(dct, act, start, [it] + items, start, it, items);
    res := EmitItem(ws, dct, act, Item(true, nbits, diff), nbits);
    if res != Done {
      return;
    }
    res := EncodeAc(ws, order, block, dct, act);
  }
}
