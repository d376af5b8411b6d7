/** The 32-bit accumulator of emit_bits: the pending bits are left-justified in its low 24 bits, above them is junk. */
module BitBuffer {
  import opened BitStrings

  const WORD := 24

  /** x | y on bit patterns */
  function Or(x: nat, y: nat): nat
    decreases x + y
  {
    if x == 0 then y
    else if y == 0 then x
    else 2 * Or(x / 2, y / 2) + (if x % 2 == 1 || y % 2 == 1 then 1 else 0)
  }

  /** Merging disjoint bit fields adds them. */
  lemma {:induction false} OrDisjoint(x: nat, h: nat, n: nat)
    requires x < Pow2(n)
    ensures Or(x, Shl(h, n)) == x + Shl(h, n)
  {
    if n > 0 && x > 0 && Shl(h, n) > 0 {
      OrDisjoint(x / 2, h, n - 1);
    }
  }

  /** The accumulator holds exactly these bits. */
  ghost predicate Holds(buffer: nat, bits: seq<bool>) {
    |bits| < WORD && Low(buffer, WORD) == Shl(FromBits(bits), WORD - |bits|)
  }

  lemma ShlBound(x: nat, a: nat, n: nat)
    requires x < Pow2(a)
    ensures Shl(x, n) < Pow2(a + n)
  {
    ShlPow2(a, n);
    ShlOrder(x, Pow2(a), n);
  }

  lemma HoldsEmpty()
    ensures Holds(0, [])
  {
    ShlZero(WORD);
    ShlZero(WORD - 0);
    SplitUnique(0, WORD, 0, 0);
  }

  /** The accumulator is a multiple of 2^(24 - number of bits). */
  lemma HoldsFactor(buffer: nat, bits: seq<bool>) returns (h: nat)
    requires Holds(buffer, bits)
    ensures buffer == Shl(h, WORD) + Shl(FromBits(bits), WORD - |bits|)
    ensures buffer == Shl(Shl(h, |bits|) + FromBits(bits), WORD - |bits|)
  {
    h := Shr(buffer, WORD);
    SplitAt(buffer, WORD);
    ShlShl(h, |bits|, WORD - |bits|);
    ShlAdd(Shl(h, |bits|), FromBits(bits), WORD - |bits|);
  }

  lemma HoldsIf(buffer: nat, h: nat, bits: seq<bool>)
    requires |bits| < WORD && buffer == Shl(h, WORD) + Shl(FromBits(bits), WORD - |bits|)
    ensures Holds(buffer, bits)
  {
    FromBitsBound(bits);
    ShlBound(FromBits(bits), |bits|, WORD - |bits|);
    SplitUnique(buffer, WORD, h, Shl(FromBits(bits), WORD - |bits|));
  }

  /** Aligning the masked code and merging it appends its bits. */
  lemma Merge(buffer: nat, bits: seq<bool>, code: nat, size: nat)
    requires Holds(buffer, bits) && |bits| + size < WORD
    ensures Holds(Or(Shl(Low(code, size), WORD - (|bits| + size)), buffer), bits + ToBits(code, size))
  {
    var p, room := |bits|, WORD - (|bits| + size);
    var c, v := Low(code, size), FromBits(bits);
    var h := HoldsFactor(buffer, bits);
    SplitAt(code, size);
    ShlBound(c, size, room);
    assert size + room == WORD - p;
    OrDisjoint(Shl(c, room), Shl(h, p) + v, WORD - p);
    FromToBits(code, size);
    FromBitsConcat(bits, ToBits(code, size));
    ShlAdd(Shl(v, size), c, room);
    ShlShl(v, size, room);
    HoldsIf(Or(Shl(c, room), buffer), h, bits + ToBits(code, size));
  }

  lemma {:induction false} LowLow(x: nat, m: nat, n: nat)
    requires n <= m
    ensures Low(Low(x, m), n) == Low(x, n)
  {
    if n > 0 {
      LowLow(x / 2, m - 1, n - 1);
    }
  }

  /** Regrouping a pattern h, x, y of widths any, a and b + room. */
  lemma Regroup(h: nat, x: nat, y: nat, a: nat, b: nat, room: nat)
    ensures Shl(h, a + b + room) + Shl(Shl(x, b) + y, room) == Shl(Shl(h, a) + x, b + room) + Shl(y, room)
  {
    ShlAdd(Shl(x, b), y, room);
    ShlShl(x, b, room);
    ShlAdd(Shl(h, a), x, b + room);
    ShlShl(h, a, b + room);
    assert a + (b + room) == a + b + room;
  }

  /** The accumulator as its first byte over the bits that follow. */
  lemma FirstByteSplit(buffer: nat, bits: seq<bool>) returns (h: nat)
    requires Holds(buffer, bits) && |bits| >= 8
    ensures buffer == Shl(Shl(h, 8) + FromBits(bits[..8]), 16) + Shl(FromBits(bits[8..]), WORD - |bits|)
    ensures Shl(FromBits(bits[8..]), WORD - |bits|) < Pow2(16)
  {
    hide Shl, FromBits, Pow2;
    var a, b := bits[..8], bits[8..];
    assert bits == a + b;
    h := HoldsFactor(buffer, bits);
    FromBitsConcat(a, b);
    Regroup(h, FromBits(a), FromBits(b), |a|, |b|, WORD - |bits|);
    assert |a| + |b| + (WORD - |bits|) == WORD && |b| + (WORD - |bits|) == 16 && |a| == 8;
    FromBitsBound(b);
    ShlBound(FromBits(b), |b|, WORD - |bits|);
  }

  /** The byte taken from the accumulator is the first eight bits. */
  lemma FirstByte(buffer: nat, bits: seq<bool>)
    requires Holds(buffer, bits) && |bits| >= 8
    ensures Low(Shr(buffer, 16), 8) == FromBits(bits[..8])
  {
    var h := FirstByteSplit(buffer, bits);
    SplitUnique(buffer, 16, Shl(h, 8) + FromBits(bits[..8]), Shl(FromBits(bits[8..]), WORD - |bits|));
    FromBitsBound(bits[..8]);
    SplitUnique(Shl(h, 8) + FromBits(bits[..8]), 8, h, FromBits(bits[..8]));
  }

  /** Shifting the accumulator left by a byte, in 32 bits, drops the first eight bits. */
  lemma DropByte(buffer: nat, bits: seq<bool>)
    requires Holds(buffer, bits) && |bits| >= 8
    ensures Holds(Low(Shl(buffer, 8), 32), bits[8..])
  {
    var h := FirstByteSplit(buffer, bits);
    DropBits(buffer, bits, 8, Shl(h, 8) + FromBits(bits[..8]));
    LowLow(Shl(buffer, 8), 32, WORD);
  }

  lemma DropBits(buffer: nat, bits: seq<bool>, n: nat, top: nat)
    requires n <= |bits| < WORD && buffer == Shl(top, WORD - n) + Shl(FromBits(bits[n..]), WORD - |bits|)
    ensures Holds(Shl(buffer, n), bits[n..])
  {
    var low, room := FromBits(bits[n..]), WORD - |bits|;
    ShlAdd(Shl(top, WORD - n), Shl(low, room), n);
    ShlShl(top, WORD - n, n);
    ShlShl(low, room, n);
    assert room + n == WORD - |bits[n..]|;
    HoldsIf(Shl(buffer, n), top, bits[n..]);
  }
}
