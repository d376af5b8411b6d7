/** Powers of two, shifts, bit strings (most significant bit first) and finite sums. */
module BitStrings {

  function Pow2(n: nat): (p: nat)
    ensures p >= 1
  {
    if n == 0 then 1 else 2 * Pow2(n - 1)
  }

  /** x << n */
  function Shl(x: nat, n: nat): nat
    decreases n, x
  {
    if n == 0 then x else 2 * Shl(x, n - 1)
  }

  /** x >> n */
  function Shr(x: nat, n: nat): nat
    decreases n, x
  {
    if n == 0 then x else Shr(x / 2, n - 1)
  }

  /** x & ((1 << n) - 1) */
  function Low(x: nat, n: nat): nat
    decreases n, x
  {
    if n == 0 then 0 else 2 * Low(x / 2, n - 1) + x % 2
  }

  lemma {:induction false} Pow2Monotone(a: nat, b: nat)
    requires a <= b
    ensures Pow2(a) <= Pow2(b)
    decreases b - a
  {
    if a < b {
      Pow2Monotone(a, b - 1);
    }
  }

  lemma {:induction false} ShlOne(n: nat)
    ensures Shl(1, n) == Pow2(n)
  {
    if n > 0 {
      ShlOne(n - 1);
    }
  }

  lemma {:induction false} ShlPow2(a: nat, n: nat)
    ensures Shl(Pow2(a), n) == Pow2(a + n)
  {
    if n > 0 {
      ShlPow2(a, n - 1);
    }
  }

  lemma {:induction false} ShlShl(x: nat, a: nat, b: nat)
    ensures Shl(Shl(x, a), b) == Shl(x, a + b)
  {
    if b > 0 {
      ShlShl(x, a, b - 1);
    }
  }

  lemma {:induction false} ShlAdd(x: nat, y: nat, n: nat)
    ensures Shl(x + y, n) == Shl(x, n) + Shl(y, n)
  {
    if n > 0 {
      ShlAdd(x, y, n - 1);
    }
  }

  lemma {:induction false} ShlOrder(x: nat, y: nat, n: nat)
    ensures x < y <==> Shl(x, n) < Shl(y, n)
    ensures x == y <==> Shl(x, n) == Shl(y, n)
  {
    if n > 0 {
      ShlOrder(x, y, n - 1);
    }
  }

  lemma {:induction false} ShrOrder(x: nat, y: nat, n: nat)
    requires x <= y
    ensures Shr(x, n) <= Shr(y, n)
  {
    if n > 0 {
      ShrOrder(x / 2, y / 2, n - 1);
    }
  }

  lemma {:induction false} ShlDouble(x: nat, n: nat)
    ensures Shl(2 * x, n) == 2 * Shl(x, n)
  {
    if n > 0 {
      ShlDouble(x, n - 1);
    }
  }

  lemma {:induction false} ShrShl(x: nat, n: nat)
    ensures Shr(Shl(x, n), n) == x
  {
    if n > 0 {
      ShrShl(x, n - 1);
    }
  }

  /** A number is its high part shifted back plus its low part. */
  lemma {:induction false} SplitAt(x: nat, n: nat)
    ensures x == Shl(Shr(x, n), n) + Low(x, n)
    ensures Low(x, n) < Pow2(n)
  {
    if n > 0 {
      SplitAt(x / 2, n - 1);
    }
  }

  lemma SplitUnique(x: nat, n: nat, h: nat, l: nat)
    requires x == Shl(h, n) + l && l < Pow2(n)
    ensures Shr(x, n) == h && Low(x, n) == l
  {
    SplitAt(x, n);
    var q := Shr(x, n);
    ShlOne(n);
    if q < h {
      ShlAdd(q + 1, h - q - 1, n);
      ShlAdd(q, 1, n);
    } else if h < q {
      ShlAdd(h + 1, q - h - 1, n);
      ShlAdd(h, 1, n);
    }
  }

  lemma Pow2Constants()
    ensures Pow2(7) == 128 && Pow2(8) == 256 && Pow2(16) == SPACE_16 && Pow2(24) == 0x100_0000
  {
    assert Pow2(4) == 16;
    assert Pow2(8) == 256;
    assert Pow2(12) == 4096;
    assert Pow2(16) == 65536;
    assert Pow2(20) == 0x10_0000;
  }

  /** The code space in units of 2^-16, and of 2^-32. */
  const SPACE_16: nat := 0x1_0000
  const SPACE_32: nat := 0x1_0000_0000

  lemma Split16(n: nat, m: nat)
    requires n + m == 16
    ensures Shl(Pow2(n), m) == SPACE_16
  {
    ShlPow2(n, m);
    Pow2Constants();
  }

  lemma Split32(n: nat, m: nat)
    requires n + m == 32
    ensures Shl(Pow2(n), m) == SPACE_32
  {
    ShlPow2(n, m);
    ShlPow2(16, 16);
    Pow2Constants();
    assert Shl(Pow2(16), 16) == SPACE_32;
  }

  // ----- Bit strings -----

  /** The n low-order bits of v. */
  function ToBits(v: nat, n: nat): (r: seq<bool>)
    ensures |r| == n
    decreases n, v
  {
    if n == 0 then [] else ToBits(v / 2, n - 1) + [v % 2 == 1]
  }

  function FromBits(s: seq<bool>): (v: nat)
  {
    if s == [] then 0 else 2 * FromBits(s[..|s| - 1]) + (if s[|s| - 1] then 1 else 0)
  }

  lemma {:induction false} FromBitsBound(s: seq<bool>)
    ensures FromBits(s) < Pow2(|s|)
  {
    if s != [] {
      FromBitsBound(s[..|s| - 1]);
    }
  }

  /** Reading back the n low-order bits of v gives v modulo 2^n. */
  lemma {:induction false} FromToBits(v: nat, n: nat)
    ensures FromBits(ToBits(v, n)) == Low(v, n)
  {
    if n > 0 {
      FromToBits(v / 2, n - 1);
      assert ToBits(v, n)[..n - 1] == ToBits(v / 2, n - 1);
    }
  }

  lemma {:induction false} ToFromBits(s: seq<bool>)
    ensures ToBits(FromBits(s), |s|) == s
  {
    if s != [] {
      ToFromBits(s[..|s| - 1]);
      assert s == s[..|s| - 1] + [s[|s| - 1]];
    }
  }

  lemma {:induction false} FromBitsConcat(a: seq<bool>, b: seq<bool>)
    ensures FromBits(a + b) == Shl(FromBits(a), |b|) + FromBits(b)
  {
    if b == [] {
      assert a + b == a;
    } else {
      assert (a + b)[..|a + b| - 1] == a + b[..|b| - 1];
      FromBitsConcat(a, b[..|b| - 1]);
    }
  }

  lemma {:induction false} ToBitsLow(v: nat, n: nat)
    ensures ToBits(Low(v, n), n) == ToBits(v, n)
  {
    if n > 0 {
      ToBitsLow(v / 2, n - 1);
    }
  }

  /** The first l bits of an n-bit numeral read as the numeral shifted right. */
  lemma {:induction false} FromBitsPrefix(v: nat, n: nat, l: nat)
    requires l <= n && v < Pow2(n)
    ensures FromBits(ToBits(v, n)[..l]) == Shr(v, n - l)
    decreases n - l
  {
    if l == n {
      FromToBits(v, n);
      SplitUnique(v, n, 0, v) by { ShlZero(n); }
      assert ToBits(v, n)[..l] == ToBits(v, n);
    } else {
      FromBitsPrefix(v / 2, n - 1, l);
      assert ToBits(v, n)[..l] == ToBits(v / 2, n - 1)[..l];
    }
  }

  lemma {:induction false} ShlZero(n: nat)
    ensures Shl(0, n) == 0
  {
    if n > 0 {
      ShlZero(n - 1);
    }
  }

  // ----- Sums -----

  /** The sum of a sequence of integers. */
  function Total(v: seq<int>): int
  {
    if v == [] then 0 else Total(v[..|v| - 1]) + v[|v| - 1]
  }

  lemma {:induction false} TotalConcat(v: seq<int>, w: seq<int>)
    ensures Total(v + w) == Total(v) + Total(w)
  {
    if w == [] {
      assert v + w == v;
    } else {
      assert (v + w)[..|v + w| - 1] == v + w[..|w| - 1];
      TotalConcat(v, w[..|w| - 1]);
    }
  }

  lemma {:induction false} TotalUpdate(v: seq<int>, i: nat, x: int)
    requires i < |v|
    ensures Total(v[i := x]) == Total(v) - v[i] + x
  {
    var n := |v| - 1;
    if i == n {
      assert v[i := x][..n] == v[..n];
    } else {
      assert v[i := x][..n] == v[..n][i := x];
      TotalUpdate(v[..n], i, x);
    }
  }

  lemma {:induction false} TotalNonNegative(v: seq<int>)
    requires forall i :: 0 <= i < |v| ==> v[i] >= 0
    ensures Total(v) >= 0
    ensures forall i :: 0 <= i < |v| ==> v[i] <= Total(v)
  {
    if v != [] {
      TotalNonNegative(v[..|v| - 1]);
      forall i | 0 <= i < |v| - 1 ensures v[i] <= Total(v) {
        assert v[..|v| - 1][i] == v[i];
      }
    }
  }

  lemma {:induction false} TotalMonotone(v: seq<int>, w: seq<int>)
    requires |v| == |w|
    requires forall i :: 0 <= i < |v| ==> v[i] <= w[i]
    ensures Total(v) <= Total(w)
  {
    if v != [] {
      TotalMonotone(v[..|v| - 1], w[..|w| - 1]);
    }
  }

  lemma {:induction false} TotalAdd(v: seq<int>, w: seq<int>, u: seq<int>)
    requires |v| == |w| == |u|
    requires forall i :: 0 <= i < |v| ==> u[i] == v[i] + w[i]
    ensures Total(u) == Total(v) + Total(w)
  {
    if v != [] {
      TotalAdd(v[..|v| - 1], w[..|w| - 1], u[..|u| - 1]);
    }
  }
}
