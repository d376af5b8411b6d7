/** De Boor's evaluation against the definition of a B-spline: the sum of the control points times the basis functions. */
module BSplineBasis {
  import opened Products
  import opened BSpline
  import opened BSplineCurve

  function Fraction(a: real, b: real): real {
    if b == 0.0 then 0.0 else a / b
  }

  /** The slope up over the q spans from knot j. */
  function Rise(n: nat, m: nat, j: int, q: nat, t: real): real
    requires 1 <= m <= n
  {
    Fraction(t - Knot(n, m, j), Knot(n, m, j + q) - Knot(n, m, j))
  }

  /** The slope down. */
  function Fall(n: nat, m: nat, j: int, q: nat, t: real): real
    requires 1 <= m <= n
  {
    Fraction(Knot(n, m, j + q) - t, Knot(n, m, j + q) - Knot(n, m, j))
  }

  /** The basis function of degree q from knot j, by the Cox-de Boor recursion. */
  function Basis(n: nat, m: nat, j: int, q: nat, t: real): real
    requires 1 <= m <= n
    decreases q
  {
    if q == 0 then
      if Knot(n, m, j) <= t < Knot(n, m, j + 1) then 1.0 else 0.0
    else
      Mul(Rise(n, m, j, q, t), Basis(n, m, j, q - 1, t)) + Mul(Fall(n, m, j + 1, q, t), Basis(n, m, j + 1, q - 1, t))
  }

  /** The sum of the first k points of d times the basis functions of degree q from knot j on. */
  function Sum(d: seq<real>, n: nat, m: nat, j: int, q: nat, t: real, k: nat): real
    requires 1 <= m <= n && k <= |d|
    decreases k
  {
    if k == 0 then 0.0 else Sum(d, n, m, j, q, t, k - 1) + Mul(d[k - 1], Basis(n, m, j + k - 1, q, t))
  }

  /** In segment i only the basis functions from i - q to i are not zero. */
  lemma {:induction false} Support(n: nat, m: nat, i: int, j: int, q: nat, t: real)
    requires 1 <= m <= n && Knot(n, m, i) <= t < Knot(n, m, i + 1) && (j > i || j < i - q)
    ensures Basis(n, m, j, q, t) == 0.0
    decreases q
  {
    if q == 0 {
      if j > i {
        KnotsRise(n, m, i + 1, j);
      } else {
        KnotsRise(n, m, j + 1, i);
      }
    } else {
      Support(n, m, i, j, q - 1, t);
      Support(n, m, i, j + 1, q - 1, t);
      hide Knot, Rise, Fall;
    }
  }

  lemma Own(n: nat, m: nat, i: int, t: real)
    requires 1 <= m <= n && Knot(n, m, i) <= t < Knot(n, m, i + 1)
    ensures Basis(n, m, i, 0, t) == 1.0
  {
  }

  lemma Complement(x: real, y: real, d: real)
    requires d > 0.0 && x + y == d
    ensures Fraction(x, d) == 1.0 - Fraction(y, d)
  {
    Quotient(x, d, x / d);
    Quotient(y, d, y / d);
    Cancel(x / d, y / d, x, y, d);
  }

  lemma Cancel(p: real, q: real, x: real, y: real, d: real)
    requires d > 0.0 && p * d == x && q * d == y && x + y == d
    ensures p == 1.0 - q
  {
    assert (p + q - 1.0) * d == 0.0 && (1.0 - p - q) * d == 0.0;
    SignOf(p + q - 1.0, d);
    SignOf(1.0 - p - q, d);
  }

  /** The weight of the triangle is a slope up; what it leaves is the slope down. */
  lemma WeightIsRise(n: nat, m: nat, i: nat, t: real, q: nat, k: nat)
    requires 1 <= m <= n && m - 1 <= i < n && 1 <= q < m && k < q
    ensures var j := i - q + 1 + k;
      && Rise(n, m, j, q, t) == Weight(LocalKnots(n, m, i), m, t, m - 1 - q, k)
      && Fall(n, m, j, q, t) == 1.0 - Rise(n, m, j, q, t)
  {
    hide Knot, LocalKnots, Weight, Separation, Fraction;
    WeightAt(n, m, i, t, m - 1 - q, k);
    var j := i - q + 1 + k;
    assert i - m + 2 + (m - 1 - q) + k == j && i + 1 + k == j + q;
    var a, b := Knot(n, m, j), Knot(n, m, j + q);
    Complement(b - t, t - a, b - a);
    FractionIs(t - a, b - a);
  }

  lemma FractionIs(a: real, b: real)
    requires b > 0.0
    ensures Fraction(a, b) == a / b
  {
  }

  lemma Distribute(a: real, b: real, r: real, f: real, x: real, y: real)
    requires f == 1.0 - r
    ensures Mul(Affine(a, b, r), x) == Mul(a, Mul(f, x)) + Mul(b, Mul(r, x))
    ensures Mul(a, x + y) == Mul(a, x) + Mul(a, y)
    ensures Mul(a, 0.0) == 0.0
  {
  }

  ghost predicate Complementary(n: nat, m: nat, j: int, q: nat, t: real)
    requires 1 <= m <= n
  {
    Fall(n, m, j, q, t) == 1.0 - Rise(n, m, j, q, t)
  }

  lemma BasisNext(n: nat, m: nat, j: int, q: nat, t: real, a: real)
    requires 1 <= m <= n && q > 0
    ensures Mul(a, Basis(n, m, j, q, t))
      == Mul(a, Mul(Rise(n, m, j, q, t), Basis(n, m, j, q - 1, t))) + Mul(a, Mul(Fall(n, m, j + 1, q, t), Basis(n, m, j + 1, q - 1, t)))
  {
    hide Rise, Fall, Mul;
    Distribute(a, 0.0, 0.0, 1.0, Mul(Rise(n, m, j, q, t), Basis(n, m, j, q - 1, t)), Mul(Fall(n, m, j + 1, q, t), Basis(n, m, j + 1, q - 1, t)));
  }

  lemma SumNext(d: seq<real>, n: nat, m: nat, j: int, q: nat, t: real, k: nat)
    requires 1 <= m <= n && k < |d|
    ensures Sum(d, n, m, j, q, t, k + 1) == Sum(d, n, m, j, q, t, k) + Mul(d[k], Basis(n, m, j + k, q, t))
    ensures Sum(d, n, m, j, q, t, 0) == 0.0
  {
  }

  /** Up to the first k + 1 points: a row's sum is that of the row below, and half of the next term. */
  lemma {:induction false} RowSum(d: seq<real>, e: seq<real>, n: nat, m: nat, i: nat, q: nat, t: real, k: nat)
    requires 1 <= m <= n && 1 <= q && |d| == q + 1 && |e| == q && k <= q
    requires Basis(n, m, i - q, q - 1, t) == 0.0
    requires forall x :: 0 <= x < q ==> e[x] == Affine(d[x], d[x + 1], Rise(n, m, i - q + 1 + x, q, t))
    requires forall j :: i - q < j <= i ==> Complementary(n, m, j, q, t)
    ensures Sum(d, n, m, i - q, q, t, k + 1)
      == Sum(e, n, m, i - q + 1, q - 1, t, k) + Mul(d[k], Mul(Fall(n, m, i - q + k + 1, q, t), Basis(n, m, i - q + k + 1, q - 1, t)))
    decreases k
  {
    hide Mul, Rise, Fall, Basis, Affine, Sum;
    var j := i - q + k;
    SumNext(d, n, m, i - q, q, t, k);
    BasisNext(n, m, j, q, t, d[k]);
    if k == 0 {
      Vanish(d[0], Rise(n, m, j, q, t));
      SumNext(e, n, m, i - q + 1, q - 1, t, 0);
    } else {
      RowSum(d, e, n, m, i, q, t, k - 1);
      SumNext(e, n, m, i - q + 1, q - 1, t, k - 1);
      assert i - q + 1 + (k - 1) == j;
      assert Complementary(n, m, j, q, t) && e[k - 1] == Affine(d[k - 1], d[k], Rise(n, m, j, q, t));
      Distribute(d[k - 1], d[k], Rise(n, m, j, q, t), Fall(n, m, j, q, t), Basis(n, m, j, q - 1, t), 0.0);
    }
  }

  /** One row and the next have the same sum. */
  lemma RowAgrees(d: seq<real>, n: nat, m: nat, i: nat, t: real, j: nat)
    requires 1 <= m <= n && m - 1 <= i < n && j + 1 < m && |d| == m - j && Knot(n, m, i) <= t < Knot(n, m, i + 1)
    ensures var q := m - 1 - j;
      Sum(d, n, m, i - q, q, t, q + 1) == Sum(Next(d, LocalKnots(n, m, i), m, t, j), n, m, i - q + 1, q - 1, t, q)
  {
    hide Knot, Mul, Rise, Fall, Basis, Affine, Sum, LocalKnots, Separation, Weight;
    var q := m - 1 - j;
    var e := Next(d, LocalKnots(n, m, i), m, t, j);
    forall x: nat | x < q ensures e[x] == Affine(d[x], d[x + 1], Rise(n, m, i - q + 1 + x, q, t)) {
      WeightIsRise(n, m, i, t, q, x);
    }
    forall j | i - q < j <= i ensures Complementary(n, m, j, q, t) {
      WeightIsRise(n, m, i, t, q, j - (i - q + 1));
    }
    Support(n, m, i, i - q, q - 1, t);
    Support(n, m, i, i + 1, q - 1, t);
    RowSum(d, e, n, m, i, q, t, q);
    Vanish(d[q], Fall(n, m, i + 1, q, t));
  }

  /** Every row of the triangle has the same sum. */
  lemma {:induction false} RowsAgree(d: seq<real>, n: nat, m: nat, i: nat, t: real, level: nat)
    requires 1 <= m <= n && m - 1 <= i < n && |d| == m && level < m && Knot(n, m, i) <= t < Knot(n, m, i + 1)
    ensures Sum(Shell(d, LocalKnots(n, m, i), m, t, level), n, m, i - (m - 1 - level), m - 1 - level, t, m - level)
      == Sum(d, n, m, i - (m - 1), m - 1, t, m)
    decreases level
  {
    hide Next, Sum, Separation, LocalKnots, Knot;
    if level > 0 {
      RowsAgree(d, n, m, i, t, level - 1);
      RowAgrees(Shell(d, LocalKnots(n, m, i), m, t, level - 1), n, m, i, t, level - 1);
    }
  }

  lemma Vanish(a: real, b: real)
    ensures Mul(a, Mul(b, 0.0)) == 0.0
  {
  }

  /** Points whose basis functions vanish add nothing. */
  lemma {:induction false} WindowSum(c: seq<real>, m: nat, i: nat, t: real, k: nat)
    requires 1 <= m <= |c| && m - 1 <= i < |c| && k <= |c| && Knot(|c|, m, i) <= t < Knot(|c|, m, i + 1)
    ensures var n := |c|; var first := i - (m - 1);
      Sum(c, n, m, 0, m - 1, t, k)
      == if k <= first then 0.0
         else if k <= i + 1 then Sum(LocalPoints(c, m, i), n, m, first, m - 1, t, k - first)
         else Sum(LocalPoints(c, m, i), n, m, first, m - 1, t, m)
    decreases k
  {
    hide Knot, Basis, Mul, Separation;
    if k > 0 {
      WindowSum(c, m, i, t, k - 1);
      if k - 1 < i - (m - 1) || k - 1 > i {
        Support(|c|, m, i, k - 1, m - 1, t);
        Vanish(c[k - 1], 1.0);
        Distribute(c[k - 1], 0.0, 0.0, 1.0, 0.0, 0.0);
      } else {
        assert LocalPoints(c, m, i)[k - 1 - (i - (m - 1))] == c[k - 1];
      }
    }
  }

  /** On its own range the spline's value is the sum of all its control points times their basis functions of degree m - 1. */
  lemma ValueIsBasisSum(c: seq<real>, m: nat, t: real)
    requires 1 <= m <= |c| && 0.0 <= t < Back(|c|, m)
    ensures Value(c, m, t) == Sum(c, |c|, m, 0, m - 1, t, |c|)
  {
    hide Knot, Segment, LocalPoints, LocalKnots, Separation, Basis, Sum, Next, Shell;
    var n, i := |c|, Segment(|c|, m, t);
    InSegment(n, m, t);
    WindowSum(c, m, i, t, n);
    var d := LocalPoints(c, m, i);
    RowsAgree(d, n, m, i, t, m - 1);
    Own(n, m, i, t);
    var e := Shell(d, LocalKnots(n, m, i), m, t, m - 1);
    SumNext(e, n, m, i, 0, t, 0);
  }

  lemma {:induction false} FirstStays(d: seq<real>, u: seq<real>, m: nat, t: real, level: nat)
    requires Separation(u, m).Sound? && |d| == m && level < m
    ensures (forall j: nat :: j + 1 < m ==> Weight(u, m, t, j, 0) == 0.0) ==> Shell(d, u, m, t, level)[0] == d[0]
    ensures (forall j: nat, k: nat :: j + k + 2 == m ==> Weight(u, m, t, j, k) == 1.0) ==> Shell(d, u, m, t, level)[m - level - 1] == d[m - 1]
    decreases level
  {
    hide Separation, Weight, Next;
    if level > 0 {
      FirstStays(d, u, m, t, level - 1);
    }
  }

  lemma SegmentAtStart(n: nat, m: nat)
    requires 1 <= m <= n
    ensures Segment(n, m, 0.0) == m - 1
  {
  }

  lemma FirstWeight(n: nat, m: nat, j: nat)
    requires 1 <= m <= n && j + 1 < m
    ensures Weight(LocalKnots(n, m, Segment(n, m, 0.0)), m, 0.0, j, 0) == 0.0
  {
    hide LocalKnots, Weight, Separation;
    SegmentAtStart(n, m);
    WeightAt(n, m, m - 1, 0.0, j, 0);
    Quotient(0.0, Knot(n, m, m), 0.0);
  }

  /** The spline starts at its first control point and ends at its last. */
  lemma ValueAtEnds(c: seq<real>, m: nat)
    requires 1 <= m <= |c|
    ensures Value(c, m, 0.0) == c[0] && Value(c, m, Back(|c|, m)) == c[|c| - 1]
  {
    hide Knot, Segment, LocalKnots, Separation, Weight, Next, Shell;
    var n := |c|;
    var i, l := Segment(n, m, 0.0), Segment(n, m, Back(n, m));
    SegmentOutside(n, m, Back(n, m));
    SegmentAtStart(n, m);
    forall j: nat | j + 1 < m ensures Weight(LocalKnots(n, m, i), m, 0.0, j, 0) == 0.0 {
      FirstWeight(n, m, j);
    }
    forall j: nat, k: nat | j + k + 2 == m ensures Weight(LocalKnots(n, m, l), m, Back(n, m), j, k) == 1.0 {
      WeightBeyond(n, m, Back(n, m), j);
    }
    FirstStays(LocalPoints(c, m, i), LocalKnots(n, m, i), m, 0.0, m - 1);
    FirstStays(LocalPoints(c, m, l), LocalKnots(n, m, l), m, Back(n, m), m - 1);
  }
}
