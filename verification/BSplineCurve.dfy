/** What the evaluation of a B-spline gives: a point of the local hull, the ends of the control polygon, the basis functions' sum. */
module BSplineCurve {
  import opened BSpline

  // ----- Weights -----

  lemma Quotient(a: real, d: real, q: real)
    requires d > 0.0 && q == a / d
    ensures q * d == a
  {
  }

  lemma SignOf(q: real, d: real)
    requires d > 0.0
    ensures (q * d >= 0.0 <==> q >= 0.0) && (q * d <= d <==> q <= 1.0) && (q * d < d <==> q < 1.0)
  {
    if q >= 0.0 {
      assert q * d >= 0.0;
    } else {
      assert (0.0 - q) * d > 0.0;
    }
    if q < 1.0 {
      assert (1.0 - q) * d > 0.0;
    } else {
      assert (q - 1.0) * d >= 0.0;
    }
  }

  lemma Ratio(a: real, d: real)
    requires d > 0.0
    ensures (a / d >= 0.0 <==> a >= 0.0) && (a / d <= 1.0 <==> a <= d) && (a / d < 1.0 <==> a < d)
  {
    Quotient(a, d, a / d);
    SignOf(a / d, d);
  }

  /** On the curve's own range the unclamped parameter lies in the segment too. */
  lemma InSegment(n: nat, m: nat, t: real)
    requires 1 <= m <= n && 0.0 <= t <= Back(n, m)
    ensures var i := Segment(n, m, t); Knot(n, m, i) <= t <= Knot(n, m, i + 1) && (t < Back(n, m) ==> t < Knot(n, m, i + 1))
  {
  }

  lemma WeightAt(n: nat, m: nat, i: nat, t: real, j: nat, k: nat)
    requires 1 <= m <= n && m - 1 <= i < n && j + k + 1 < m
    ensures var a, b := Knot(n, m, i - m + 2 + j + k), Knot(n, m, i + 1 + k);
      a < b && Weight(LocalKnots(n, m, i), m, t, j, k) == (t - a) / (b - a)
  {
    LocalRise(n, m, i, j + k + 1, m + k);
    hide Knot, Separation;
    var u := LocalKnots(n, m, i);
    assert u[j + k + 1] == Knot(n, m, i - m + 2 + j + k) && u[m + k] == Knot(n, m, i + 1 + k);
  }

  lemma WeightInside(n: nat, m: nat, t: real, j: nat, k: nat)
    requires 1 <= m <= n && 0.0 <= t <= Back(n, m) && j + k + 1 < m
    ensures var w := Weight(LocalKnots(n, m, Segment(n, m, t)), m, t, j, k); 0.0 <= w <= 1.0 && (t < Back(n, m) ==> w < 1.0)
  {
    hide Knot, Segment, LocalKnots, Weight, Separation;
    var i := Segment(n, m, t);
    InSegment(n, m, t);
    KnotsRise(n, m, i - m + 2 + j + k, i);
    KnotsRise(n, m, i + 1, i + 1 + k);
    WeightAt(n, m, i, t, j, k);
    var a, b := Knot(n, m, i - m + 2 + j + k), Knot(n, m, i + 1 + k);
    Ratio(t - a, b - a);
  }

  ghost predicate WeightsProper(n: nat, m: nat, t: real)
    requires 1 <= m <= n
  {
    var u := LocalKnots(n, m, Segment(n, m, t));
    forall j: nat, k: nat :: j + k + 1 < m ==> 0.0 <= Weight(u, m, t, j, k) < 1.0
  }

  /** Before the curve the first weight is negative. */
  lemma WeightBefore(n: nat, m: nat, t: real, j: nat)
    requires 1 <= m <= n && t < 0.0 && j + 1 < m
    ensures Weight(LocalKnots(n, m, Segment(n, m, t)), m, t, j, 0) < 0.0
  {
    hide LocalKnots, Weight, Separation;
    var i := Segment(n, m, t);
    WeightAt(n, m, i, t, j, 0);
    Ratio(t, Knot(n, m, m));
  }

  lemma ByOne(x: real, d: real)
    requires d == 1.0
    ensures x / d == x
  {
  }

  /** From the end of the curve on the last weight is how far t is past the last knot but one. */
  lemma WeightBeyond(n: nat, m: nat, t: real, j: nat)
    requires 1 <= m <= n && t >= Back(n, m) && j + 1 < m
    ensures Weight(LocalKnots(n, m, Segment(n, m, t)), m, t, j, m - j - 2) == t - Back(n, m) + 1.0
  {
    hide LocalKnots, Weight, Separation, Segment, Knot, Back;
    SegmentOutside(n, m, t);
    WeightAt(n, m, n - 1, t, j, m - j - 2);
    EndKnots(n, m, m - j - 2);
    ByOne(t - Knot(n, m, n - 1), Knot(n, m, n + (m - j - 2)) - Knot(n, m, n - 1));
  }

  lemma EndKnots(n: nat, m: nat, k: nat)
    requires 1 <= m <= n
    ensures Knot(n, m, n - 1) == Back(n, m) - 1.0 && Knot(n, m, n + k) == Back(n, m)
  {
  }

  /** The weights are proper exactly on the curve's own range: only the segment search clamps the parameter. */
  lemma WeightsProperIff(n: nat, m: nat, t: real)
    requires 1 <= m <= n
    ensures WeightsProper(n, m, t) <==> m == 1 || 0.0 <= t < Back(n, m)
  {
    if 0.0 <= t < Back(n, m) {
      forall j: nat, k: nat | j + k + 1 < m ensures 0.0 <= Weight(LocalKnots(n, m, Segment(n, m, t)), m, t, j, k) < 1.0 {
        WeightInside(n, m, t, j, k);
      }
    } else if m > 1 {
      var j: nat := 0;
      if t < 0.0 {
        WeightBefore(n, m, t, j);
      } else {
        WeightBeyond(n, m, t, j);
        assert j + (m - j - 2) + 1 < m;
      }
    }
  }

  // ----- The hull of the local control points -----

  function Least(d: seq<real>): (l: real)
    requires |d| > 0
    ensures l in d && forall x :: 0 <= x < |d| ==> l <= d[x]
  {
    if |d| == 1 then d[0]
    else
      var l := Least(d[..|d| - 1]);
      if d[|d| - 1] < l then d[|d| - 1] else l
  }

  function Greatest(d: seq<real>): (g: real)
    requires |d| > 0
    ensures g in d && forall x :: 0 <= x < |d| ==> d[x] <= g
  {
    if |d| == 1 then d[0]
    else
      var g := Greatest(d[..|d| - 1]);
      if d[|d| - 1] > g then d[|d| - 1] else g
  }

  ghost predicate InHull(c: seq<real>, m: nat, t: real)
    requires 1 <= m <= |c|
  {
    var d := LocalPoints(c, m, Segment(|c|, m, t));
    Least(d) <= Value(c, m, t) <= Greatest(d)
  }

  lemma AffineInside(a: real, b: real, w: real, lo: real, hi: real)
    requires lo <= a <= hi && lo <= b <= hi && 0.0 <= w <= 1.0
    ensures lo <= Affine(a, b, w) <= hi
  {
    Spread(a - lo, b - lo, w);
    Spread(hi - a, hi - b, w);
    assert Affine(a, b, w) - lo == (1.0 - w) * (a - lo) + w * (b - lo);
    assert hi - Affine(a, b, w) == (1.0 - w) * (hi - a) + w * (hi - b);
  }

  lemma Spread(p: real, q: real, w: real)
    requires p >= 0.0 && q >= 0.0 && 0.0 <= w <= 1.0
    ensures (1.0 - w) * p + w * q >= 0.0
  {
    assert (1.0 - w) * p >= 0.0 && w * q >= 0.0;
  }

  lemma {:induction false} ShellInside(d: seq<real>, u: seq<real>, m: nat, t: real, level: nat, lo: real, hi: real)
    requires Separation(u, m).Sound? && |d| == m && level < m && forall x :: 0 <= x < m ==> lo <= d[x] <= hi
    requires forall j: nat, k: nat :: j + k + 1 < m ==> 0.0 <= Weight(u, m, t, j, k) <= 1.0
    ensures forall x :: 0 <= x < m - level ==> lo <= Shell(d, u, m, t, level)[x] <= hi
    decreases level
  {
    hide Separation, Weight, Affine, Next;
    if level > 0 {
      ShellInside(d, u, m, t, level - 1, lo, hi);
      var e := Shell(d, u, m, t, level - 1);
      forall x | 0 <= x < m - level ensures lo <= Shell(d, u, m, t, level)[x] <= hi {
        AffineInside(e[x], e[x + 1], Weight(u, m, t, level - 1, x), lo, hi);
      }
    }
  }

  /** On its own range, both ends included, the curve lies in the hull of the local control points. */
  lemma ValueInHull(c: seq<real>, m: nat, t: real)
    requires 1 <= m <= |c| && 0.0 <= t <= Back(|c|, m)
    ensures InHull(c, m, t)
  {
    hide Segment, LocalPoints, LocalKnots, Separation, Shell, Weight;
    var i := Segment(|c|, m, t);
    var d, u := LocalPoints(c, m, i), LocalKnots(|c|, m, i);
    forall j: nat, k: nat | j + k + 1 < m ensures 0.0 <= Weight(u, m, t, j, k) <= 1.0 {
      WeightInside(|c|, m, t, j, k);
    }
    ShellInside(d, u, m, t, m - 1, Least(d), Greatest(d));
  }

  /** One at index p, and zero elsewhere. */
  function Lone(n: nat, p: nat): (c: seq<real>)
    requires p < n
    ensures |c| == n && forall x :: 0 <= x < n ==> c[x] == if x == p then 1.0 else 0.0
  {
    seq(n, x => if x == p then 1.0 else 0.0)
  }

  lemma Grows(a: real, w: real)
    requires a >= 1.0
    ensures w < 0.0 ==> Affine(a, 0.0, w) > a
    ensures w > 1.0 ==> Affine(0.0, a, w) > a
    ensures Affine(0.0, 0.0, w) == 0.0
  {
    if w < 0.0 {
      assert a * (0.0 - w) > 0.0;
    }
    if w > 1.0 {
      assert a * (w - 1.0) > 0.0;
    }
  }

  /** With negative first weights a lone first point is overshot. */
  lemma {:induction false} OvershootFirst(d: seq<real>, u: seq<real>, m: nat, t: real, level: nat)
    requires Separation(u, m).Sound? && d == Lone(m, 0) && level < m
    requires forall j: nat :: j + 1 < m ==> Weight(u, m, t, j, 0) < 0.0
    ensures var e := Shell(d, u, m, t, level);
      e[0] >= 1.0 && (level > 0 ==> e[0] > 1.0) && forall x :: 0 < x < m - level ==> e[x] == 0.0
    decreases level
  {
    hide Separation, Weight, Affine, Next;
    if level > 0 {
      OvershootFirst(d, u, m, t, level - 1);
      var e := Shell(d, u, m, t, level - 1);
      Grows(e[0], Weight(u, m, t, level - 1, 0));
      forall x | 0 < x < m - level ensures Shell(d, u, m, t, level)[x] == 0.0 {
        Grows(1.0, Weight(u, m, t, level - 1, x));
      }
    }
  }

  /** With last weights above one a lone last point is overshot. */
  lemma {:induction false} OvershootLast(d: seq<real>, u: seq<real>, m: nat, t: real, level: nat)
    requires Separation(u, m).Sound? && d == Lone(m, m - 1) && level < m
    requires forall j: nat, k: nat :: j + k + 2 == m ==> Weight(u, m, t, j, k) > 1.0
    ensures var e := Shell(d, u, m, t, level);
      && e[m - level - 1] >= 1.0 && (level > 0 ==> e[m - level - 1] > 1.0)
      && forall x :: 0 <= x < m - level - 1 ==> e[x] == 0.0
    decreases level
  {
    hide Separation, Weight, Affine, Next;
    if level > 0 {
      OvershootLast(d, u, m, t, level - 1);
      var e := Shell(d, u, m, t, level - 1);
      Grows(e[m - level], Weight(u, m, t, level - 1, m - level - 1));
      forall x | 0 <= x < m - level - 1 ensures Shell(d, u, m, t, level)[x] == 0.0 {
        Grows(1.0, Weight(u, m, t, level - 1, x));
      }
    }
  }

  lemma SegmentOutside(n: nat, m: nat, t: real)
    requires 1 <= m <= n
    ensures t < 0.0 ==> Segment(n, m, t) == m - 1
    ensures t >= Back(n, m) ==> Segment(n, m, t) == n - 1
  {
  }

  lemma LoneEnds(n: nat, m: nat)
    requires 1 <= m <= n
    ensures LocalPoints(Lone(n, 0), m, m - 1) == Lone(m, 0) && LocalPoints(Lone(n, n - 1), m, n - 1) == Lone(m, m - 1)
  {
  }

  lemma LoneBounds(m: nat, p: nat)
    requires p < m
    ensures Greatest(Lone(m, p)) <= 1.0
  {
  }

  /** A lone first control point is left behind before the curve. */
  lemma LeavesBefore(n: nat, m: nat, t: real)
    requires 2 <= m <= n && t < 0.0
    ensures !InHull(Lone(n, 0), m, t)
  {
    hide Segment, LocalKnots, LocalPoints, Lone, Greatest, Least, Separation, Weight, Shell, Knot, Back;
    SegmentOutside(n, m, t);
    LoneEnds(n, m);
    LoneBounds(m, 0);
    var u := LocalKnots(n, m, m - 1);
    forall j: nat | j + 1 < m ensures Weight(u, m, t, j, 0) < 0.0 {
      WeightBefore(n, m, t, j);
    }
    OvershootFirst(Lone(m, 0), u, m, t, m - 1);
  }

  /** A lone last one beyond it. */
  lemma LeavesBeyond(n: nat, m: nat, t: real)
    requires 2 <= m <= n && t > Back(n, m)
    ensures !InHull(Lone(n, n - 1), m, t)
  {
    hide Segment, LocalKnots, LocalPoints, Lone, Greatest, Least, Separation, Weight, Shell, Knot, Back;
    SegmentOutside(n, m, t);
    LoneEnds(n, m);
    LoneBounds(m, m - 1);
    var u := LocalKnots(n, m, n - 1);
    forall j: nat, k: nat | j + k + 2 == m ensures Weight(u, m, t, j, k) > 1.0 {
      WeightBeyond(n, m, t, j);
    }
    OvershootLast(Lone(m, m - 1), u, m, t, m - 1);
  }

  lemma ConstantInHull(c: seq<real>, t: real)
    requires |c| >= 1
    ensures InHull(c, 1, t)
  {
    var d := LocalPoints(c, 1, Segment(|c|, 1, t));
    assert Value(c, 1, t) == d[0];
  }

  /**
   For which parameters the curve lies in the hull of its local control points whatever they are: those of its own
   range. Elsewhere the unclamped parameter extrapolates the end segments, unless the spline is piecewise constant.
   */
  lemma HullIff(n: nat, m: nat, t: real)
    requires 1 <= m <= n
    ensures (forall c: seq<real> | |c| == n :: InHull(c, m, t)) <==> m == 1 || 0.0 <= t <= Back(n, m)
  {
    hide InHull;
    if m == 1 || 0.0 <= t <= Back(n, m) {
      forall c: seq<real> | |c| == n ensures InHull(c, m, t) {
        if m == 1 {
          ConstantInHull(c, t);
        } else {
          ValueInHull(c, m, t);
        }
      }
    } else if t < 0.0 {
      LeavesBefore(n, m, t);
    } else {
      LeavesBeyond(n, m, t);
    }
  }
}
