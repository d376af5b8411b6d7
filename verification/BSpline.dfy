/** B-splines that do not loop, over exact reals: the knot vector, the segment search, and de Boor's evaluation. */
module BSpline {
  import opened Soundness

  // ----- Knots -----

  /** The j-th knot of a spline of order m through n control points: the ends repeat m times, and 1, 2, ... lie between. */
  function Knot(n: nat, m: nat, j: int): real
    requires 1 <= m <= n
  {
    if j < m then 0.0 else if j < n then (j - m + 1) as real else (n - m + 1) as real
  }

  function Knots(n: nat, m: nat): (u: seq<real>)
    requires 1 <= m <= n
    ensures |u| == n + m && forall j :: 0 <= j < n + m ==> u[j] == Knot(n, m, j)
  {
    seq(n + m, j requires 0 <= j < n + m => Knot(n, m, j))
  }

  /** m times 0, then the numbers up to n - m, then m times the next one. */
  lemma KnotList(n: nat, m: nat)
    requires 1 <= m <= n
    ensures Knots(n, m) == seq(m, _ => 0.0) + seq(n - m, i => (i + 1) as real) + seq(m, _ => (n - m + 1) as real)
  {
  }

  function Back(n: nat, m: nat): real
    requires 1 <= m <= n
  {
    (n - m + 1) as real
  }

  /** The parameter as the segment search clamps it. */
  function Within(n: nat, m: nat, t: real): (w: real)
    requires 1 <= m <= n
    ensures 0.0 <= w < Back(n, m)
  {
    if t < 0.0 then 0.0 else if t >= Back(n, m) then Back(n, m) - 0.0001 else t
  }

  /** The segment the clamped parameter lies in. */
  function Segment(n: nat, m: nat, t: real): (k: nat)
    requires 1 <= m <= n
    ensures m - 1 <= k < n
  {
    m - 1 + Within(n, m, t).Floor
  }

  lemma SegmentHolds(n: nat, m: nat, t: real)
    requires 1 <= m <= n
    ensures var k := Segment(n, m, t); Knot(n, m, k) <= Within(n, m, t) < Knot(n, m, k + 1)
  {
  }

  lemma KnotsRise(n: nat, m: nat, a: int, b: int)
    requires 1 <= m <= n && a <= b
    ensures Knot(n, m, a) <= Knot(n, m, b)
    ensures a < m <= b ==> Knot(n, m, a) < Knot(n, m, b)
    ensures m - 1 <= a < n && a < b ==> Knot(n, m, a) + 1.0 <= Knot(n, m, b)
  {
  }

  // ----- De Boor's triangle -----

  /** The affine combination of the curves. */
  function Affine(a: real, b: real, t: real): real {
    (b - a) * t + a
  }

  /** The 2m - 1 knots around a segment: those before it all lie below those after it. */
  ghost function Separation(u: seq<real>, m: nat): (s: Standing)
    ensures s.Sound? ==> m >= 1 && |u| == 2 * m - 1
  {
    if m >= 1 && |u| == 2 * m - 1 && forall a, b :: 0 <= a < m <= b < |u| ==> u[a] < u[b] then Sound else Unsound
  }

  function Weight(u: seq<real>, m: nat, t: real, j: nat, k: nat): real
    requires Separation(u, m).Sound? && j + k + 1 < m
  {
    (t - u[j + k + 1]) / (u[m + k] - u[j + k + 1])
  }

  /** Row j + 1 of the triangle from row j. */
  function Next(d: seq<real>, u: seq<real>, m: nat, t: real, j: nat): (e: seq<real>)
    requires Separation(u, m).Sound? && j < m && |d| == m - j
    ensures |e| == |d| - 1 && forall k {:trigger e[k]} :: 0 <= k < |e| ==> e[k] == Affine(d[k], d[k + 1], Weight(u, m, t, j, k))
  {
    seq(|d| - 1, k requires 0 <= k < |d| - 1 => Affine(d[k], d[k + 1], Weight(u, m, t, j, k)))
  }

  function Shell(d: seq<real>, u: seq<real>, m: nat, t: real, level: nat): (e: seq<real>)
    requires Separation(u, m).Sound? && |d| == m && level < m
    ensures |e| == m - level && (level == 0 ==> e == d)
  {
    if level == 0 then d else Next(Shell(d, u, m, t, level - 1), u, m, t, level - 1)
  }

  lemma ShellNext(d: seq<real>, u: seq<real>, m: nat, t: real, level: nat)
    requires Separation(u, m).Sound? && |d| == m && level + 1 < m
    ensures Shell(d, u, m, t, level + 1) == Next(Shell(d, u, m, t, level), u, m, t, level)
  {
  }

  /** The knots and the control points that segment i depends on. */
  function LocalKnots(n: nat, m: nat, i: nat): (u: seq<real>)
    requires 1 <= m <= n && m - 1 <= i < n
    ensures Separation(u, m).Sound? && forall x :: 0 <= x < 2 * m - 1 ==> u[x] == Knot(n, m, i - m + 1 + x)
  {
    var u := Knots(n, m)[i - m + 1..i + m];
    assert forall a, b :: 0 <= a < m <= b < |u| ==> u[a] < u[b] by {
      forall a, b | 0 <= a < m <= b < |u| ensures u[a] < u[b] {
        LocalRise(n, m, i, a, b);
      }
    }
    u
  }

  lemma LocalRise(n: nat, m: nat, i: nat, a: nat, b: nat)
    requires 1 <= m <= n && m - 1 <= i < n && a < m <= b
    ensures Knot(n, m, i - m + 1 + a) < Knot(n, m, i - m + 1 + b)
  {
    KnotsRise(n, m, i - m + 1 + a, i);
    KnotsRise(n, m, i, i + 1);
    KnotsRise(n, m, i + 1, i - m + 1 + b);
  }

  function LocalPoints(c: seq<real>, m: nat, i: nat): (d: seq<real>)
    requires 1 <= m <= |c| && m - 1 <= i < |c|
    ensures |d| == m && forall x :: 0 <= x < m ==> d[x] == c[i - m + 1 + x]
  {
    c[i - m + 1..i + 1]
  }

  /** The value that segment i's triangle gives for t. */
  function SegmentValue(c: seq<real>, m: nat, i: nat, t: real): real
    requires 1 <= m <= |c| && m - 1 <= i < |c|
  {
    Shell(LocalPoints(c, m, i), LocalKnots(|c|, m, i), m, t, m - 1)[0]
  }

  /** The spline's value at t. */
  function Value(c: seq<real>, m: nat, t: real): real
    requires 1 <= m <= |c|
  {
    SegmentValue(c, m, Segment(|c|, m, t), t)
  }

  /** bspline */
  class Spline {
    var m: int
    var knots: seq<real>
    var cpoints: seq<real>

    constructor ()
      ensures m == 2 && knots == [] && cpoints == []
    {
      m, knots, cpoints := 2, [], [];
    }

    ghost predicate Ready()
      reads this
    {
      1 <= m <= |cpoints| && knots == Knots(|cpoints|, m)
    }

    /** reset_knots */
    /** count more knots at x, as the knot vector u has them. */
    method AppendKnots(x: real, count: nat, ghost u: seq<real>)
      requires |knots| + count <= |u| && knots == u[..|knots|] && forall j :: |knots| <= j < |knots| + count ==> u[j] == x
      modifies `knots
      ensures knots == u[..old(|knots|) + count]
    {
      var i := 0;
      while i < count
        invariant 0 <= i <= count && knots == u[..old(|knots|) + i]
        modifies `knots
      {
        assert u[..old(|knots|) + i + 1] == u[..old(|knots|) + i] + [u[old(|knots|) + i]];
        knots := knots + [x];
        i := i + 1;
      }
    }

    method ResetKnots()
      requires m >= 1
      modifies `m, `knots
      ensures cpoints == [] ==> knots == [] && m == old(m)
      ensures cpoints != [] ==> Ready() && m == if old(m) <= |cpoints| then old(m) else |cpoints|
    {
      knots := [];
      if |cpoints| == 0 {
        return;
      }
      while m > |cpoints|
        invariant 1 <= m <= old(m) && (m < old(m) ==> m >= |cpoints|) && knots == []
      {
        m := m - 1;
      }
      ghost var u := Knots(|cpoints|, m);
      AppendKnots(0.0, m, u);
      var i := 1;
      while i < |cpoints| - m + 1
        invariant 1 <= i <= |cpoints| - m + 1 && knots == u[..m + i - 1]
        modifies `knots
      {
        assert u[..m + i] == u[..m + i - 1] + [u[m + i - 1]];
        knots := knots + [i as real];
        i := i + 1;
      }
      AppendKnots((|cpoints| - m + 1) as real, m, u);
    }

    /** calc_curve_segment */
    method CalcCurveSegment(t: real) returns (k: nat)
      requires Ready()
      ensures k == Segment(|cpoints|, m, t) && k + 1 < |knots|
    {
      var t := t;
      ghost var goal := Segment(|cpoints|, m, t);
      SegmentHolds(|cpoints|, m, t);
      if t < 0.0 {
        t := 0.0;
      }
      if t >= knots[|knots| - 1] {
        t := knots[|knots| - 1] - 0.0001;
      }
      k := 0;
      while knots[k] > t || knots[k + 1] <= t
        invariant k <= goal
        decreases goal - k
      {
        KnotsRise(|cpoints|, m, k, goal);
        k := k + 1;
      }
      if k < goal {
        KnotsRise(|cpoints|, m, k + 1, goal);
      }
    }

    /** get_segment_knots */
    function GetSegmentKnots(i: int): (u: seq<real>)
      requires m >= 1 && (i + 1 < m ==> 0 <= i + m + 1 <= |knots|) && (i + 1 >= |knots| ==> i - m + 1 <= |knots|)
      requires m <= i + 1 < |knots| ==> i + m <= |knots|
      reads this
    {
      if i + 1 < m then knots[..i + m + 1]
      else if i + 1 >= |knots| then knots[i - m + 1..]
      else knots[i - m + 1..i + m]
    }

    /** get_segment_cpoints */
    function GetSegmentCpoints(i: int): (d: seq<real>)
      requires m >= 1 && (m <= i + 1 < |knots| ==> i < |cpoints|)
      reads this
    {
      if i + 1 < m then []
      else if i + 1 >= |knots| then []
      else cpoints[i - m + 1..i + 1]
    }

    lemma LocalIs(i: nat)
      requires Ready() && m - 1 <= i < |cpoints|
      ensures GetSegmentKnots(i) == LocalKnots(|cpoints|, m, i) && GetSegmentCpoints(i) == LocalPoints(cpoints, m, i)
    {
    }

    /** calc_shell */
    method CalcShell(t: real, level: int) returns (d: seq<real>)
      requires Ready()
      ensures var i := Segment(|cpoints|, m, t);
        d == Shell(LocalPoints(cpoints, m, i), LocalKnots(|cpoints|, m, i), m, t, if level < 0 then 0 else if level < m then level else m - 1)
      ensures level >= m - 1 ==> d == [Value(cpoints, m, t)]
    {
      hide Separation, Next, Knots, Knot, Segment, LocalKnots, LocalPoints, GetSegmentKnots, GetSegmentCpoints, Shell;
      var i := CalcCurveSegment(t);
      LocalIs(i);
      var u := GetSegmentKnots(i);
      d := GetSegmentCpoints(i);
      ghost var points := d;
      if |d| == 0 {
        return;
      }
      var j := 0;
      while |d| > 1 && j < level
        invariant 0 <= j < m && (level >= 0 ==> j <= level) && (level < 0 ==> j == 0) && d == Shell(points, u, m, t, j)
        decreases |d|
      {
        d := Row(d, u, m, t, j);
        d := d[..|d| - 1];
        ShellNext(points, u, m, t, j);
        j := j + 1;
      }
    }

    /** operator() */
    method At(t: real) returns (value: real)
      requires Ready()
      ensures value == Value(cpoints, m, t)
    {
      var i := CalcCurveSegment(t);
      value := GetCurveVal(i, t);
    }

    /** get_curve_val, on the segments of the curve and beyond them. */
    method GetCurveVal(i: int, t: real) returns (value: real)
      requires Ready() && -m <= i + 1 <= |knots| + m && (m <= i + 1 < |knots| ==> i < |cpoints|)
      ensures m <= i + 1 <= |cpoints| ==> value == SegmentValue(cpoints, m, i, t)
      ensures i + 1 < m || i + 1 >= |knots| ==> value == 0.0
    {
      hide Separation, Next, Knots, Knot, LocalKnots, LocalPoints, Shell;
      var u := GetSegmentKnots(i);
      var d := GetSegmentCpoints(i);
      if |d| == 0 {
        return 0.0;
      }
      LocalIs(i);
      ghost var points := d;
      var j := 0;
      while |d| > 1
        invariant 0 <= j < m && d == Shell(points, u, m, t, j)
        decreases |d|
      {
        d := Row(d, u, m, t, j);
        d := d[..|d| - 1];
        ShellNext(points, u, m, t, j);
        j := j + 1;
      }
      value := d[0];
    }
  }

  /** The inner loop: the combinations overwrite the points from the front; the last one is about to be dropped. */
  method Row(points: seq<real>, u: seq<real>, m: nat, t: real, j: nat) returns (d: seq<real>)
    requires Separation(u, m).Sound? && j < m && |points| == m - j
    ensures |d| == |points| && d[..|d| - 1] == Next(points, u, m, t, j)
  {
    d := points;
    ghost var e := Next(points, u, m, t, j);
    var k := 0;
    while k < |d| - 1
      invariant 0 <= k <= |d| - 1 && |d| == |points|
      invariant forall x :: 0 <= x < k ==> d[x] == e[x]
      invariant forall x :: k <= x < |d| ==> d[x] == points[x]
    {
      d := d[k := Affine(d[k], d[k + 1], (t - u[j + k + 1]) / (u[m + k] - u[j + k + 1]))];
      k := k + 1;
    }
  }
}
