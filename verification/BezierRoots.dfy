/** The Bernstein root finder of the nearest-point search, in exact arithmetic. */
module BezierRoots {
  import opened JpegTypes
  import opened Bernstein

  const MAX_DEPTH := 64
  const W_DEGREE := 5
  const HALF: real := 0.5

  datatype Point = Point(x: real, y: real)

  function Xs(s: seq<Point>): (r: seq<real>)
    ensures |r| == |s| && forall i :: 0 <= i < |s| ==> r[i] == s[i].x
  {
    seq(|s|, i requires 0 <= i < |s| => s[i].x)
  }

  function Ys(s: seq<Point>): (r: seq<real>)
    ensures |r| == |s| && forall i :: 0 <= i < |s| ==> r[i] == s[i].y
  {
    seq(|s|, i requires 0 <= i < |s| => s[i].y)
  }

  function BlendPoint(a: Point, b: Point, t: real): Point {
    Point(Blend(a.x, b.x, t), Blend(a.y, b.y, t))
  }

  function MidPoints(s: seq<Point>, t: real): (m: seq<Point>)
    requires |s| > 0
    ensures |m| == |s| - 1 && forall j :: 0 <= j < |m| ==> m[j] == BlendPoint(s[j], s[j + 1], t)
  {
    seq(|s| - 1, j requires 0 <= j < |s| - 1 => BlendPoint(s[j], s[j + 1], t))
  }

  /** Row i of the triangle. */
  function TriangleRow(s: seq<Point>, t: real, i: nat): (r: seq<Point>)
    requires i < |s|
    ensures |r| == |s| - i
  {
    if i == 0 then s else MidPoints(TriangleRow(s, t, i - 1), t)
  }

  function LeftPoints(s: seq<Point>, t: real): (l: seq<Point>)
    requires |s| > 0
    ensures |l| == |s|
  {
    seq(|s|, j requires 0 <= j < |s| => TriangleRow(s, t, j)[0])
  }

  function RightPoints(s: seq<Point>, t: real): (r: seq<Point>)
    requires |s| > 0
    ensures |r| == |s|
  {
    seq(|s|, j requires 0 <= j < |s| => TriangleRow(s, t, |s| - 1 - j)[j])
  }

  // ----- The triangle is de Casteljau's subdivision -----

  lemma MidCoordinates(s: seq<Point>, t: real)
    requires |s| > 0
    ensures Xs(MidPoints(s, t)) == Mid(Xs(s), t) && Ys(MidPoints(s, t)) == Mid(Ys(s), t)
  {
    hide Blend;
  }

  lemma {:induction false} RowShift(s: seq<Point>, t: real, i: nat)
    requires i + 1 < |s|
    ensures TriangleRow(MidPoints(s, t), t, i) == TriangleRow(s, t, i + 1)
  {
    if i > 0 {
      RowShift(s, t, i - 1);
      hide MidPoints;
      assert TriangleRow(MidPoints(s, t), t, i) == MidPoints(TriangleRow(MidPoints(s, t), t, i - 1), t);
    } else {
      assert TriangleRow(s, t, 1) == MidPoints(TriangleRow(s, t, 0), t);
    }
  }

  lemma LeftSplit(s: seq<Point>, t: real)
    requires |s| > 1
    ensures LeftPoints(s, t) == [s[0]] + LeftPoints(MidPoints(s, t), t)
    ensures RightPoints(s, t) == RightPoints(MidPoints(s, t), t) + [s[|s| - 1]]
  {
    hide BlendPoint, MidPoints;
    var m, n := MidPoints(s, t), |s|;
    forall j | 0 <= j < n - 1 ensures TriangleRow(m, t, j) == TriangleRow(s, t, j + 1) {
      RowShift(s, t, j);
    }
    var l, r := LeftPoints(s, t), RightPoints(s, t);
    assert forall j :: 1 <= j < n ==> l[j] == TriangleRow(m, t, j - 1)[0];
    assert forall j :: 0 <= j < n - 1 ==> r[j] == TriangleRow(m, t, n - 2 - j)[j];
  }

  lemma JoinCoordinates(a: seq<Point>, b: seq<Point>)
    ensures Xs(a + b) == Xs(a) + Xs(b) && Ys(a + b) == Ys(a) + Ys(b)
  {
  }

  lemma SingleCoordinates(a: Point)
    ensures Xs([a]) == [a.x] && Ys([a]) == [a.y]
  {
  }

  /** The points kept from the triangle are the control polygons of the two parts. */
  lemma {:induction false} TriangleSubdivides(s: seq<Point>, t: real)
    requires |s| > 0
    ensures Xs(LeftPoints(s, t)) == Left(Xs(s), t) && Ys(LeftPoints(s, t)) == Left(Ys(s), t)
    ensures Xs(RightPoints(s, t)) == Right(Xs(s), t) && Ys(RightPoints(s, t)) == Right(Ys(s), t)
    decreases |s|
  {
    hide BlendPoint, MidPoints, LeftPoints, RightPoints, Mid, TriangleRow, Xs, Ys;
    if |s| > 1 {
      LeftSplit(s, t);
      MidCoordinates(s, t);
      TriangleSubdivides(MidPoints(s, t), t);
      JoinCoordinates([s[0]], LeftPoints(MidPoints(s, t), t));
      JoinCoordinates(RightPoints(MidPoints(s, t), t), [s[|s| - 1]]);
      SingleCoordinates(s[0]);
      SingleCoordinates(s[|s| - 1]);
    } else {
      SinglePart(s, t);
    }
  }

  lemma SinglePart(s: seq<Point>, t: real)
    requires |s| == 1
    ensures LeftPoints(s, t) == s == RightPoints(s, t) && Left(Xs(s), t) == Xs(s) == Right(Xs(s), t) && Left(Ys(s), t) == Ys(s) == Right(Ys(s), t)
  {
    assert TriangleRow(s, t, 0) == s;
  }

  /** Bezier: evaluates the curve at t, and fills in the control points of the two parts. */
  method Bezier(vt: array<Point>, degree: nat, t: real, left: array?<Point>, right: array?<Point>) returns (p: Point)
    requires degree <= W_DEGREE && degree < vt.Length && (left == null || left != right)
    requires (left == null || degree < left.Length) && (right == null || degree < right.Length)
    modifies left, right
    ensures left != null ==> left[..degree + 1] == LeftPoints(old(vt[..degree + 1]), t)
    ensures right != null ==> right[..degree + 1] == RightPoints(old(vt[..degree + 1]), t)
    ensures p == TriangleRow(old(vt[..degree + 1]), t, degree)[0]
  {
    ghost var s := vt[..degree + 1];
    var vtemp := new Point[W_DEGREE + 1, W_DEGREE + 1]((_, _) => Point(0.0, 0.0));
    var j := 0;
    while j <= degree
      invariant j <= degree + 1 && forall k :: 0 <= k < j ==> vtemp[0, k] == s[k]
      modifies vtemp
    {
      vtemp[0, j] := vt[j];
      j := j + 1;
    }
    var i := 1;
    while i <= degree
      invariant 1 <= i <= degree + 1
      invariant forall h, k :: 0 <= h < i && 0 <= k <= degree - h ==> vtemp[h, k] == TriangleRow(s, t, h)[k]
      modifies vtemp
    {
      NextRow(vtemp, s, degree, t, i);
      i := i + 1;
    }
    if left != null {
      KeepLeft(vtemp, s, degree, t, left);
    }
    if right != null {
      KeepRight(vtemp, s, degree, t, right);
    }
    p := vtemp[degree, 0];
  }

  /** The first points of the rows make the left part. */
  method KeepLeft(vtemp: array2<Point>, ghost s: seq<Point>, degree: nat, t: real, left: array<Point>)
    requires vtemp.Length0 == vtemp.Length1 == W_DEGREE + 1 && degree <= W_DEGREE && |s| == degree + 1 && degree < left.Length
    requires forall h, k :: 0 <= h <= degree && 0 <= k <= degree - h ==> vtemp[h, k] == TriangleRow(s, t, h)[k]
    modifies left
    ensures left[..degree + 1] == LeftPoints(s, t)
  {
    ghost var l := LeftPoints(s, t);
    var j := 0;
    while j <= degree
      invariant j <= degree + 1 && forall k :: 0 <= k < j ==> left[k] == l[k]
    {
      left[j] := vtemp[j, 0];
      j := j + 1;
    }
  }

  /** The last points of the rows make the right part. */
  method KeepRight(vtemp: array2<Point>, ghost s: seq<Point>, degree: nat, t: real, right: array<Point>)
    requires vtemp.Length0 == vtemp.Length1 == W_DEGREE + 1 && degree <= W_DEGREE && |s| == degree + 1 && degree < right.Length
    requires forall h, k :: 0 <= h <= degree && 0 <= k <= degree - h ==> vtemp[h, k] == TriangleRow(s, t, h)[k]
    modifies right
    ensures right[..degree + 1] == RightPoints(s, t)
  {
    ghost var r := RightPoints(s, t);
    var j := 0;
    while j <= degree
      invariant j <= degree + 1 && forall k :: 0 <= k < j ==> right[k] == r[k]
    {
      right[j] := vtemp[degree - j, j];
      j := j + 1;
    }
  }

  lemma RowEntry(s: seq<Point>, t: real, i: nat, j: nat)
    requires 1 <= i < |s| && j < |s| - i
    ensures TriangleRow(s, t, i)[j] == BlendPoint(TriangleRow(s, t, i - 1)[j], TriangleRow(s, t, i - 1)[j + 1], t)
  {
    hide Blend;
  }

  /** Triangle computation: row i from the row above it. */
  method NextRow(vtemp: array2<Point>, ghost s: seq<Point>, degree: nat, t: real, i: nat)
    requires vtemp.Length0 == vtemp.Length1 == W_DEGREE + 1 && 1 <= i <= degree <= W_DEGREE && |s| == degree + 1
    requires forall h, k :: 0 <= h < i && 0 <= k <= degree - h ==> vtemp[h, k] == TriangleRow(s, t, h)[k]
    modifies vtemp
    ensures forall h, k :: 0 <= h <= i && 0 <= k <= degree - h ==> vtemp[h, k] == TriangleRow(s, t, h)[k]
  {
    hide BlendPoint, TriangleRow;
    var j := 0;
    while j <= degree - i
      invariant j <= degree - i + 1
      invariant forall h, k :: 0 <= h < i && 0 <= k <= degree - h ==> vtemp[h, k] == old(vtemp[h, k])
      invariant forall k :: 0 <= k < j ==> vtemp[i, k] == TriangleRow(s, t, i)[k]
    {
      RowEntry(s, t, i, j);
      vtemp[i, j] := BlendPoint(vtemp[i - 1, j], vtemp[i - 1, j + 1], t);
      j := j + 1;
    }
  }

  /** CrossingCount */
  method CrossingCount(vt: array<Point>) returns (n: nat)
    requires vt.Length == W_DEGREE + 1
    ensures n == Crossings(Ys(vt[..]))
  {
    ghost var ys := Ys(vt[..]);
    n := 0;
    var oldSign := if vt[0].y < 0.0 then -1 else 1;
    var i := 1;
    assert ys[0..] == ys;
    while i <= W_DEGREE
      invariant 1 <= i <= W_DEGREE + 1 && oldSign == (if ys[i - 1] < 0.0 then -1 else 1)
      invariant n + Crossings(ys[i - 1..]) == Crossings(ys)
    {
      var sign := if vt[i].y < 0.0 then -1 else 1;
      assert ys[i - 1..][0] == ys[i - 1] && ys[i - 1..][1] == ys[i] && ys[i - 1..][1..] == ys[i..];
      if sign != oldSign {
        n := n + 1;
      }
      oldSign := sign;
      i := i + 1;
    }
  }

  // ----- The chord -----

  /** With one crossing the ends lie on different sides of the axis. */
  lemma OneCrossing(w: seq<Point>)
    requires |w| == W_DEGREE + 1 && Crossings(Ys(w)) == 1
    ensures w[0].y < 0.0 <= w[W_DEGREE].y || w[W_DEGREE].y < 0.0 <= w[0].y
  {
    CrossingsParity(Ys(w));
  }

  function Intercept(w: seq<Point>): real
    requires |w| == W_DEGREE + 1 && w[W_DEGREE].y != w[0].y
  {
    var ynm := w[W_DEGREE].y - w[0].y;
    (ynm * w[0].x - (w[W_DEGREE].x - w[0].x) * w[0].y) / ynm
  }

  /** ComputeXIntercept never divides by zero, and gives the point where the chord meets the axis. */
  lemma ChordMeetsAxis(w: seq<Point>)
    requires |w| == W_DEGREE + 1 && Crossings(Ys(w)) == 1 && w[0].x <= w[W_DEGREE].x
    ensures w[W_DEGREE].y != w[0].y
    ensures (Intercept(w) - w[0].x) * (w[W_DEGREE].y - w[0].y) == (w[W_DEGREE].x - w[0].x) * (0.0 - w[0].y)
    ensures w[0].x <= Intercept(w) <= w[W_DEGREE].x
  {
    OneCrossing(w);
    hide Crossings;
    InterceptBetween(w[0].x, w[0].y, w[W_DEGREE].x, w[W_DEGREE].y, Intercept(w));
  }

  lemma Quotient(a: real, d: real, q: real)
    requires d != 0.0 && q == a / d
    ensures q * d == a
  {
  }

  lemma InterceptBetween(x0: real, y0: real, x1: real, y1: real, q: real)
    requires x0 <= x1 && (y0 < 0.0 <= y1 || y1 < 0.0 <= y0)
    requires q == ((y1 - y0) * x0 - (x1 - x0) * y0) / (y1 - y0)
    ensures (q - x0) * (y1 - y0) == (x1 - x0) * (0.0 - y0) && x0 <= q <= x1
  {
    var d, l := y1 - y0, x1 - x0;
    Quotient(d * x0 - l * y0, d, q);
    assert (q - x0) * d == l * (0.0 - y0);
    assert (x1 - q) * d == l * y1 by {
      assert (x1 - q) * d == (x1 - x0) * d - (q - x0) * d;
      assert l * d == l * y1 - l * y0;
    }
    if d > 0.0 {
      Positive(q - x0, d, l, 0.0 - y0);
      Positive(x1 - q, d, l, y1);
    } else {
      assert (q - x0) * (0.0 - d) == l * y0 && (x1 - q) * (0.0 - d) == l * (0.0 - y1);
      Positive(q - x0, 0.0 - d, l, y0);
      Positive(x1 - q, 0.0 - d, l, 0.0 - y1);
    }
  }

  lemma Positive(a: real, d: real, l: real, y: real)
    requires d > 0.0 && l >= 0.0 && y >= 0.0 && a * d == l * y
    ensures a >= 0.0
  {
    assert l * y >= 0.0;
  }

  // ----- FindRoots -----

  /**
   What FindRoots returns, or nothing when the recursion goes deeper than the fuel; flat stands for the flatness
   test. Only with exactly one crossing does the depth count.
   */
  function Roots(w: seq<Point>, depth: nat, flat: seq<Point> -> bool, fuel: nat): Option<seq<real>>
    requires |w| == W_DEGREE + 1
    decreases fuel
  {
    var n := Crossings(Ys(w));
    if n == 0 then Some([])
    else if n == 1 && depth >= MAX_DEPTH then Some([(w[0].x + w[W_DEGREE].x) / 2.0])
    else if n == 1 && flat(w) then
      OneCrossing(w);
      Some([Intercept(w)])
    else if fuel == 0 then None
    else
      var l := Roots(LeftPoints(w, HALF), depth + 1, flat, fuel - 1);
      var r := Roots(RightPoints(w, HALF), depth + 1, flat, fuel - 1);
      if l.None? || r.None? then None else Some(l.value + r.value)
  }

  ghost predicate Ordered(r: seq<real>) {
    forall i, j :: 0 <= i <= j < |r| ==> r[i] <= r[j]
  }

  ghost predicate Inside(r: seq<real>, a: real, b: real) {
    forall i :: 0 <= i < |r| ==> a <= r[i] <= b
  }

  lemma {:induction false} RisingEnds(s: seq<real>)
    requires |s| > 0 && Rising(s)
    ensures s[0] <= s[|s| - 1]
    decreases |s|
  {
    if |s| > 1 {
      RisingEnds(s[..|s| - 1]);
    }
  }

  lemma EndsAt(w: seq<Point>)
    requires |w| == W_DEGREE + 1
    ensures Xs(w)[0] == w[0].x && Xs(w)[W_DEGREE] == w[W_DEGREE].x && |Xs(w)| == |Ys(w)| == W_DEGREE + 1
  {
  }

  /** The two halves of a polygon, as far as the roots are concerned. */
  lemma Halves(w: seq<Point>)
    requires |w| == W_DEGREE + 1 && Rising(Xs(w))
    ensures var l, r := LeftPoints(w, HALF), RightPoints(w, HALF);
      && Rising(Xs(l)) && Rising(Xs(r))
      && l[0].x == w[0].x && l[W_DEGREE].x == r[0].x && r[W_DEGREE].x == w[W_DEGREE].x
      && w[0].x <= r[0].x <= w[W_DEGREE].x
      && Crossings(Ys(l)) + Crossings(Ys(r)) <= Crossings(Ys(w))
      && (Crossings(Ys(l)) + Crossings(Ys(r))) % 2 == Crossings(Ys(w)) % 2
  {
    hide Crossings, Left, Right, LeftPoints, RightPoints, Mid, Eval;
    TriangleSubdivides(w, HALF);
    RisingParts(Xs(w), HALF);
    VariationDiminishing(Ys(w), HALF);
    EndsAt(LeftPoints(w, HALF));
    EndsAt(RightPoints(w, HALF));
    EndsAt(w);
  }

  /** At most as many roots as crossings, as many up to an even number, in order, between the ends of the polygon. */
  ghost predicate Bounded(w: seq<Point>, r: seq<real>)
    requires |w| == W_DEGREE + 1
  {
    && |r| <= Crossings(Ys(w)) && |r| % 2 == Crossings(Ys(w)) % 2
    && Ordered(r) && Inside(r, w[0].x, w[W_DEGREE].x)
  }

  lemma JoinBounded(w: seq<Point>, a: seq<real>, b: seq<real>)
    requires |w| == W_DEGREE + 1 && Rising(Xs(w))
    requires Bounded(LeftPoints(w, HALF), a) && Bounded(RightPoints(w, HALF), b)
    ensures Bounded(w, a + b)
  {
    hide Crossings, LeftPoints, RightPoints;
    Halves(w);
    JoinRoots(a, b, w[0].x, RightPoints(w, HALF)[0].x, w[W_DEGREE].x);
    hide Ordered, Inside;
    SameParity(|a|, |b|, Crossings(Ys(LeftPoints(w, HALF))), Crossings(Ys(RightPoints(w, HALF))));
  }

  lemma SameParity(a: nat, b: nat, c: nat, d: nat)
    requires a % 2 == c % 2 && b % 2 == d % 2
    ensures (a + b) % 2 == (c + d) % 2
  {
  }

  lemma SingleRoot(w: seq<Point>)
    requires |w| == W_DEGREE + 1 && Rising(Xs(w)) && Crossings(Ys(w)) == 1
    ensures Bounded(w, [(w[0].x + w[W_DEGREE].x) / 2.0]) && w[W_DEGREE].y != w[0].y && Bounded(w, [Intercept(w)])
  {
    hide Crossings;
    RisingEnds(Xs(w));
    EndsAt(w);
    ChordMeetsAxis(w);
  }

  /**
   A call that ends returns at most as many roots as the polygon crosses the axis (at most five), as many up to an
   even number, in order, and all between the ends of the polygon.
   */
  lemma {:induction false} RootsBound(w: seq<Point>, depth: nat, flat: seq<Point> -> bool, fuel: nat)
    requires |w| == W_DEGREE + 1 && Rising(Xs(w)) && Roots(w, depth, flat, fuel).Some?
    ensures Bounded(w, Roots(w, depth, flat, fuel).value) && Crossings(Ys(w)) <= W_DEGREE
    decreases fuel
  {
    hide Crossings, LeftPoints, RightPoints, Intercept, Bounded;
    var n := Crossings(Ys(w));
    if n == 0 {
      NoRoot(w);
    } else if n == 1 && (depth >= MAX_DEPTH || flat(w)) {
      SingleRoot(w);
    } else {
      Halves(w);
      RootsBound(LeftPoints(w, HALF), depth + 1, flat, fuel - 1);
      RootsBound(RightPoints(w, HALF), depth + 1, flat, fuel - 1);
      JoinBounded(w, Roots(LeftPoints(w, HALF), depth + 1, flat, fuel - 1).value,
                  Roots(RightPoints(w, HALF), depth + 1, flat, fuel - 1).value);
    }
  }

  lemma NoRoot(w: seq<Point>)
    requires |w| == W_DEGREE + 1 && Crossings(Ys(w)) == 0
    ensures Bounded(w, [])
  {
  }

  lemma JoinRoots(a: seq<real>, b: seq<real>, lo: real, mid: real, hi: real)
    requires lo <= mid <= hi && Ordered(a) && Ordered(b) && Inside(a, lo, mid) && Inside(b, mid, hi)
    ensures Ordered(a + b) && Inside(a + b, lo, hi)
  {
  }

  /** More fuel changes no answer. */
  lemma {:induction false} RootsStable(w: seq<Point>, depth: nat, flat: seq<Point> -> bool, fuel: nat, more: nat)
    requires |w| == W_DEGREE + 1 && fuel <= more && Roots(w, depth, flat, fuel).Some?
    ensures Roots(w, depth, flat, more) == Roots(w, depth, flat, fuel)
    decreases fuel
  {
    hide Crossings, LeftPoints, RightPoints, Intercept;
    var n := Crossings(Ys(w));
    if !(n == 0 || (n == 1 && (depth >= MAX_DEPTH || flat(w)))) {
      RootsStable(LeftPoints(w, HALF), depth + 1, flat, fuel - 1, more - 1);
      RootsStable(RightPoints(w, HALF), depth + 1, flat, fuel - 1, more - 1);
    }
  }

  // ----- When the recursion ends -----

  /** After n halvings every part of the polygon has at most one crossing. */
  ghost predicate FewAt(w: seq<Point>, n: nat)
    requires |w| == W_DEGREE + 1
    decreases n
  {
    if n == 0 then Crossings(Ys(w)) <= 1 else FewAt(LeftPoints(w, HALF), n - 1) && FewAt(RightPoints(w, HALF), n - 1)
  }

  /** With at most one crossing the call ends: its parts have at most one as well, and their depth counts. */
  lemma {:induction false} FewEnds(w: seq<Point>, depth: nat, flat: seq<Point> -> bool, fuel: nat)
    requires |w| == W_DEGREE + 1 && Rising(Xs(w)) && Crossings(Ys(w)) <= 1 && depth + fuel >= MAX_DEPTH
    ensures Roots(w, depth, flat, fuel).Some?
    decreases fuel
  {
    hide Crossings, LeftPoints, RightPoints, Intercept;
    if fuel > 0 {
      Halves(w);
      FewEnds(LeftPoints(w, HALF), depth + 1, flat, fuel - 1);
      FewEnds(RightPoints(w, HALF), depth + 1, flat, fuel - 1);
    }
  }

  lemma {:induction false} FewStays(w: seq<Point>, n: nat)
    requires |w| == W_DEGREE + 1 && Rising(Xs(w)) && Crossings(Ys(w)) <= 1
    ensures FewAt(w, n)
    decreases n
  {
    hide Crossings, LeftPoints, RightPoints;
    if n > 0 {
      Halves(w);
      FewStays(LeftPoints(w, HALF), n - 1);
      FewStays(RightPoints(w, HALF), n - 1);
    }
  }

  /** A call that ends has met at most one crossing in every part of that size. */
  lemma {:induction false} EndedFew(w: seq<Point>, depth: nat, flat: seq<Point> -> bool, fuel: nat)
    requires |w| == W_DEGREE + 1 && Rising(Xs(w)) && Roots(w, depth, flat, fuel).Some?
    ensures FewAt(w, fuel)
    decreases fuel
  {
    hide Crossings, LeftPoints, RightPoints, Intercept;
    if Crossings(Ys(w)) <= 1 {
      FewStays(w, fuel);
    } else {
      Halves(w);
      EndedFew(LeftPoints(w, HALF), depth + 1, flat, fuel - 1);
      EndedFew(RightPoints(w, HALF), depth + 1, flat, fuel - 1);
    }
  }

  /** Once every part has at most one crossing the depth limit ends the call. */
  lemma {:induction false} FewAtEnds(w: seq<Point>, depth: nat, flat: seq<Point> -> bool, n: nat)
    requires |w| == W_DEGREE + 1 && Rising(Xs(w)) && FewAt(w, n)
    ensures Roots(w, depth, flat, n + MAX_DEPTH).Some?
    decreases n
  {
    hide Crossings, LeftPoints, RightPoints, Intercept;
    if n == 0 {
      FewEnds(w, depth, flat, MAX_DEPTH);
    } else {
      Halves(w);
      FewAtEnds(LeftPoints(w, HALF), depth + 1, flat, n - 1);
      FewAtEnds(RightPoints(w, HALF), depth + 1, flat, n - 1);
    }
  }

  /**
   The recursion ends exactly when some number of halvings leaves at most one crossing in every part, whatever the
   flatness test answers and however deep the call is.
   */
  lemma EndsIff(w: seq<Point>, depth: nat, flat: seq<Point> -> bool)
    requires |w| == W_DEGREE + 1 && Rising(Xs(w))
    ensures (exists fuel: nat :: Roots(w, depth, flat, fuel).Some?) <==> (exists n: nat :: FewAt(w, n))
  {
    hide Roots, FewAt;
    if fuel: nat :| Roots(w, depth, flat, fuel).Some? {
      EndedFew(w, depth, flat, fuel);
    }
    if n: nat :| FewAt(w, n) {
      FewAtEnds(w, depth, flat, n);
    }
  }

  /** For one bound on the depth of recursion: what is enough for an answer, and what an answer needs. */
  lemma EndsWithin(w: seq<Point>, depth: nat, flat: seq<Point> -> bool, fuel: nat)
    requires |w| == W_DEGREE + 1 && Rising(Xs(w))
    ensures Crossings(Ys(w)) <= 1 && depth + fuel >= 64 ==> Roots(w, depth, flat, fuel).Some?
    ensures Roots(w, depth, flat, fuel).Some? ==> FewAt(w, fuel)
    ensures forall n: nat :: n + 64 <= fuel && FewAt(w, n) ==> Roots(w, depth, flat, fuel).Some?
  {
    hide Roots, FewAt;
    if Crossings(Ys(w)) <= 1 && depth + fuel >= 64 {
      FewEnds(w, depth, flat, fuel);
    }
    if Roots(w, depth, flat, fuel).Some? {
      EndedFew(w, depth, flat, fuel);
    }
    forall n: nat | n + 64 <= fuel && FewAt(w, n) ensures Roots(w, depth, flat, fuel).Some? {
      FewAtEnds(w, depth, flat, n);
      RootsStable(w, depth, flat, n + MAX_DEPTH, fuel);
    }
  }

  // ----- How many roots -----

  /** The crossings of the parts that n halvings leave, added up. */
  ghost function CrossingsAt(w: seq<Point>, n: nat): nat
    requires |w| == W_DEGREE + 1
    decreases n
  {
    if n == 0 then Crossings(Ys(w)) else CrossingsAt(LeftPoints(w, HALF), n - 1) + CrossingsAt(RightPoints(w, HALF), n - 1)
  }

  /** A part with at most one crossing hands it on. */
  lemma {:induction false} FewHanded(w: seq<Point>, n: nat)
    requires |w| == W_DEGREE + 1 && Rising(Xs(w)) && Crossings(Ys(w)) <= 1
    ensures CrossingsAt(w, n) == Crossings(Ys(w))
    decreases n
  {
    hide Crossings, LeftPoints, RightPoints;
    if n > 0 {
      Halves(w);
      FewHanded(LeftPoints(w, HALF), n - 1);
      FewHanded(RightPoints(w, HALF), n - 1);
    }
  }

  lemma {:induction false} CountSettles(w: seq<Point>, n: nat, m: nat)
    requires |w| == W_DEGREE + 1 && Rising(Xs(w)) && FewAt(w, n) && n <= m
    ensures CrossingsAt(w, m) == CrossingsAt(w, n)
    decreases n
  {
    hide Crossings, LeftPoints, RightPoints;
    if n == 0 {
      FewHanded(w, m);
    } else {
      Halves(w);
      CountSettles(LeftPoints(w, HALF), n - 1, m - 1);
      CountSettles(RightPoints(w, HALF), n - 1, m - 1);
    }
  }

  lemma {:induction false} CountAt(w: seq<Point>, depth: nat, flat: seq<Point> -> bool, fuel: nat)
    requires |w| == W_DEGREE + 1 && Rising(Xs(w)) && Roots(w, depth, flat, fuel).Some?
    ensures |Roots(w, depth, flat, fuel).value| == CrossingsAt(w, fuel)
    decreases fuel
  {
    hide Crossings, LeftPoints, RightPoints, Intercept;
    var n := Crossings(Ys(w));
    if n <= 1 {
      FewHanded(w, fuel);
    }
    if !(n == 0 || (n == 1 && (depth >= MAX_DEPTH || flat(w)))) {
      Halves(w);
      CountAt(LeftPoints(w, HALF), depth + 1, flat, fuel - 1);
      CountAt(RightPoints(w, HALF), depth + 1, flat, fuel - 1);
    }
  }

  /** A call that ends returns a root for each crossing of the parts, once no part has more than one. */
  lemma RootCount(w: seq<Point>, depth: nat, flat: seq<Point> -> bool, fuel: nat, n: nat)
    requires |w| == W_DEGREE + 1 && Rising(Xs(w)) && Roots(w, depth, flat, fuel).Some? && FewAt(w, n)
    ensures |Roots(w, depth, flat, fuel).value| == CrossingsAt(w, n)
  {
    hide Roots, FewAt, CrossingsAt, Crossings;
    CountAt(w, depth, flat, fuel);
    EndedFew(w, depth, flat, fuel);
    if n <= fuel {
      CountSettles(w, n, fuel);
    } else {
      CountSettles(w, fuel, n);
    }
  }

  lemma CountWithin(w: seq<Point>, depth: nat, flat: seq<Point> -> bool, fuel: nat)
    requires |w| == W_DEGREE + 1 && Rising(Xs(w))
    ensures Roots(w, depth, flat, fuel).Some? ==>
      forall n: nat :: FewAt(w, n) ==> |Roots(w, depth, flat, fuel).value| == CrossingsAt(w, n)
  {
    hide Roots, FewAt, CrossingsAt;
    forall n: nat | Roots(w, depth, flat, fuel).Some? && FewAt(w, n)
      ensures |Roots(w, depth, flat, fuel).value| == CrossingsAt(w, n)
    {
      RootCount(w, depth, flat, fuel, n);
    }
  }

  /** FindRoots: the number of roots and, in t, the roots. */
  method FindRoots(w: array<Point>, t: array<real>, depth: nat, flat: seq<Point> -> bool, fuel: nat) returns (count: Option<nat>)
    requires w.Length == W_DEGREE + 1 && t.Length >= W_DEGREE && Rising(Xs(w[..]))
    modifies t
    ensures count.None? <==> Roots(w[..], depth, flat, fuel).None?
    ensures count.Some? ==> count.value <= W_DEGREE && Roots(w[..], depth, flat, fuel) == Some(t[..count.value])
    ensures Crossings(Ys(w[..])) <= 1 && depth + fuel >= 64 ==> count.Some?
    ensures count.Some? ==> FewAt(w[..], fuel)
    ensures forall n: nat :: n + 64 <= fuel && FewAt(w[..], n) ==> count.Some?
    ensures count.Some? ==> forall n: nat :: FewAt(w[..], n) ==> count.value == CrossingsAt(w[..], n)
    decreases fuel
  {
    hide FewAt, LeftPoints, RightPoints, CrossingsAt;
    ghost var s := w[..];
    EndsWithin(s, depth, flat, fuel);
    CountWithin(s, depth, flat, fuel);
    var n := CrossingCount(w);
    if n == 0 {
      return Some(0);
    }
    if n == 1 {
      OneCrossing(s);
      if depth >= MAX_DEPTH {
        t[0] := (w[0].x + w[W_DEGREE].x) / 2.0;
        assert t[..1] == [t[0]];
        return Some(1);
      }
      if flat(w[..]) {
        t[0] := ComputeXIntercept(w);
        assert t[..1] == [t[0]];
        return Some(1);
      }
    }
    if fuel == 0 {
      return None;
    }
    count := Recurse(w, t, depth, flat, fuel);
  }

  method ComputeXIntercept(w: array<Point>) returns (x: real)
    requires w.Length == W_DEGREE + 1 && w[W_DEGREE].y != w[0].y
    ensures x == Intercept(w[..])
  {
    var ynm := w[W_DEGREE].y - w[0].y;
    x := (ynm * w[0].x - (w[W_DEGREE].x - w[0].x) * w[0].y) / ynm;
  }

  /** The roots of both halves fit in one array. */
  lemma FitTogether(w: seq<Point>, depth: nat, flat: seq<Point> -> bool, fuel: nat)
    requires |w| == W_DEGREE + 1 && Rising(Xs(w)) && fuel > 0
    requires Roots(LeftPoints(w, HALF), depth + 1, flat, fuel - 1).Some? && Roots(RightPoints(w, HALF), depth + 1, flat, fuel - 1).Some?
    ensures |Roots(LeftPoints(w, HALF), depth + 1, flat, fuel - 1).value| + |Roots(RightPoints(w, HALF), depth + 1, flat, fuel - 1).value| <= W_DEGREE
  {
    hide Crossings, LeftPoints, RightPoints, Roots;
    Halves(w);
    RootsBound(LeftPoints(w, HALF), depth + 1, flat, fuel - 1);
    RootsBound(RightPoints(w, HALF), depth + 1, flat, fuel - 1);
  }

  /** New left and right control polygons. */
  method Subdivide(w: array<Point>) returns (left: array<Point>, right: array<Point>)
    requires w.Length == W_DEGREE + 1 && Rising(Xs(w[..]))
    ensures fresh(left) && fresh(right) && left.Length == right.Length == W_DEGREE + 1
    ensures left[..] == LeftPoints(w[..], HALF) && right[..] == RightPoints(w[..], HALF)
    ensures Rising(Xs(left[..])) && Rising(Xs(right[..]))
  {
    hide Crossings, LeftPoints, RightPoints, TriangleRow;
    left := new Point[W_DEGREE + 1](_ => Point(0.0, 0.0));
    right := new Point[W_DEGREE + 1](_ => Point(0.0, 0.0));
    var _ := Bezier(w, W_DEGREE, HALF, left, right);
    assert w[..W_DEGREE + 1] == w[..] && left[..W_DEGREE + 1] == left[..] && right[..W_DEGREE + 1] == right[..];
    Halves(w[..]);
  }

  /** Otherwise, solve recursively after subdividing the control polygon, and gather the solutions. */
  method Recurse(w: array<Point>, t: array<real>, depth: nat, flat: seq<Point> -> bool, fuel: nat) returns (count: Option<nat>)
    requires w.Length == W_DEGREE + 1 && t.Length >= W_DEGREE && Rising(Xs(w[..])) && fuel > 0
    modifies t
    ensures var l, r := Roots(LeftPoints(w[..], HALF), depth + 1, flat, fuel - 1), Roots(RightPoints(w[..], HALF), depth + 1, flat, fuel - 1);
      && (count.None? <==> l.None? || r.None?)
      && (count.Some? ==> count.value <= W_DEGREE && t[..count.value] == l.value + r.value)
    decreases fuel, 0
  {
    hide Crossings, LeftPoints, RightPoints, Roots, FewAt, Bounded, CrossingsAt;
    ghost var s := w[..];
    var left, right := Subdivide(w);
    var leftT := new real[W_DEGREE + 1](_ => 0.0);
    var rightT := new real[W_DEGREE + 1](_ => 0.0);
    var lc := FindRoots(left, leftT, depth + 1, flat, fuel - 1);
    var rc := FindRoots(right, rightT, depth + 1, flat, fuel - 1);
    if lc.None? || rc.None? {
      return None;
    }
    FitTogether(s, depth, flat, fuel);
    Gather(t, leftT, lc.value, rightT, rc.value);
    count := Some(lc.value + rc.value);
  }

  method Gather(t: array<real>, leftT: array<real>, left: nat, rightT: array<real>, right: nat)
    requires left <= leftT.Length && right <= rightT.Length && left + right <= t.Length && t != leftT && t != rightT
    modifies t
    ensures t[..left + right] == leftT[..left] + rightT[..right]
  {
    var i := 0;
    while i < left
      invariant i <= left && t[..i] == leftT[..i]
    {
      t[i] := leftT[i];
      i := i + 1;
    }
    i := 0;
    while i < right
      invariant i <= right && t[..left + i] == leftT[..left] + rightT[..i]
    {
      t[i + left] := rightT[i];
      i := i + 1;
    }
  }
}
