/** The nearest-point search on a cubic, and a curve on which the root finder never ends. */
module NearestPoint {
  import opened JpegTypes
  import opened Bernstein
  import opened BezierRoots
  import opened BezierForm

  /** The polygon over which the roots are sought. */
  function Polygon(vt: seq<Point>, p: Point): (w: seq<Point>)
    requires |vt| == DEGREE + 1
    ensures |w| == W_DEGREE + 1 && forall k :: 0 <= k <= W_DEGREE ==> w[k] == Point(k as real / 5.0, Equation(vt, p)[k])
  {
    seq(W_DEGREE + 1, k requires 0 <= k <= W_DEGREE => Point(k as real / 5.0, Equation(vt, p)[k]))
  }

  /** The squared distance of p from the curve's point at u. */
  function Distance(vt: seq<Point>, p: Point, u: real): real
    requires |vt| > 0
  {
    var q := Curve(vt, u);
    (p.x - q.x) * (p.x - q.x) + (p.y - q.y) * (p.y - q.y)
  }

  /** mag_squared */
  function Squared(a: Point): real {
    a.x * a.x + a.y * a.y
  }

  lemma PolygonRises(vt: seq<Point>, p: Point)
    requires |vt| == DEGREE + 1
    ensures Rising(Xs(Polygon(vt, p))) && Ys(Polygon(vt, p)) == Equation(vt, p)
  {
    hide Equation;
    var w := Polygon(vt, p);
    assert forall k :: 0 <= k <= W_DEGREE ==> Ys(w)[k] == Equation(vt, p)[k];
  }

  lemma CurveEnds(vt: seq<Point>)
    requires |vt| > 0
    ensures Curve(vt, 0.0) == vt[0] && Curve(vt, 1.0) == vt[|vt| - 1]
  {
    EvalEnds(Xs(vt));
    EvalEnds(Ys(vt));
  }

  /** The last point of the triangle is the curve's. */
  lemma TriangleTop(vt: seq<Point>, u: real)
    requires |vt| > 0
    ensures TriangleRow(vt, u, |vt| - 1)[0] == Curve(vt, u)
  {
    hide Eval;
    TriangleSubdivides(vt, u);
    assert RightPoints(vt, u)[0] == TriangleRow(vt, u, |vt| - 1)[0];
    assert Xs(RightPoints(vt, u))[0] == RightPoints(vt, u)[0].x && Ys(RightPoints(vt, u))[0] == RightPoints(vt, u)[0].y;
  }

  /** u is the first of the candidates at the least distance. */
  ghost predicate FirstNearest(vt: seq<Point>, p: Point, c: seq<real>, k: int)
    requires |vt| > 0
  {
    && 0 <= k < |c|
    && (forall i :: 0 <= i < |c| ==> Distance(vt, p, c[k]) <= Distance(vt, p, c[i]))
    && (forall i :: 0 <= i < k ==> Distance(vt, p, c[k]) < Distance(vt, p, c[i]))
  }

  lemma NextNearest(vt: seq<Point>, p: Point, c: seq<real>, k: int, u: real)
    requires |vt| > 0 && FirstNearest(vt, p, c, k)
    ensures FirstNearest(vt, p, c + [u], if Distance(vt, p, u) < Distance(vt, p, c[k]) then |c| else k)
  {
    hide Distance;
  }

  /** The candidates: both ends, and between them the roots found, at most five and in order. */
  ghost predicate Candidates(vt: seq<Point>, p: Point, c: seq<real>, roots: seq<real>)
    requires |vt| == DEGREE + 1
  {
    c == [0.0] + roots + [1.0] && |roots| <= W_DEGREE && Ordered(c)
  }

  lemma CandidatesAre(vt: seq<Point>, p: Point, flat: seq<Point> -> bool, fuel: nat)
    requires |vt| == DEGREE + 1 && Roots(Polygon(vt, p), 0, flat, fuel).Some?
    ensures var r := Roots(Polygon(vt, p), 0, flat, fuel).value; Candidates(vt, p, [0.0] + r + [1.0], r)
  {
    PolygonRises(vt, p);
    RootsBound(Polygon(vt, p), 0, flat, fuel);
    hide Equation, Crossings, Roots;
    assert Polygon(vt, p)[0].x == 0.0 && Polygon(vt, p)[W_DEGREE].x == 1.0;
  }

  /**
   NearestPointOnCurve: the first nearest of the ends and the roots found; nothing when the root finder needs more fuel.
   With at most one crossing the depth limit is fuel enough, and with one crossing a part after n halvings n more is;
   there are then as many roots as such parts with a crossing.
   */
  method NearestPointOnCurve(p: Point, vt: array<Point>, flat: seq<Point> -> bool, fuel: nat) returns (t: Option<real>)
    requires vt.Length == DEGREE + 1
    ensures t.None? <==> Roots(Polygon(vt[..], p), 0, flat, fuel).None?
    ensures t.Some? ==>
      var roots := Roots(Polygon(vt[..], p), 0, flat, fuel).value;
      var c := [0.0] + roots + [1.0];
      Candidates(vt[..], p, c, roots) && exists k :: FirstNearest(vt[..], p, c, k) && t.value == c[k]
    ensures Crossings(Equation(vt[..], p)) <= 1 && fuel >= 64 ==> t.Some?
    ensures t.Some? ==> FewAt(Polygon(vt[..], p), fuel)
    ensures forall n: nat :: n + 64 <= fuel && FewAt(Polygon(vt[..], p), n) ==> t.Some?
    ensures t.Some? ==> forall n: nat :: FewAt(Polygon(vt[..], p), n) ==>
      |Roots(Polygon(vt[..], p), 0, flat, fuel).value| == CrossingsAt(Polygon(vt[..], p), n)
  {
    ghost var s := vt[..];
    var w := new Point[W_DEGREE + 1](_ => Point(0.0, 0.0));
    ConvertToBezierForm(p, vt, w);
    assert w[..] == Polygon(s, p) by {
      hide Coefficient;
      assert forall k :: 0 <= k <= W_DEGREE ==> w[..][k] == Polygon(s, p)[k];
    }
    hide *;
    var candidates := new real[W_DEGREE](_ => 0.0);
    PolygonRises(s, p);
    var n := FindRoots(w, candidates, 0, flat, fuel);
    if n.None? {
      return None;
    }
    CandidatesAre(s, p, flat, fuel);
    var best, k := Compare(p, vt, candidates, n.value);
    return Some(best);
  }

  /** The first end of the curve, the candidates in turn, then the other end: the nearest so far is kept. */
  method Compare(p: Point, vt: array<Point>, candidates: array<real>, n: nat) returns (t: real, ghost k: nat)
    requires vt.Length == DEGREE + 1 && n <= candidates.Length
    ensures k < n + 2 && t == ([0.0] + candidates[..n] + [1.0])[k]
    ensures FirstNearest(vt[..], p, [0.0] + candidates[..n] + [1.0], k)
  {
    hide Curve, TriangleRow, LeftPoints, RightPoints, Squared, Minus;
    ghost var s := vt[..];
    CurveEnds(s);
    DistanceIs(s, p, 0.0);
    var dist := Squared(Minus(p, vt[0]));
    t, k := 0.0, 0;
    ghost var c := [0.0];
    var i := 0;
    while i < n
      invariant i <= n && c == [0.0] + candidates[..i] && FirstNearest(s, p, c, k) && t == c[k] && dist == Distance(s, p, t)
    {
      var q := Bezier(vt, DEGREE, candidates[i], null, null);
      assert vt[..DEGREE + 1] == s;
      TriangleTop(s, candidates[i]);
      t, dist, k := Nearer(p, s, q, candidates[i], t, dist, c, k);
      c := c + [candidates[i]];
      i := i + 1;
    }
    t, dist, k := Nearer(p, s, vt[DEGREE], 1.0, t, dist, c, k);
  }

  lemma DistanceIs(vt: seq<Point>, p: Point, u: real)
    requires |vt| > 0
    ensures Distance(vt, p, u) == Squared(Minus(p, Curve(vt, u)))
  {
    hide Curve;
  }

  /** One comparison: q, the point at u, against the nearest so far. */
  method Nearer(p: Point, ghost s: seq<Point>, q: Point, u: real, t: real, dist: real, ghost c: seq<real>, ghost k: nat)
    returns (t': real, dist': real, ghost k': nat)
    requires |s| > 0 && FirstNearest(s, p, c, k) && t == c[k] && dist == Distance(s, p, t) && q == Curve(s, u)
    ensures k' <= |c| && FirstNearest(s, p, c + [u], k') && t' == (c + [u])[k'] && dist' == Distance(s, p, t')
  {
    NextNearest(s, p, c, k, u);
    DistanceIs(s, p, u);
    hide FirstNearest, Squared, Minus, Curve, Distance;
    t', dist', k' := t, dist, k;
    var newDist := Squared(Minus(p, q));
    if newDist < dist {
      t', dist', k' := u, newDist, |c|;
    }
  }

  // ----- A run without an end -----

  /** The coefficients of c (3u - 1)^5. */
  function Fifth(c: real): (s: seq<real>)
    ensures |s| == W_DEGREE + 1 && s[0] == -c
  {
    [-c, 2.0 * c, -4.0 * c, 8.0 * c, -16.0 * c, 32.0 * c]
  }

  /** The coefficients of c (3u - 2)^5. */
  function Mirror(c: real): (s: seq<real>)
    ensures |s| == W_DEGREE + 1 && s[W_DEGREE] == c
  {
    [-32.0 * c, 16.0 * c, -8.0 * c, 4.0 * c, -2.0 * c, c]
  }

  lemma Halfway(a: real, b: real)
    ensures Blend(a, b, HALF) == (a + b) / 2.0
  {
  }

  lemma MidOf2(a: real, b: real)
    ensures Mid([a, b], HALF) == [(a + b) / 2.0]
  {
    Halfway(a, b);
    hide Blend;
  }

  lemma MidOf3(a: real, b: real, c: real)
    ensures Mid([a, b, c], HALF) == [(a + b) / 2.0, (b + c) / 2.0]
  {
    Halfway(a, b);
    Halfway(b, c);
    hide Blend;
  }

  lemma MidOf4(a: real, b: real, c: real, d: real)
    ensures Mid([a, b, c, d], HALF) == [(a + b) / 2.0, (b + c) / 2.0, (c + d) / 2.0]
  {
    Halfway(a, b);
    Halfway(b, c);
    Halfway(c, d);
    hide Blend;
  }

  lemma MidOf5(a: real, b: real, c: real, d: real, e: real)
    ensures Mid([a, b, c, d, e], HALF) == [(a + b) / 2.0, (b + c) / 2.0, (c + d) / 2.0, (d + e) / 2.0]
  {
    Halfway(a, b);
    Halfway(b, c);
    Halfway(c, d);
    Halfway(d, e);
    hide Blend;
  }

  lemma MidOf6(a: real, b: real, c: real, d: real, e: real, f: real)
    ensures Mid([a, b, c, d, e, f], HALF) == [(a + b) / 2.0, (b + c) / 2.0, (c + d) / 2.0, (d + e) / 2.0, (e + f) / 2.0]
  {
    Halfway(a, b);
    Halfway(b, c);
    Halfway(c, d);
    Halfway(d, e);
    Halfway(e, f);
    hide Blend;
  }

  lemma FifthRows(c: real)
    ensures Mid(Fifth(c), HALF) == [c / 2.0, -c, 2.0 * c, -4.0 * c, 8.0 * c]
    ensures Mid([c / 2.0, -c, 2.0 * c, -4.0 * c, 8.0 * c], HALF) == [-c / 4.0, c / 2.0, -c, 2.0 * c]
    ensures Mid([-c / 4.0, c / 2.0, -c, 2.0 * c], HALF) == [c / 8.0, -c / 4.0, c / 2.0]
    ensures Mid([c / 8.0, -c / 4.0, c / 2.0], HALF) == [-c / 16.0, c / 8.0]
    ensures Mid([-c / 16.0, c / 8.0], HALF) == [c / 32.0]
  {
    hide Mid;
    MidOf6(-c, 2.0 * c, -4.0 * c, 8.0 * c, -16.0 * c, 32.0 * c);
    MidOf5(c / 2.0, -c, 2.0 * c, -4.0 * c, 8.0 * c);
    MidOf4(-c / 4.0, c / 2.0, -c, 2.0 * c);
    MidOf3(c / 8.0, -c / 4.0, c / 2.0);
    MidOf2(-c / 16.0, c / 8.0);
  }

  lemma LeftOfFifth(c: real)
    ensures Left(Fifth(c), HALF) == Mirror(c / 32.0)
  {
    FifthRows(c);
    hide Mid, Fifth;
    var r4, r3, r2 := [-c / 16.0, c / 8.0], [c / 8.0, -c / 4.0, c / 2.0], [-c / 4.0, c / 2.0, -c, 2.0 * c];
    assert Left(r4, HALF) == [-c / 16.0, c / 32.0];
    assert Left(r3, HALF) == [c / 8.0] + Left(r4, HALF) == [c / 8.0, -c / 16.0, c / 32.0];
    assert Left(r2, HALF) == [-c / 4.0] + Left(r3, HALF) == [-c / 4.0, c / 8.0, -c / 16.0, c / 32.0];
    var r1 := [c / 2.0, -c, 2.0 * c, -4.0 * c, 8.0 * c];
    assert Left(r1, HALF) == [c / 2.0] + Left(r2, HALF) == [c / 2.0, -c / 4.0, c / 8.0, -c / 16.0, c / 32.0];
    assert Left(Fifth(c), HALF) == [-c] + Left(r1, HALF);
    assert |Left(Fifth(c), HALF)| == |Mirror(c / 32.0)|;
  }

  lemma MirrorRows(c: real)
    ensures Mid(Mirror(c), HALF) == [-8.0 * c, 4.0 * c, -2.0 * c, c, -c / 2.0]
    ensures Mid([-8.0 * c, 4.0 * c, -2.0 * c, c, -c / 2.0], HALF) == [-2.0 * c, c, -c / 2.0, c / 4.0]
    ensures Mid([-2.0 * c, c, -c / 2.0, c / 4.0], HALF) == [-c / 2.0, c / 4.0, -c / 8.0]
    ensures Mid([-c / 2.0, c / 4.0, -c / 8.0], HALF) == [-c / 8.0, c / 16.0]
    ensures Mid([-c / 8.0, c / 16.0], HALF) == [-c / 32.0]
  {
    hide Mid;
    MidOf6(-32.0 * c, 16.0 * c, -8.0 * c, 4.0 * c, -2.0 * c, c);
    MidOf5(-8.0 * c, 4.0 * c, -2.0 * c, c, -c / 2.0);
    MidOf4(-2.0 * c, c, -c / 2.0, c / 4.0);
    MidOf3(-c / 2.0, c / 4.0, -c / 8.0);
    MidOf2(-c / 8.0, c / 16.0);
  }

  lemma RightOfMirror(c: real)
    ensures Right(Mirror(c), HALF) == Fifth(c / 32.0)
  {
    MirrorRows(c);
    hide Mid, Mirror;
    var r4, r3, r2 := [-c / 8.0, c / 16.0], [-c / 2.0, c / 4.0, -c / 8.0], [-2.0 * c, c, -c / 2.0, c / 4.0];
    assert Right(r4, HALF) == [-c / 32.0, c / 16.0];
    assert Right(r3, HALF) == Right(r4, HALF) + [-c / 8.0] == [-c / 32.0, c / 16.0, -c / 8.0];
    assert Right(r2, HALF) == Right(r3, HALF) + [c / 4.0] == [-c / 32.0, c / 16.0, -c / 8.0, c / 4.0];
    var r1 := [-8.0 * c, 4.0 * c, -2.0 * c, c, -c / 2.0];
    assert Right(r1, HALF) == Right(r2, HALF) + [-c / 2.0] == [-c / 32.0, c / 16.0, -c / 8.0, c / 4.0, -c / 2.0];
    assert Right(Mirror(c), HALF) == Right(r1, HALF) + [c];
    assert |Right(Mirror(c), HALF)| == |Fifth(c / 32.0)|;
  }

  lemma AllCross(a: real, b: real, c: real, d: real, e: real, f: real)
    requires a < 0.0 <= b && c < 0.0 <= d && e < 0.0 <= f
    ensures Crossings([a, b, c, d, e, f]) == 5
  {
    assert Change(a, b) == Change(b, c) == Change(c, d) == Change(d, e) == Change(e, f) == 1;
    hide Change, Crossings;
    FrontCrossings(e, [f]);
    FrontCrossings(d, [e, f]);
    FrontCrossings(c, [d, e, f]);
    FrontCrossings(b, [c, d, e, f]);
    FrontCrossings(a, [b, c, d, e, f]);
    assert [a, b, c, d, e, f] == [a] + [b, c, d, e, f] && [b, c, d, e, f] == [b] + [c, d, e, f] && [c, d, e, f] == [c] + [d, e, f];
    assert [d, e, f] == [d] + [e, f] && [e, f] == [e] + [f] && Crossings([f]) == 0;
  }

  /** With several crossings the answer needs fuel, and both halves. */
  lemma HalfUnended(w: seq<Point>, depth: nat, flat: seq<Point> -> bool, fuel: nat)
    requires |w| == W_DEGREE + 1 && Crossings(Ys(w)) > 1
    requires fuel > 0 ==> Roots(LeftPoints(w, HALF), depth + 1, flat, fuel - 1).None? || Roots(RightPoints(w, HALF), depth + 1, flat, fuel - 1).None?
    ensures Roots(w, depth, flat, fuel).None?
  {
    if fuel == 0 {
      assert Roots(w, depth, flat, 0) == None;
    }
  }

  lemma FifthCrosses(c: real)
    requires c > 0.0
    ensures Crossings(Fifth(c)) == 5 && Crossings(Mirror(c)) == 5
  {
    AllCross(-c, 2.0 * c, -4.0 * c, 8.0 * c, -16.0 * c, 32.0 * c);
    AllCross(-32.0 * c, 16.0 * c, -8.0 * c, 4.0 * c, -2.0 * c, c);
  }

  /** One half of such a polygon is the other kind, on a smaller scale. */
  lemma FifthAgain(w: seq<Point>, c: real)
    requires |w| == W_DEGREE + 1
    ensures Ys(w) == Fifth(c) ==> Ys(LeftPoints(w, HALF)) == Mirror(c / 32.0)
    ensures Ys(w) == Mirror(c) ==> Ys(RightPoints(w, HALF)) == Fifth(c / 32.0)
  {
    hide Fifth, Mirror, LeftPoints, RightPoints, Left, Right, Xs, Ys;
    TriangleSubdivides(w, HALF);
    LeftOfFifth(c);
    RightOfMirror(c);
  }

  /** Every polygon of a multiple root of this kind has another one in a half, however far one goes. */
  lemma {:induction false} NeverEnds(w: seq<Point>, c: real, depth: nat, flat: seq<Point> -> bool, fuel: nat)
    requires |w| == W_DEGREE + 1 && c > 0.0 && (Ys(w) == Fifth(c) || Ys(w) == Mirror(c))
    ensures Roots(w, depth, flat, fuel).None?
    decreases fuel
  {
    hide Crossings, Roots, Fifth, Mirror, Xs, Ys, LeftPoints, RightPoints, Left, Right;
    FifthCrosses(c);
    if fuel > 0 {
      FifthAgain(w, c);
      if Ys(w) == Fifth(c) {
        NeverEnds(LeftPoints(w, HALF), c / 32.0, depth + 1, flat, fuel - 1);
      } else {
        NeverEnds(RightPoints(w, HALF), c / 32.0, depth + 1, flat, fuel - 1);
      }
    }
    HalfUnended(w, depth, flat, fuel);
  }

  /** A cubic along a line that stops at the origin at u = 1/3. */
  function StoppingCurve(): (vt: seq<Point>)
    ensures |vt| == DEGREE + 1
  {
    [Point(-1.0, 0.0), Point(2.0, 0.0), Point(-4.0, 0.0), Point(8.0, 0.0)]
  }

  lemma StoppingParts()
    ensures Offsets(StoppingCurve(), Point(0.0, 0.0)) == [Point(-1.0, 0.0), Point(2.0, 0.0), Point(-4.0, 0.0), Point(8.0, 0.0)]
    ensures Steps(StoppingCurve()) == [Point(9.0, 0.0), Point(-18.0, 0.0), Point(36.0, 0.0)]
  {
    hide Offsets, Steps;
    var vt, p := StoppingCurve(), Point(0.0, 0.0);
    assert vt[0] == Point(-1.0, 0.0) && vt[1] == Point(2.0, 0.0) && vt[2] == Point(-4.0, 0.0) && vt[3] == Point(8.0, 0.0);
    var c, d := Offsets(vt, p), Steps(vt);
    assert c[0] == vt[0] && c[1] == vt[1] && c[2] == vt[2] && c[3] == vt[3];
    assert d[0] == Point(9.0, 0.0) && d[1] == Point(-18.0, 0.0) && d[2] == Point(36.0, 0.0);
  }

  lemma StoppingEquation()
    ensures Equation(StoppingCurve(), Point(0.0, 0.0)) == Fifth(9.0)
  {
    hide Coefficient, Offsets, Steps, StoppingCurve;
    var vt, p := StoppingCurve(), Point(0.0, 0.0);
    var c, d := Offsets(vt, p), Steps(vt);
    StoppingParts();
    ShortDiagonals(c, d);
    LongDiagonals(c, d);
    assert |Equation(vt, p)| == |Fifth(9.0)|;
    assert forall k :: 0 <= k <= W_DEGREE ==> Equation(vt, p)[k] == Coefficient(c, d, k);
  }

  /** For this curve and the origin the root finder ends for no depth of recursion: only with one crossing does the depth count. */
  lemma FinderNeedNotEnd(flat: seq<Point> -> bool, fuel: nat)
    ensures Roots(Polygon(StoppingCurve(), Point(0.0, 0.0)), 0, flat, fuel).None?
  {
    var vt, p := StoppingCurve(), Point(0.0, 0.0);
    StoppingEquation();
    PolygonRises(vt, p);
    NeverEnds(Polygon(vt, p), 9.0, 0, flat, fuel);
  }
}
