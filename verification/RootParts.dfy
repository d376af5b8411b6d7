/** Where the roots lie: the parts of the polygon at which the root finder settles. */
module RootParts {
  import opened JpegTypes
  import opened Bernstein
  import opened BezierRoots
  import opened BezierForm
  import opened NearestPoint

  // ----- Parts -----

  /** The part that repeated halving reaches: at each step the right half or, for false, the left. */
  ghost function Part(w: seq<Point>, path: seq<bool>): (p: seq<Point>)
    requires |w| == W_DEGREE + 1
    ensures |p| == W_DEGREE + 1
    decreases |path|
  {
    if path == [] then w else Part(if path[0] then RightPoints(w, HALF) else LeftPoints(w, HALF), path[1..])
  }

  ghost function CrossingsOf(w: seq<Point>, path: seq<bool>): nat
    requires |w| == W_DEGREE + 1
  {
    Crossings(Ys(Part(w, path)))
  }

  /** x lies between the ends of the part. */
  ghost predicate Within(w: seq<Point>, path: seq<bool>, x: real)
    requires |w| == W_DEGREE + 1
  {
    Part(w, path)[0].x <= x <= Part(w, path)[5].x
  }

  /** The parameter in the whole of u in the part. */
  ghost function At(path: seq<bool>, u: real): real
    decreases |path|
  {
    if path == [] then u else At(path[1..], u) / 2.0 + if path[0] then 0.5 else 0.0
  }

  lemma {:induction false} PartCurve(w: seq<Point>, path: seq<bool>, u: real)
    requires |w| == W_DEGREE + 1
    ensures Eval(Xs(Part(w, path)), u) == Eval(Xs(w), At(path, u)) && Eval(Ys(Part(w, path)), u) == Eval(Ys(w), At(path, u))
    decreases |path|
  {
    hide Eval, Left, Right, LeftPoints, RightPoints;
    if path != [] {
      TriangleSubdivides(w, HALF);
      PartCurve(if path[0] then RightPoints(w, HALF) else LeftPoints(w, HALF), path[1..], u);
      var v := At(path[1..], u);
      LeftCurve(Xs(w), HALF, v);
      LeftCurve(Ys(w), HALF, v);
      RightCurve(Xs(w), HALF, v);
      RightCurve(Ys(w), HALF, v);
    }
  }

  /** A part's ends are the curve's points at the ends of its range of parameters. */
  lemma PartEnds(w: seq<Point>, path: seq<bool>)
    requires |w| == W_DEGREE + 1
    ensures var p := Part(w, path);
      && p[0] == Point(Eval(Xs(w), At(path, 0.0)), Eval(Ys(w), At(path, 0.0)))
      && p[5] == Point(Eval(Xs(w), At(path, 1.0)), Eval(Ys(w), At(path, 1.0)))
  {
    hide Eval, Part;
    PartCurve(w, path, 0.0);
    PartCurve(w, path, 1.0);
    EvalEnds(Xs(Part(w, path)));
    EvalEnds(Ys(Part(w, path)));
  }

  lemma {:induction false} PartRises(w: seq<Point>, path: seq<bool>)
    requires |w| == W_DEGREE + 1 && Rising(Xs(w))
    ensures Rising(Xs(Part(w, path))) && CrossingsOf(w, path) <= Crossings(Ys(w))
    decreases |path|
  {
    hide LeftPoints, RightPoints, Crossings;
    if path != [] {
      Halves(w);
      PartRises(if path[0] then RightPoints(w, HALF) else LeftPoints(w, HALF), path[1..]);
    }
  }

  /** Every part on the way to this one has more than one crossing. */
  ghost predicate Approached(w: seq<Point>, path: seq<bool>)
    requires |w| == W_DEGREE + 1
  {
    forall i :: 0 <= i < |path| ==> CrossingsOf(w, path[..i]) > 1
  }

  lemma ApproachedOn(w: seq<Point>, path: seq<bool>)
    requires |w| == W_DEGREE + 1 && path != [] && Approached(w, path)
    ensures Crossings(Ys(w)) > 1 && Approached(if path[0] then RightPoints(w, HALF) else LeftPoints(w, HALF), path[1..])
  {
    hide LeftPoints, RightPoints, Crossings;
    assert path[..0] == [];
    forall i | 0 <= i < |path[1..]|
      ensures CrossingsOf(if path[0] then RightPoints(w, HALF) else LeftPoints(w, HALF), path[1..][..i]) > 1
    {
      assert path[..i + 1][1..] == path[1..][..i];
    }
  }

  // ----- Each crossing has its root -----

  lemma OneInside(w: seq<Point>, r: seq<real>)
    requires |w| == W_DEGREE + 1 && Bounded(w, r) && Crossings(Ys(w)) % 2 == 1
    ensures |r| > 0 && Within(w, [], r[0])
  {
  }

  /** Which of the roots the two halves found this one is. */
  lemma FromHalf(w: seq<Point>, depth: nat, flat: seq<Point> -> bool, fuel: nat, right: bool, k: nat) returns (j: nat)
    requires |w| == W_DEGREE + 1 && Crossings(Ys(w)) > 1 && Roots(w, depth, flat, fuel).Some?
    requires fuel > 0
      && var half := Roots(if right then RightPoints(w, HALF) else LeftPoints(w, HALF), depth + 1, flat, fuel - 1);
        half.Some? && k < |half.value|
    ensures var half := Roots(if right then RightPoints(w, HALF) else LeftPoints(w, HALF), depth + 1, flat, fuel - 1);
      j < |Roots(w, depth, flat, fuel).value| && Roots(w, depth, flat, fuel).value[j] == half.value[k]
  {
    hide LeftPoints, RightPoints, Crossings, Intercept;
    j := if right then |Roots(LeftPoints(w, HALF), depth + 1, flat, fuel - 1).value| + k else k;
  }

  lemma HalvesEnd(w: seq<Point>, depth: nat, flat: seq<Point> -> bool, fuel: nat)
    requires |w| == W_DEGREE + 1 && Crossings(Ys(w)) > 1 && Roots(w, depth, flat, fuel).Some?
    ensures fuel > 0 && Roots(LeftPoints(w, HALF), depth + 1, flat, fuel - 1).Some?
    ensures Roots(RightPoints(w, HALF), depth + 1, flat, fuel - 1).Some?
  {
    hide LeftPoints, RightPoints, Crossings, Intercept;
  }

  /** Where halving first leaves an odd number of crossings that counts, there is a root. */
  lemma {:induction false} RootInPart(w: seq<Point>, depth: nat, flat: seq<Point> -> bool, fuel: nat, path: seq<bool>) returns (k: nat)
    requires |w| == W_DEGREE + 1 && Rising(Xs(w)) && Roots(w, depth, flat, fuel).Some?
    requires Approached(w, path) && CrossingsOf(w, path) % 2 == 1
    ensures k < |Roots(w, depth, flat, fuel).value| && Within(w, path, Roots(w, depth, flat, fuel).value[k])
    decreases |path|
  {
    hide LeftPoints, RightPoints, Crossings, Roots, Approached, Bounded;
    if path == [] {
      RootsBound(w, depth, flat, fuel);
      OneInside(w, Roots(w, depth, flat, fuel).value);
      k := 0;
    } else {
      ApproachedOn(w, path);
      HalvesEnd(w, depth, flat, fuel);
      Halves(w);
      k := RootInPart(if path[0] then RightPoints(w, HALF) else LeftPoints(w, HALF), depth + 1, flat, fuel - 1, path[1..]);
      k := FromHalf(w, depth, flat, fuel, path[0], k);
    }
  }

  /** The first part on the way with at most one crossing, or the last part. */
  lemma {:induction false} FirstFew(w: seq<Point>, path: seq<bool>, n: nat) returns (i: nat)
    requires |w| == W_DEGREE + 1 && n <= |path| && forall j :: 0 <= j < n ==> CrossingsOf(w, path[..j]) > 1
    ensures n <= i <= |path| && (i == |path| || CrossingsOf(w, path[..i]) <= 1)
    ensures forall j :: 0 <= j < i ==> CrossingsOf(w, path[..j]) > 1
    decreases |path| - n
  {
    hide CrossingsOf;
    if n == |path| || CrossingsOf(w, path[..n]) <= 1 {
      i := n;
    } else {
      i := FirstFew(w, path, n + 1);
    }
  }

  lemma {:induction false} PartOfPart(w: seq<Point>, p: seq<bool>, q: seq<bool>)
    requires |w| == W_DEGREE + 1
    ensures Part(w, p + q) == Part(Part(w, p), q)
    decreases |p|
  {
    hide LeftPoints, RightPoints;
    if p == [] {
      assert p + q == q;
    } else {
      assert (p + q)[0] == p[0] && (p + q)[1..] == p[1..] + q;
      PartOfPart(if p[0] then RightPoints(w, HALF) else LeftPoints(w, HALF), p[1..], q);
    }
  }

  lemma FewerBelow(w: seq<Point>, path: seq<bool>, i: nat)
    requires |w| == W_DEGREE + 1 && Rising(Xs(w)) && i <= |path|
    ensures CrossingsOf(w, path) <= CrossingsOf(w, path[..i])
  {
    hide Part, Crossings;
    assert path == path[..i] + path[i..];
    PartOfPart(w, path[..i], path[i..]);
    PartRises(w, path[..i]);
    PartRises(Part(w, path[..i]), path[i..]);
  }

  /**
   Where the polynomial changes sign between the ends of a part, there is a root in that part, or in a part around it
   with exactly one crossing.
   */
  lemma RootAtSignChange(w: seq<Point>, depth: nat, flat: seq<Point> -> bool, fuel: nat, path: seq<bool>) returns (i: nat, k: nat)
    requires |w| == W_DEGREE + 1 && Rising(Xs(w)) && Roots(w, depth, flat, fuel).Some?
    requires (Eval(Ys(w), At(path, 0.0)) < 0.0) != (Eval(Ys(w), At(path, 1.0)) < 0.0)
    ensures i <= |path| && (i == |path| || CrossingsOf(w, path[..i]) == 1)
    ensures k < |Roots(w, depth, flat, fuel).value|
    ensures Eval(Xs(w), At(path[..i], 0.0)) <= Roots(w, depth, flat, fuel).value[k] <= Eval(Xs(w), At(path[..i], 1.0))
  {
    hide Eval, Part, Roots, Crossings, At;
    PartEnds(w, path);
    OddCrossings(Part(w, path));
    i := FirstFew(w, path, 0);
    FewerBelow(w, path, i);
    assert path[..|path|] == path;
    assert Approached(w, path[..i]) by {
      assert forall j :: 0 <= j < i ==> path[..i][..j] == path[..j];
    }
    k := RootInPart(w, depth, flat, fuel, path[..i]);
    PartEnds(w, path[..i]);
  }

  lemma OddCrossings(p: seq<Point>)
    requires |p| == W_DEGREE + 1 && (p[0].y < 0.0) != (p[5].y < 0.0)
    ensures Crossings(Ys(p)) % 2 == 1
  {
    CrossingsParity(Ys(p));
  }

  // ----- Each root has its crossing -----

  /**
   x is the root of a part with one crossing: at a depth of 64 the middle of the part, before that, where the part
   passes for flat, the point in which its chord meets the axis.
   */
  ghost predicate Settles(p: seq<Point>, depth: nat, flat: seq<Point> -> bool, x: real)
    requires |p| == W_DEGREE + 1
  {
    && Crossings(Ys(p)) == 1 && p[0].x <= x <= p[5].x
    && if depth >= 64 then x == (p[0].x + p[5].x) / 2.0
       else flat(p) && p[0].y != p[5].y && (x - p[0].x) * (p[5].y - p[0].y) == (p[5].x - p[0].x) * (0.0 - p[0].y)
  }

  lemma SingleSettles(w: seq<Point>, depth: nat, flat: seq<Point> -> bool, fuel: nat)
    requires |w| == W_DEGREE + 1 && Rising(Xs(w)) && Roots(w, depth, flat, fuel).Some?
    requires Crossings(Ys(w)) == 1 && (depth >= MAX_DEPTH || flat(w))
    ensures |Roots(w, depth, flat, fuel).value| == 1 && Settles(w, depth, flat, Roots(w, depth, flat, fuel).value[0])
  {
    hide Crossings, Intercept;
    RisingEnds(Xs(w));
    EndsAt(w);
    ChordMeetsAxis(w);
  }

  /** Each root is the root of a part with exactly one crossing. */
  lemma {:induction false} PartOfRoot(w: seq<Point>, depth: nat, flat: seq<Point> -> bool, fuel: nat, k: nat) returns (path: seq<bool>)
    requires |w| == W_DEGREE + 1 && Rising(Xs(w)) && Roots(w, depth, flat, fuel).Some? && k < |Roots(w, depth, flat, fuel).value|
    ensures Settles(Part(w, path), depth + |path|, flat, Roots(w, depth, flat, fuel).value[k])
    decreases fuel
  {
    hide Crossings, LeftPoints, RightPoints, Intercept, Settles;
    if Crossings(Ys(w)) == 1 && (depth >= MAX_DEPTH || flat(w)) {
      SingleSettles(w, depth, flat, fuel);
      path := [];
    } else {
      Halves(w);
      var l := |Roots(LeftPoints(w, HALF), depth + 1, flat, fuel - 1).value|;
      var rest := PartOfRoot(if k < l then LeftPoints(w, HALF) else RightPoints(w, HALF), depth + 1, flat, fuel - 1,
                             if k < l then k else k - l);
      path := [k >= l] + rest;
      assert path[1..] == rest;
    }
  }

  // ----- The nearest-point search -----

  /** d taken k times. */
  ghost function Multiple(k: nat, d: real): real {
    if k == 0 then 0.0 else Multiple(k - 1, d) + d
  }

  lemma UpToFive(d: real)
    ensures Multiple(0, d) == 0.0 && Multiple(1, d) == d && Multiple(2, d) == 2.0 * d
    ensures Multiple(3, d) == 3.0 * d && Multiple(4, d) == 4.0 * d && Multiple(5, d) == 5.0 * d
  {
    var n := 0;
    assert Multiple(n, d) == 0.0 && Multiple(n + 1, d) == d;
    assert Multiple(n + 2, d) == Multiple(n + 1, d) + d;
    assert Multiple(n + 3, d) == Multiple(n + 2, d) + d;
    assert Multiple(n + 4, d) == Multiple(n + 3, d) + d;
    assert Multiple(n + 5, d) == Multiple(n + 4, d) + d;
  }

  /** Evenly spaced coefficients make a straight line. */
  lemma {:induction false} EvalEven(s: seq<real>, a: real, d: real, u: real, e: real)
    requires |s| > 0 && e == d * u && forall k :: 0 <= k < |s| ==> s[k] == a + Multiple(k, d)
    ensures Eval(s, u) == a + Multiple(|s| - 1, e)
    decreases |s|
  {
    hide Blend;
    if |s| > 1 {
      EvenMid(s, a, d, u, e);
      EvalEven(Mid(s, u), a + e, d, u, e);
    }
  }

  lemma EvenMid(s: seq<real>, a: real, d: real, u: real, e: real)
    requires |s| > 1 && e == d * u && forall k :: 0 <= k < |s| ==> s[k] == a + Multiple(k, d)
    ensures forall k :: 0 <= k < |s| - 1 ==> Mid(s, u)[k] == a + e + Multiple(k, d)
  {
    hide Blend;
    forall k | 0 <= k < |s| - 1 ensures Mid(s, u)[k] == a + e + Multiple(k, d) {
      EvenStep(s[k], s[k + 1], d, u, e);
    }
  }

  lemma EvenStep(a: real, b: real, d: real, u: real, e: real)
    requires b == a + d && e == d * u
    ensures Blend(a, b, u) == a + e
  {
  }

  /** The abscissa of the search's polygon is the parameter. */
  lemma AbscissaIsParameter(vt: seq<Point>, p: Point, u: real)
    requires |vt| == DEGREE + 1
    ensures Eval(Xs(Polygon(vt, p)), u) == u
  {
    hide Equation, Eval;
    UpToFive(0.2);
    UpToFive(0.2 * u);
    EvalEven(Xs(Polygon(vt, p)), 0.0, 0.2, u, 0.2 * u);
  }

  /**
   Between parameters where the distance from p goes from falling to rising or the other way round, the ends of a part,
   there is a root: in that part, or in a part around it whose polygon has exactly one crossing.
   */
  lemma TurningPointFound(vt: seq<Point>, p: Point, flat: seq<Point> -> bool, fuel: nat, path: seq<bool>) returns (i: nat, k: nat)
    requires |vt| == DEGREE + 1 && Roots(Polygon(vt, p), 0, flat, fuel).Some?
    requires var a, b := At(path, 0.0), At(path, 1.0);
      (Dot(Minus(Curve(vt, a), p), Velocity(vt, a)) < 0.0) != (Dot(Minus(Curve(vt, b), p), Velocity(vt, b)) < 0.0)
    ensures i <= |path| && (i == |path| || CrossingsOf(Polygon(vt, p), path[..i]) == 1)
    ensures k < |Roots(Polygon(vt, p), 0, flat, fuel).value|
    ensures At(path[..i], 0.0) <= Roots(Polygon(vt, p), 0, flat, fuel).value[k] <= At(path[..i], 1.0)
  {
    hide Eval, Roots, Polygon, CrossingsOf, At, Curve, Velocity, Dot, Minus, Equation;
    PolygonRises(vt, p);
    EquationIsExact(vt, p, At(path, 0.0));
    EquationIsExact(vt, p, At(path, 1.0));
    i, k := RootAtSignChange(Polygon(vt, p), 0, flat, fuel, path);
    AbscissaIsParameter(vt, p, At(path[..i], 0.0));
    AbscissaIsParameter(vt, p, At(path[..i], 1.0));
  }
}
