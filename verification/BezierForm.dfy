/** The nearest-point equation of a cubic, in Bernstein form. */
module BezierForm {
  import opened Products
  import opened Bernstein
  import opened BezierRoots
  import opened BernsteinProduct

  const DEGREE := 3

  function Minus(a: Point, b: Point): Point {
    Point(a.x - b.x, a.y - b.y)
  }

  function Dot(a: Point, b: Point): real {
    a.x * b.x + a.y * b.y
  }

  /** The c's: the control points relative to P. */
  function Offsets(vt: seq<Point>, p: Point): (c: seq<Point>)
    ensures |c| == |vt| && forall i :: 0 <= i < |c| ==> c[i] == Minus(vt[i], p)
  {
    seq(|vt|, i requires 0 <= i < |vt| => Minus(vt[i], p))
  }

  /** The d's: three times the steps from control point to control point. */
  function Steps(vt: seq<Point>): (d: seq<Point>)
    requires |vt| == DEGREE + 1
    ensures |d| == DEGREE && forall i {:trigger d[i]} :: 0 <= i < |d| ==> d[i] == Point((vt[i + 1].x - vt[i].x) * 3.0, (vt[i + 1].y - vt[i].y) * 3.0)
  {
    seq(DEGREE, i requires 0 <= i < DEGREE => Point((vt[i + 1].x - vt[i].x) * 3.0, (vt[i + 1].y - vt[i].y) * 3.0))
  }

  /** The precomputed z for cubics. */
  function Z(j: nat, i: nat): real
    requires j < DEGREE && i <= DEGREE
  {
    [[1.0, 0.6, 0.3, 0.1], [0.4, 0.6, 0.6, 0.4], [0.1, 0.3, 0.6, 1.0]][j][i]
  }

  /** The sum over the skew diagonal j + i == k of the weighted dot products, for i from lo on up to hi. */
  function Diagonal(c: seq<Point>, d: seq<Point>, k: nat, lo: nat, hi: int): real
    requires |c| == DEGREE + 1 && |d| == DEGREE && hi <= k && hi <= DEGREE && k < lo + DEGREE
    decreases hi - lo + 1
  {
    if hi < lo then 0.0
    else Diagonal(c, d, k, lo, hi - 1) + Dot(d[k - hi], c[hi]) * Z(k - hi, hi)
  }

  function Low(k: nat): nat { if k < DEGREE then 0 else k - (DEGREE - 1) }

  function High(k: nat): nat { if k < DEGREE then k else DEGREE }

  /** The k-th Bernstein coefficient of the equation. */
  function Coefficient(c: seq<Point>, d: seq<Point>, k: nat): real
    requires |c| == DEGREE + 1 && |d| == DEGREE && k <= W_DEGREE
  {
    Diagonal(c, d, k, Low(k), High(k))
  }

  /** ConvertToBezierForm */
  method ConvertToBezierForm(p: Point, vt: array<Point>, w: array<Point>)
    requires vt.Length == DEGREE + 1 && w.Length == W_DEGREE + 1 && vt != w
    modifies w
    ensures forall k :: 0 <= k <= W_DEGREE ==> w[k] == Point(k as real / 5.0, Coefficient(Offsets(vt[..], p), Steps(vt[..]), k))
  {
    var c := new Point[DEGREE + 1](_ => Point(0.0, 0.0));
    var d := new Point[DEGREE](_ => Point(0.0, 0.0));
    var cdTable := new real[3, 4]((_, _) => 0.0);
    Differences(p, vt, c, d);
    hide *;
    ghost var offsets, steps := c[..], d[..];
    FillTable(c, d, cdTable, offsets, steps);
    ClearY(w);
    AddDiagonals(cdTable, w, offsets, steps);
  }

  /** Determine the c's and the d's. */
  method Differences(p: Point, vt: array<Point>, c: array<Point>, d: array<Point>)
    requires vt.Length == DEGREE + 1 && c.Length == DEGREE + 1 && d.Length == DEGREE && vt != c && vt != d && c != d
    modifies c, d
    ensures c[..] == Offsets(vt[..], p) && d[..] == Steps(vt[..])
  {
    ghost var co, st := Offsets(vt[..], p), Steps(vt[..]);
    var i := 0;
    while i <= DEGREE
      invariant i <= DEGREE + 1 && forall k :: 0 <= k < i ==> c[k] == co[k]
      modifies c
    {
      c[i] := Minus(vt[i], p);
      i := i + 1;
    }
    i := 0;
    while i <= DEGREE - 1
      invariant i <= DEGREE && forall k :: 0 <= k < i ==> d[k] == st[k]
      modifies d
    {
      d[i] := Point((vt[i + 1].x - vt[i].x) * 3.0, (vt[i + 1].y - vt[i].y) * 3.0);
      i := i + 1;
    }
    assert c[..] == co && d[..] == st;
  }

  /** Set up the x-values, evenly spaced, over zero. */
  method ClearY(w: array<Point>)
    requires w.Length == W_DEGREE + 1
    modifies w
    ensures forall k :: 0 <= k <= W_DEGREE ==> w[k] == Point(k as real / 5.0, 0.0)
  {
    var i := 0;
    while i <= W_DEGREE
      invariant i <= W_DEGREE + 1 && forall k :: 0 <= k < i ==> w[k] == Point(k as real / 5.0, 0.0)
    {
      w[i] := Point(i as real / 5.0, 0.0);
      i := i + 1;
    }
  }

  /** All products d[i] . c[j], in the table the equation is gathered from. */
  method FillTable(c: array<Point>, d: array<Point>, cdTable: array2<real>, ghost offsets: seq<Point>, ghost steps: seq<Point>)
    requires c.Length == DEGREE + 1 && d.Length == DEGREE && cdTable.Length0 == 3 && cdTable.Length1 == 4
    requires offsets == c[..] && steps == d[..]
    modifies cdTable
    ensures forall j, i :: 0 <= j < DEGREE && 0 <= i <= DEGREE ==> cdTable[j, i] == Dot(steps[j], offsets[i])
  {
    hide Dot;
    var row := 0;
    while row <= DEGREE - 1
      invariant row <= DEGREE
      invariant forall j, i :: 0 <= j < row && 0 <= i <= DEGREE ==> cdTable[j, i] == Dot(steps[j], offsets[i])
    {
      var column := 0;
      while column <= DEGREE
        invariant column <= DEGREE + 1
        invariant forall j, i :: 0 <= j < row && 0 <= i <= DEGREE ==> cdTable[j, i] == Dot(steps[j], offsets[i])
        invariant forall i :: 0 <= i < column ==> cdTable[row, i] == Dot(steps[row], offsets[i])
      {
        cdTable[row, column] := Dot(d[row], c[column]);
        column := column + 1;
      }
      row := row + 1;
    }
  }

  /** Each coefficient gathers one skew diagonal of the table, weighted by z. */
  method AddDiagonals(cdTable: array2<real>, w: array<Point>, ghost c: seq<Point>, ghost d: seq<Point>)
    requires cdTable.Length0 == 3 && cdTable.Length1 == 4 && w.Length == W_DEGREE + 1 && |c| == DEGREE + 1 && |d| == DEGREE
    requires forall j, i :: 0 <= j < DEGREE && 0 <= i <= DEGREE ==> cdTable[j, i] == Dot(d[j], c[i])
    requires forall k :: 0 <= k <= W_DEGREE ==> w[k] == Point(k as real / 5.0, 0.0)
    modifies w
    ensures forall k :: 0 <= k <= W_DEGREE ==> w[k] == Point(k as real / 5.0, Coefficient(c, d, k))
  {
    hide Dot, Z;
    var n, m, k := DEGREE, DEGREE - 1, 0;
    while k <= n + m
      invariant k <= n + m + 1
      invariant forall l :: 0 <= l < k ==> w[l] == Point(l as real / 5.0, Coefficient(c, d, l))
      invariant forall l :: k <= l <= W_DEGREE ==> w[l] == Point(l as real / 5.0, 0.0)
    {
      var lb := if 0 < k - m then k - m else 0;
      var ub := if k < n then k else n;
      assert lb == Low(k) && ub == High(k);
      var i := lb;
      while i <= ub
        invariant lb <= i <= ub + 1
        invariant forall l :: 0 <= l <= W_DEGREE && l != k ==> w[l] == old(w[l]) || (l < k && w[l] == Point(l as real / 5.0, Coefficient(c, d, l)))
        invariant forall l :: 0 <= l < k ==> w[l] == Point(l as real / 5.0, Coefficient(c, d, l))
        invariant forall l :: k < l <= W_DEGREE ==> w[l] == Point(l as real / 5.0, 0.0)
        invariant w[k] == Point(k as real / 5.0, Diagonal(c, d, k, lb, i - 1))
      {
        var j := k - i;
        w[i + j] := Point(w[i + j].x, w[i + j].y + cdTable[j, i] * Z(j, i));
        i := i + 1;
      }
      k := k + 1;
    }
  }

  // ----- The equation is exact -----

  /** The point of the curve at u. */
  function Curve(vt: seq<Point>, u: real): Point
    requires |vt| > 0
  {
    Point(Eval(Xs(vt), u), Eval(Ys(vt), u))
  }

  /** The curve's derivative at u. */
  function Velocity(vt: seq<Point>, u: real): Point
    requires |vt| == DEGREE + 1
  {
    Curve(Steps(vt), u)
  }

  function Equation(vt: seq<Point>, p: Point): (e: seq<real>)
    requires |vt| == DEGREE + 1
    ensures |e| == W_DEGREE + 1
  {
    seq(W_DEGREE + 1, k requires 0 <= k <= W_DEGREE => Coefficient(Offsets(vt, p), Steps(vt), k))
  }

  lemma CubicAt(a: real, b: real, c: real, d: real, u: real)
    ensures Eval([a, b, c, d], u)
      == Blend(Blend(Blend(a, b, u), Blend(b, c, u), u), Blend(Blend(b, c, u), Blend(c, d, u), u), u)
  {
    hide Blend;
    var p, q, r := Blend(a, b, u), Blend(b, c, u), Blend(c, d, u);
    assert Mid([a, b, c, d], u) == [p, q, r];
    assert Mid([p, q, r], u) == [Blend(p, q, u), Blend(q, r, u)];
    assert Mid([Blend(p, q, u), Blend(q, r, u)], u) == [Blend(Blend(p, q, u), Blend(q, r, u), u)];
    assert Eval([p, q, r], u) == Eval([Blend(p, q, u), Blend(q, r, u)], u);
  }

  lemma QuadraticAt(a: real, b: real, c: real, u: real)
    ensures Eval([a, b, c], u) == Blend(Blend(a, b, u), Blend(b, c, u), u)
  {
    hide Blend;
    var p, q := Blend(a, b, u), Blend(b, c, u);
    assert Mid([a, b, c], u) == [p, q];
    assert Mid([p, q], u) == [Blend(p, q, u)];
    assert Eval([p, q], u) == Eval([Blend(p, q, u)], u);
  }

  /** What is left of the change of a cubic over h when its linear part is taken away, over h^2. */
  function Remainder(a: real, b: real, c: real, d: real, u: real, h: real): real {
    3.0 * (a - 2.0 * b + c) * (1.0 - u) + 3.0 * (b - 2.0 * c + d) * u + h * (d - 3.0 * c + 3.0 * b - a)
  }

  /** A cubic, and below a quadratic, by the powers of its parameter. */
  function Powers(k0: real, k1: real, k2: real, k3: real, u: real): real {
    k0 + k1 * u + k2 * (u * u) + k3 * (u * u * u)
  }

  lemma BlendPowers(k0: real, k1: real, k2: real, l0: real, l1: real, l2: real, u: real)
    ensures Blend(Powers(k0, k1, k2, 0.0, u), Powers(l0, l1, l2, 0.0, u), u) == Powers(k0, k1 + l0 - k0, k2 + l1 - k1, l2 - k2, u)
  {
    Distribute3(1.0 - u, k0, k1 * u, k2 * (u * u));
    Distribute3(u, l0, l1 * u, l2 * (u * u));
  }

  lemma Distribute3(x: real, a: real, b: real, c: real)
    ensures x * (a + b + c) == x * a + x * b + x * c
  {
  }

  lemma ConstantPowers(a: real, u: real)
    ensures Powers(a, 0.0, 0.0, 0.0, u) == a
  {
  }

  lemma LinearPowers(a: real, b: real, k1: real, u: real)
    requires k1 == b - a
    ensures Blend(a, b, u) == Powers(a, k1, 0.0, 0.0, u)
  {
    ConstantPowers(a, u);
    ConstantPowers(b, u);
    BlendAs(a, 0.0, 0.0, b, 0.0, 0.0, k1, 0.0, 0.0, u);
  }

  lemma QuadraticPowers(a: real, b: real, c: real, k1: real, k2: real, u: real)
    requires k1 == 2.0 * (b - a) && k2 == a - 2.0 * b + c
    ensures Blend(Blend(a, b, u), Blend(b, c, u), u) == Powers(a, k1, k2, 0.0, u)
  {
    hide Blend, Powers;
    LinearPowers(a, b, b - a, u);
    LinearPowers(b, c, c - b, u);
    BlendAs(a, b - a, 0.0, b, c - b, 0.0, k1, k2, 0.0, u);
  }

  lemma CubicPowers(a: real, b: real, c: real, d: real, k1: real, k2: real, k3: real, u: real)
    requires k1 == 3.0 * (b - a) && k2 == 3.0 * (a - 2.0 * b + c) && k3 == d - 3.0 * c + 3.0 * b - a
    ensures Blend(Blend(Blend(a, b, u), Blend(b, c, u), u), Blend(Blend(b, c, u), Blend(c, d, u), u), u) == Powers(a, k1, k2, k3, u)
  {
    hide Blend, Powers;
    var p1, p2, q1, q2 := 2.0 * (b - a), a - 2.0 * b + c, 2.0 * (c - b), b - 2.0 * c + d;
    QuadraticPowers(a, b, c, p1, p2, u);
    QuadraticPowers(b, c, d, q1, q2, u);
    BlendAs(a, p1, p2, b, q1, q2, k1, k2, k3, u);
  }

  lemma BlendAs(k0: real, k1: real, k2: real, l0: real, l1: real, l2: real, r1: real, r2: real, r3: real, u: real)
    requires r1 == k1 + l0 - k0 && r2 == k2 + l1 - k1 && r3 == l2 - k2
    ensures Blend(Powers(k0, k1, k2, 0.0, u), Powers(l0, l1, l2, 0.0, u), u) == Powers(k0, r1, r2, r3, u)
  {
    BlendPowers(k0, k1, k2, l0, l1, l2, u);
    hide Blend, Powers;
  }

  lemma SquareShift(k: real, u: real, h: real)
    ensures k * ((u + h) * (u + h)) == k * (u * u) + h * (2.0 * k * u) + h * h * k
  {
  }

  lemma CubeShift(k: real, u: real, h: real)
    ensures k * ((u + h) * (u + h) * (u + h)) == k * (u * u * u) + h * (3.0 * k * (u * u)) + h * h * (3.0 * k * u + h * k)
  {
    SquareShift(k, u, h);
    assert (u + h) * (u + h) * (u + h) == (u + h) * (u * u + 2.0 * u * h + h * h);
  }

  lemma Gathered(h: real, a: real, b: real, c: real, p: real, q: real)
    ensures h * a + h * b + h * c == h * (a + b + c) && h * h * p + h * h * q == h * h * (p + q)
  {
  }

  /** The expansion by h. */
  lemma PowersShift(k0: real, k1: real, k2: real, k3: real, l1: real, l2: real, u: real, w: real, h: real)
    requires l1 == 2.0 * k2 && l2 == 3.0 * k3 && w == u + h
    ensures Powers(k0, k1, k2, k3, w)
      == Powers(k0, k1, k2, k3, u) + h * Powers(k1, l1, l2, 0.0, u) + h * h * (k2 + (3.0 * k3 * u + h * k3))
  {
    SquareShift(k2, u, h);
    CubeShift(k3, u, h);
    Gathered(h, k1, 2.0 * k2 * u, 3.0 * k3 * (u * u), k2, 3.0 * k3 * u + h * k3);
    assert k1 * (u + h) == k1 * u + h * k1;
  }

  lemma Expansion(a: real, b: real, c: real, d: real, l: real, m: real, n: real, u: real, w: real, h: real)
    requires l == (b - a) * 3.0 && m == (c - b) * 3.0 && n == (d - c) * 3.0 && w == u + h
    ensures Blend(Blend(Blend(a, b, w), Blend(b, c, w), w), Blend(Blend(b, c, w), Blend(c, d, w), w), w)
      == Blend(Blend(Blend(a, b, u), Blend(b, c, u), u), Blend(Blend(b, c, u), Blend(c, d, u), u), u)
         + h * Blend(Blend(l, m, u), Blend(m, n, u), u) + h * h * Remainder(a, b, c, d, u, h)
  {
    hide Blend, Powers, Remainder;
    var k2, k3 := 3.0 * (a - 2.0 * b + c), d - 3.0 * c + 3.0 * b - a;
    var l1, l2 := 2.0 * (m - l), l - 2.0 * m + n;
    RemainderIs(a, b, c, d, k2, k3, u, h);
    CubicPowers(a, b, c, d, l, k2, k3, u);
    CubicPowers(a, b, c, d, l, k2, k3, w);
    QuadraticPowers(l, m, n, l1, l2, u);
    PowersShift(a, l, k2, k3, l1, l2, u, w, h);
    Replaced(h, Powers(l, l1, l2, 0.0, u), Blend(Blend(l, m, u), Blend(m, n, u), u),
             k2 + (3.0 * k3 * u + h * k3), Remainder(a, b, c, d, u, h));
  }

  lemma Replaced(h: real, x: real, y: real, p: real, q: real)
    requires x == y && p == q
    ensures h * x + h * h * p == h * y + h * h * q
  {
  }

  lemma RemainderIs(a: real, b: real, c: real, d: real, k2: real, k3: real, u: real, h: real)
    requires k2 == 3.0 * (a - 2.0 * b + c) && k3 == d - 3.0 * c + 3.0 * b - a
    ensures Remainder(a, b, c, d, u, h) == k2 + (3.0 * k3 * u + h * k3)
  {
    var e := b - 2.0 * c + d;
    var f := a - 2.0 * b + c;
    assert 3.0 * f * (1.0 - u) + 3.0 * e * u == 3.0 * f + 3.0 * (e - f) * u;
    assert e - f == d - 3.0 * c + 3.0 * b - a;
  }

  /** The steps' polynomial is the derivative: the change over h is h times it, up to a term in h^2. */
  lemma StepsDerive(s: seq<real>, t: seq<real>, u: real, h: real)
    requires |s| == 4 && |t| == 3 && forall i :: 0 <= i < 3 ==> t[i] == (s[i + 1] - s[i]) * 3.0
    ensures Eval(s, u + h) == Eval(s, u) + h * Eval(t, u) + h * h * Remainder(s[0], s[1], s[2], s[3], u, h)
  {
    hide Eval, Blend, Remainder;
    assert s == [s[0], s[1], s[2], s[3]] && t == [t[0], t[1], t[2]];
    assert t[0] == (s[1] - s[0]) * 3.0 && t[1] == (s[2] - s[1]) * 3.0 && t[2] == (s[3] - s[2]) * 3.0;
    CubicAt(s[0], s[1], s[2], s[3], u);
    CubicAt(s[0], s[1], s[2], s[3], u + h);
    QuadraticAt(t[0], t[1], t[2], u);
    Expansion(s[0], s[1], s[2], s[3], t[0], t[1], t[2], u, u + h, h);
  }

  /** Velocity is the derivative of the curve, in both coordinates. */
  lemma VelocityIsDerivative(vt: seq<Point>, u: real, h: real)
    requires |vt| == DEGREE + 1
    ensures Curve(vt, u + h).x == Curve(vt, u).x + h * Velocity(vt, u).x + h * h * Remainder(vt[0].x, vt[1].x, vt[2].x, vt[3].x, u, h)
    ensures Curve(vt, u + h).y == Curve(vt, u).y + h * Velocity(vt, u).y + h * h * Remainder(vt[0].y, vt[1].y, vt[2].y, vt[3].y, u, h)
  {
    hide Eval, Remainder;
    StepsDerive(Xs(vt), Xs(Steps(vt)), u, h);
    StepsDerive(Ys(vt), Ys(Steps(vt)), u, h);
  }

  function Plus(a: seq<real>, b: seq<real>): (s: seq<real>)
    requires |a| == |b|
    ensures |s| == |a| && forall i :: 0 <= i < |s| ==> s[i] == a[i] + b[i]
  {
    seq(|a|, i requires 0 <= i < |a| => a[i] + b[i])
  }

  lemma BlendPlus(a: real, b: real, c: real, d: real, u: real)
    ensures Blend(a + c, b + d, u) == Blend(a, b, u) + Blend(c, d, u)
  {
  }

  lemma MidPlus(a: seq<real>, b: seq<real>, u: real)
    requires |a| == |b| > 0
    ensures Mid(Plus(a, b), u) == Plus(Mid(a, u), Mid(b, u))
  {
    var m, n := Mid(Plus(a, b), u), Plus(Mid(a, u), Mid(b, u));
    forall j | 0 <= j < |a| - 1 ensures m[j] == n[j] {
      BlendPlus(a[j], a[j + 1], b[j], b[j + 1], u);
    }
    assert |m| == |n|;
  }

  /** The coefficients enter linearly. */
  lemma {:induction false} EvalPlus(a: seq<real>, b: seq<real>, u: real)
    requires |a| == |b| > 0
    ensures Eval(Plus(a, b), u) == Eval(a, u) + Eval(b, u)
    decreases |a|
  {
    hide Blend, Mid, Plus;
    if |a| > 1 {
      MidPlus(a, b, u);
      EvalPlus(Mid(a, u), Mid(b, u), u);
    }
  }

  lemma BlendMinus(a: real, b: real, e: real, u: real)
    ensures Blend(a - e, b - e, u) == Blend(a, b, u) - e
  {
  }

  /** Moving every control point moves the curve. */
  lemma {:induction false} EvalMoved(a: seq<real>, b: seq<real>, e: real, u: real)
    requires |a| == |b| > 0 && forall i :: 0 <= i < |a| ==> b[i] == a[i] - e
    ensures Eval(b, u) == Eval(a, u) - e
    decreases |a|
  {
    if |a| > 1 {
      forall j | 0 <= j < |a| - 1 ensures Mid(b, u)[j] == Mid(a, u)[j] - e {
        BlendMinus(a[j], a[j + 1], e, u);
      }
      hide Blend;
      EvalMoved(Mid(a, u), Mid(b, u), e, u);
    }
  }

  lemma DotIsMul(a: Point, b: Point)
    ensures Dot(a, b) == Mul(a.x, b.x) + Mul(a.y, b.y)
  {
  }

  lemma ShortDiagonals(c: seq<Point>, d: seq<Point>)
    requires |c| == DEGREE + 1 && |d| == DEGREE
    ensures Coefficient(c, d, 0) == Dot(d[0], c[0]) && Coefficient(c, d, 5) == Dot(d[2], c[3])
    ensures Coefficient(c, d, 1) == 0.4 * Dot(d[1], c[0]) + 0.6 * Dot(d[0], c[1])
    ensures Coefficient(c, d, 4) == 0.6 * Dot(d[2], c[2]) + 0.4 * Dot(d[1], c[3])
  {
    hide Dot;
    assert Diagonal(c, d, 1, 0, 0) == 0.4 * Dot(d[1], c[0]);
    assert Diagonal(c, d, 4, 2, 2) == 0.6 * Dot(d[2], c[2]);
  }

  lemma LongDiagonals(c: seq<Point>, d: seq<Point>)
    requires |c| == DEGREE + 1 && |d| == DEGREE
    ensures Coefficient(c, d, 2) == 0.1 * Dot(d[2], c[0]) + 0.6 * Dot(d[1], c[1]) + 0.3 * Dot(d[0], c[2])
    ensures Coefficient(c, d, 3) == 0.3 * Dot(d[2], c[1]) + 0.6 * Dot(d[1], c[2]) + 0.1 * Dot(d[0], c[3])
  {
    hide Dot;
    assert Diagonal(c, d, 2, 0, 0) == 0.1 * Dot(d[2], c[0]);
    assert Diagonal(c, d, 2, 0, 1) == 0.1 * Dot(d[2], c[0]) + 0.6 * Dot(d[1], c[1]);
    assert Diagonal(c, d, 3, 1, 1) == 0.3 * Dot(d[2], c[1]);
    assert Diagonal(c, d, 3, 1, 2) == 0.3 * Dot(d[2], c[1]) + 0.6 * Dot(d[1], c[2]);
  }

  /** The skew diagonals are the coefficients of two products, one for each coordinate. */
  lemma DiagonalsAreProducts(c: seq<Point>, d: seq<Point>, k: nat)
    requires |c| == DEGREE + 1 && |d| == DEGREE && k <= W_DEGREE
    ensures Coefficient(c, d, k) == Product(Xs(c), Xs(d))[k] + Product(Ys(c), Ys(d))[k]
  {
    ShortDiagonals(c, d);
    LongDiagonals(c, d);
    hide Coefficient, Dot, Mul;
    DotIsMul(d[0], c[0]); DotIsMul(d[0], c[1]); DotIsMul(d[0], c[2]); DotIsMul(d[0], c[3]);
    DotIsMul(d[1], c[0]); DotIsMul(d[1], c[1]); DotIsMul(d[1], c[2]); DotIsMul(d[1], c[3]);
    DotIsMul(d[2], c[0]); DotIsMul(d[2], c[1]); DotIsMul(d[2], c[2]); DotIsMul(d[2], c[3]);
  }

  lemma EquationIsSum(vt: seq<Point>, p: Point)
    requires |vt| == DEGREE + 1
    ensures var c, d := Offsets(vt, p), Steps(vt);
      Equation(vt, p) == Plus(Product(Xs(c), Xs(d)), Product(Ys(c), Ys(d)))
  {
    var c, d := Offsets(vt, p), Steps(vt);
    forall k | 0 <= k <= W_DEGREE ensures Equation(vt, p)[k] == Product(Xs(c), Xs(d))[k] + Product(Ys(c), Ys(d))[k] {
      hide Product;
      DiagonalsAreProducts(c, d, k);
    }
    hide Coefficient, Product;
  }

  /** At every parameter the equation's polynomial is the scalar product of the curve's offset from p and its derivative. */
  lemma EquationIsExact(vt: seq<Point>, p: Point, u: real)
    requires |vt| == DEGREE + 1
    ensures Eval(Equation(vt, p), u) == Dot(Minus(Curve(vt, u), p), Velocity(vt, u))
  {
    hide Equation, Product, Eval, Plus, Mul;
    var c, d := Offsets(vt, p), Steps(vt);
    EquationIsSum(vt, p);
    EvalPlus(Product(Xs(c), Xs(d)), Product(Ys(c), Ys(d)), u);
    ProductForm(Xs(c), Xs(d), u);
    ProductForm(Ys(c), Ys(d), u);
    EvalMoved(Xs(vt), Xs(c), p.x, u);
    EvalMoved(Ys(vt), Ys(c), p.y, u);
    DotIsMul(Minus(Curve(vt, u), p), Velocity(vt, u));
  }
}
