/** Polynomials of degrees two to five in Bernstein form, and the form of a product. */
module BernsteinProduct {
  import opened Products
  import opened Bernstein

  lemma {:induction false} EvalSplit(s: seq<real>, u: real)
    requires |s| > 1
    ensures Eval(s, u) == Blend(Eval(s[..|s| - 1], u), Eval(s[1..], u), u)
    decreases |s|
  {
    hide Blend;
    if |s| > 2 {
      var n := |s|;
      EvalSplit(Mid(s, u), u);
      assert Mid(s, u)[..n - 2] == Mid(s[..n - 1], u);
      assert Mid(s, u)[1..] == Mid(s[1..], u);
    } else {
      assert s[..1] == [s[0]] && s[1..] == [s[1]];
      assert Mid(s, u) == [Blend(s[0], s[1], u)];
    }
  }

  /** v^i u^j */
  function Mono(v: real, u: real, i: nat, j: nat): real {
    if i > 0 then Mul(v, Mono(v, u, i - 1, j))
    else if j > 0 then Mul(u, Mono(v, u, 0, j - 1))
    else 1.0
  }

  lemma Swap(a: real, b: real, c: real)
    ensures Mul(a, Mul(b, c)) == Mul(b, Mul(a, c))
  {
  }

  lemma Associate(a: real, b: real, c: real)
    ensures Mul(Mul(a, b), c) == Mul(a, Mul(b, c))
  {
  }

  lemma Unit(a: real)
    ensures Mul(1.0, a) == a && Mul(a, 1.0) == a
  {
  }

  lemma BlendIs(a: real, b: real, u: real)
    ensures Blend(a, b, u) == Mul(1.0 - u, a) + Mul(u, b)
  {
  }

  lemma {:induction false} MonoNext(v: real, u: real, i: nat, j: nat)
    ensures Mul(v, Mono(v, u, i, j)) == Mono(v, u, i + 1, j) && Mul(u, Mono(v, u, i, j)) == Mono(v, u, i, j + 1)
  {
    hide Mul;
    if i > 0 {
      MonoNext(v, u, i - 1, j);
      Swap(u, v, Mono(v, u, i - 1, j));
    }
  }

  lemma {:induction false} MonoProduct(v: real, u: real, i: nat, j: nat, k: nat, l: nat)
    ensures Mul(Mono(v, u, i, j), Mono(v, u, k, l)) == Mono(v, u, i + k, j + l)
    decreases i, j
  {
    hide Mul;
    if i > 0 {
      MonoProduct(v, u, i - 1, j, k, l);
      Associate(v, Mono(v, u, i - 1, j), Mono(v, u, k, l));
    } else if j > 0 {
      MonoProduct(v, u, 0, j - 1, k, l);
      Associate(u, Mono(v, u, 0, j - 1), Mono(v, u, k, l));
      MonoNext(v, u, k, j - 1 + l);
    } else {
      Unit(Mono(v, u, k, l));
    }
  }

  /** A monomial term, taken one degree up on either side. */
  lemma TermNext(v: real, u: real, i: nat, j: nat, a: real)
    ensures Mul(v, Mul(Mono(v, u, i, j), a)) == Mul(Mono(v, u, i + 1, j), a)
    ensures Mul(u, Mul(Mono(v, u, i, j), a)) == Mul(Mono(v, u, i, j + 1), a)
  {
    MonoNext(v, u, i, j);
    Associate(v, Mono(v, u, i, j), a);
    Associate(u, Mono(v, u, i, j), a);
  }

  lemma Eval2(a: real, b: real, u: real)
    ensures var v := 1.0 - u; Eval([a, b], u) == Mul(Mono(v, u, 1, 0), a) + Mul(Mono(v, u, 0, 1), b)
  {
    var v := 1.0 - u;
    assert Mid([a, b], u) == [Blend(a, b, u)];
    BlendIs(a, b, u);
    hide Mul, Blend;
    Unit(v);
    Unit(u);
    assert Mono(v, u, 0, 0) == 1.0;
    assert Mono(v, u, 1, 0) == Mul(v, Mono(v, u, 0, 0)) && Mono(v, u, 0, 1) == Mul(u, Mono(v, u, 0, 0));
  }

  lemma Scale2(v: real, x0: real, x1: real)
    ensures Mul(v, x0 + x1) == Mul(v, x0) + Mul(v, x1)
  {
  }

  lemma Eval3(a: real, b: real, c: real, u: real)
    ensures var v := 1.0 - u;
      Eval([a, b, c], u)
      == Mul(Mono(v, u, 2, 0), a) + 2.0 * Mul(Mono(v, u, 1, 1), b) + Mul(Mono(v, u, 0, 2), c)
  {
    hide Mul, Mono, Eval, Blend;
    var v := 1.0 - u;
    EvalSplit([a, b, c], u);
    BlendIs(Eval([a, b], u), Eval([b, c], u), u);
    assert [a, b, c][..2] == [a, b] && [a, b, c][1..] == [b, c];
    Eval2(a, b, u);
    Eval2(b, c, u);
    TermNext(v, u, 1, 0, a);
    TermNext(v, u, 0, 1, b);
    TermNext(v, u, 1, 0, b);
    TermNext(v, u, 0, 1, c);
    Scale2(v, Mul(Mono(v, u, 1, 0), a), Mul(Mono(v, u, 0, 1), b));
    Scale2(u, Mul(Mono(v, u, 1, 0), b), Mul(Mono(v, u, 0, 1), c));
  }

  lemma Scale3(v: real, x0: real, x1: real, x2: real)
    ensures Mul(v, x0 + 2.0 * x1 + x2)
      == Mul(v, x0) + 2.0 * Mul(v, x1) + Mul(v, x2)
  {
  }

  lemma Eval4(a: real, b: real, c: real, d: real, u: real)
    ensures var v := 1.0 - u;
      Eval([a, b, c, d], u)
      == Mul(Mono(v, u, 3, 0), a) + 3.0 * Mul(Mono(v, u, 2, 1), b) + 3.0 * Mul(Mono(v, u, 1, 2), c) + Mul(Mono(v, u, 0, 3), d)
  {
    hide Mul, Mono, Eval, Blend;
    var v := 1.0 - u;
    EvalSplit([a, b, c, d], u);
    BlendIs(Eval([a, b, c], u), Eval([b, c, d], u), u);
    assert [a, b, c, d][..3] == [a, b, c] && [a, b, c, d][1..] == [b, c, d];
    Eval3(a, b, c, u);
    Eval3(b, c, d, u);
    TermNext(v, u, 2, 0, a);
    TermNext(v, u, 1, 1, b);
    TermNext(v, u, 0, 2, c);
    TermNext(v, u, 2, 0, b);
    TermNext(v, u, 1, 1, c);
    TermNext(v, u, 0, 2, d);
    Scale3(v, Mul(Mono(v, u, 2, 0), a), Mul(Mono(v, u, 1, 1), b), Mul(Mono(v, u, 0, 2), c));
    Scale3(u, Mul(Mono(v, u, 2, 0), b), Mul(Mono(v, u, 1, 1), c), Mul(Mono(v, u, 0, 2), d));
  }

  lemma Scale4(v: real, x0: real, x1: real, x2: real, x3: real)
    ensures Mul(v, x0 + 3.0 * x1 + 3.0 * x2 + x3)
      == Mul(v, x0) + 3.0 * Mul(v, x1) + 3.0 * Mul(v, x2) + Mul(v, x3)
  {
  }

  lemma Eval5(a: real, b: real, c: real, d: real, e: real, u: real)
    ensures var v := 1.0 - u;
      Eval([a, b, c, d, e], u)
      == Mul(Mono(v, u, 4, 0), a) + 4.0 * Mul(Mono(v, u, 3, 1), b) + 6.0 * Mul(Mono(v, u, 2, 2), c)
         + 4.0 * Mul(Mono(v, u, 1, 3), d) + Mul(Mono(v, u, 0, 4), e)
  {
    hide Mul, Mono, Eval, Blend;
    var v := 1.0 - u;
    EvalSplit([a, b, c, d, e], u);
    BlendIs(Eval([a, b, c, d], u), Eval([b, c, d, e], u), u);
    assert [a, b, c, d, e][..4] == [a, b, c, d] && [a, b, c, d, e][1..] == [b, c, d, e];
    Eval4(a, b, c, d, u);
    Eval4(b, c, d, e, u);
    TermNext(v, u, 3, 0, a);
    TermNext(v, u, 2, 1, b);
    TermNext(v, u, 1, 2, c);
    TermNext(v, u, 0, 3, d);
    TermNext(v, u, 3, 0, b);
    TermNext(v, u, 2, 1, c);
    TermNext(v, u, 1, 2, d);
    TermNext(v, u, 0, 3, e);
    Scale4(v, Mul(Mono(v, u, 3, 0), a), Mul(Mono(v, u, 2, 1), b), Mul(Mono(v, u, 1, 2), c), Mul(Mono(v, u, 0, 3), d));
    Scale4(u, Mul(Mono(v, u, 3, 0), b), Mul(Mono(v, u, 2, 1), c), Mul(Mono(v, u, 1, 2), d), Mul(Mono(v, u, 0, 3), e));
  }

  lemma Scale5(v: real, x0: real, x1: real, x2: real, x3: real, x4: real)
    ensures Mul(v, x0 + 4.0 * x1 + 6.0 * x2 + 4.0 * x3 + x4)
      == Mul(v, x0) + 4.0 * Mul(v, x1) + 6.0 * Mul(v, x2) + 4.0 * Mul(v, x3) + Mul(v, x4)
  {
  }

  lemma Eval6(a: real, b: real, c: real, d: real, e: real, f: real, u: real)
    ensures var v := 1.0 - u;
      Eval([a, b, c, d, e, f], u)
      == Mul(Mono(v, u, 5, 0), a) + 5.0 * Mul(Mono(v, u, 4, 1), b) + 10.0 * Mul(Mono(v, u, 3, 2), c)
         + 10.0 * Mul(Mono(v, u, 2, 3), d) + 5.0 * Mul(Mono(v, u, 1, 4), e) + Mul(Mono(v, u, 0, 5), f)
  {
    hide Mul, Mono, Eval, Blend;
    var v := 1.0 - u;
    EvalSplit([a, b, c, d, e, f], u);
    BlendIs(Eval([a, b, c, d, e], u), Eval([b, c, d, e, f], u), u);
    assert [a, b, c, d, e, f][..5] == [a, b, c, d, e] && [a, b, c, d, e, f][1..] == [b, c, d, e, f];
    Eval5(a, b, c, d, e, u);
    Eval5(b, c, d, e, f, u);
    TermNext(v, u, 4, 0, a);
    TermNext(v, u, 3, 1, b);
    TermNext(v, u, 2, 2, c);
    TermNext(v, u, 1, 3, d);
    TermNext(v, u, 0, 4, e);
    TermNext(v, u, 4, 0, b);
    TermNext(v, u, 3, 1, c);
    TermNext(v, u, 2, 2, d);
    TermNext(v, u, 1, 3, e);
    TermNext(v, u, 0, 4, f);
    Scale5(v, Mul(Mono(v, u, 4, 0), a), Mul(Mono(v, u, 3, 1), b), Mul(Mono(v, u, 2, 2), c), Mul(Mono(v, u, 1, 3), d), Mul(Mono(v, u, 0, 4), e));
    Scale5(u, Mul(Mono(v, u, 4, 0), b), Mul(Mono(v, u, 3, 1), c), Mul(Mono(v, u, 2, 2), d), Mul(Mono(v, u, 1, 3), e), Mul(Mono(v, u, 0, 4), f));
  }

  // ----- The product of a cubic and a quadratic -----

  /** The coefficients of the product: each pair of coefficients contributes once, with the weight of the table. */
  function Product(c: seq<real>, d: seq<real>): (w: seq<real>)
    requires |c| == 4 && |d| == 3
    ensures |w| == 6
  {
    [Mul(d[0], c[0]),
     0.4 * Mul(d[1], c[0]) + 0.6 * Mul(d[0], c[1]),
     0.1 * Mul(d[2], c[0]) + 0.6 * Mul(d[1], c[1]) + 0.3 * Mul(d[0], c[2]),
     0.3 * Mul(d[2], c[1]) + 0.6 * Mul(d[1], c[2]) + 0.1 * Mul(d[0], c[3]),
     0.6 * Mul(d[2], c[2]) + 0.4 * Mul(d[1], c[3]),
     Mul(d[2], c[3])]
  }

  /** One term of the cubic times one of the quadratic. */
  lemma Term(v: real, u: real, i: nat, j: nat, c: real, k: nat, l: nat, d: real)
    ensures Mul(Mul(Mono(v, u, i, j), c), Mul(Mono(v, u, k, l), d)) == Mul(Mono(v, u, i + k, j + l), Mul(d, c))
  {
    MonoProduct(v, u, i, j, k, l);
    Cross(Mono(v, u, i, j), c, Mono(v, u, k, l), d);
  }

  lemma Cross(a: real, c: real, b: real, d: real)
    ensures Mul(Mul(a, c), Mul(b, d)) == Mul(Mul(a, b), Mul(d, c))
  {
    assert (a * c) * (b * d) == (a * b) * (d * c);
  }

  lemma Expand(p0: real, p1: real, p2: real, p3: real, q0: real, q1: real, q2: real)
    ensures Mul(p0 + 3.0 * p1 + 3.0 * p2 + p3, q0 + 2.0 * q1 + q2)
      == Mul(p0, q0) + 2.0 * Mul(p0, q1) + Mul(p0, q2) + 3.0 * Mul(p1, q0) + 6.0 * Mul(p1, q1) + 3.0 * Mul(p1, q2)
         + 3.0 * Mul(p2, q0) + 6.0 * Mul(p2, q1) + 3.0 * Mul(p2, q2) + Mul(p3, q0) + 2.0 * Mul(p3, q1) + Mul(p3, q2)
  {
  }

  lemma Collect2(m: real, w: real, a: real, x: real, b: real, y: real)
    requires w == a * x + b * y
    ensures Mul(m, w) == a * Mul(m, x) + b * Mul(m, y)
  {
  }

  lemma Collect3(m: real, w: real, a: real, x: real, b: real, y: real, c: real, z: real)
    requires w == a * x + b * y + c * z
    ensures Mul(m, w) == a * Mul(m, x) + b * Mul(m, y) + c * Mul(m, z)
  {
  }

  /** The Bernstein product form: the weighted coefficients are those of the product polynomial. */
  lemma ProductForm(c: seq<real>, d: seq<real>, u: real)
    requires |c| == 4 && |d| == 3
    ensures Eval(Product(c, d), u) == Mul(Eval(c, u), Eval(d, u))
  {
    hide Mul, Mono, Eval;
    assert c == [c[0], c[1], c[2], c[3]] && d == [d[0], d[1], d[2]];
    ProductTerms(c[0], c[1], c[2], c[3], d[0], d[1], d[2], u);
  }

  lemma ProductTerms(c0: real, c1: real, c2: real, c3: real, d0: real, d1: real, d2: real, u: real)
    ensures Eval(Product([c0, c1, c2, c3], [d0, d1, d2]), u) == Mul(Eval([c0, c1, c2, c3], u), Eval([d0, d1, d2], u))
  {
    hide Mul, Mono, Eval;
    var v := 1.0 - u;
    var w1, w2 := 0.4 * Mul(d1, c0) + 0.6 * Mul(d0, c1), 0.1 * Mul(d2, c0) + 0.6 * Mul(d1, c1) + 0.3 * Mul(d0, c2);
    var w3, w4 := 0.3 * Mul(d2, c1) + 0.6 * Mul(d1, c2) + 0.1 * Mul(d0, c3), 0.6 * Mul(d2, c2) + 0.4 * Mul(d1, c3);
    assert Product([c0, c1, c2, c3], [d0, d1, d2]) == [Mul(d0, c0), w1, w2, w3, w4, Mul(d2, c3)];
    Eval4(c0, c1, c2, c3, u);
    Eval3(d0, d1, d2, u);
    Eval6(Mul(d0, c0), w1, w2, w3, w4, Mul(d2, c3), u);
    Expand(Mul(Mono(v, u, 3, 0), c0), Mul(Mono(v, u, 2, 1), c1), Mul(Mono(v, u, 1, 2), c2), Mul(Mono(v, u, 0, 3), c3),
           Mul(Mono(v, u, 2, 0), d0), Mul(Mono(v, u, 1, 1), d1), Mul(Mono(v, u, 0, 2), d2));
    Term(v, u, 3, 0, c0, 2, 0, d0);
    Term(v, u, 3, 0, c0, 1, 1, d1);
    Term(v, u, 3, 0, c0, 0, 2, d2);
    Term(v, u, 2, 1, c1, 2, 0, d0);
    Term(v, u, 2, 1, c1, 1, 1, d1);
    Term(v, u, 2, 1, c1, 0, 2, d2);
    Term(v, u, 1, 2, c2, 2, 0, d0);
    Term(v, u, 1, 2, c2, 1, 1, d1);
    Term(v, u, 1, 2, c2, 0, 2, d2);
    Term(v, u, 0, 3, c3, 2, 0, d0);
    Term(v, u, 0, 3, c3, 1, 1, d1);
    Term(v, u, 0, 3, c3, 0, 2, d2);
    Collect2(Mono(v, u, 4, 1), w1, 0.4, Mul(d1, c0), 0.6, Mul(d0, c1));
    Collect3(Mono(v, u, 3, 2), w2, 0.1, Mul(d2, c0), 0.6, Mul(d1, c1), 0.3, Mul(d0, c2));
    Collect3(Mono(v, u, 2, 3), w3, 0.3, Mul(d2, c1), 0.6, Mul(d1, c2), 0.1, Mul(d0, c3));
    Collect2(Mono(v, u, 1, 4), w4, 0.6, Mul(d2, c2), 0.4, Mul(d1, c3));
  }
}
