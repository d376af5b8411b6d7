/** Polynomials in Bernstein form over exact reals: de Casteljau subdivision and sign changes of the control polygon. */
module Bernstein {

  function Blend(a: real, b: real, t: real): real {
    (1.0 - t) * a + t * b
  }

  /** One step of de Casteljau's triangle at parameter t. */
  function Mid(s: seq<real>, t: real): (m: seq<real>)
    requires |s| > 0
    ensures |m| == |s| - 1 && forall j :: 0 <= j < |m| ==> m[j] == Blend(s[j], s[j + 1], t)
  {
    seq(|s| - 1, j requires 0 <= j < |s| - 1 => Blend(s[j], s[j + 1], t))
  }

  /** The value at t of the polynomial with these Bernstein coefficients. */
  function Eval(s: seq<real>, t: real): real
    requires |s| > 0
    decreases |s|
  {
    if |s| == 1 then s[0] else Eval(Mid(s, t), t)
  }

  /** The control polygon of the part before t. */
  function Left(s: seq<real>, t: real): (l: seq<real>)
    requires |s| > 0
    ensures |l| == |s| && l[0] == s[0] && l[|l| - 1] == Eval(s, t)
    decreases |s|
  {
    if |s| == 1 then s else [s[0]] + Left(Mid(s, t), t)
  }

  /** The control polygon of the part after t. */
  function Right(s: seq<real>, t: real): (r: seq<real>)
    requires |s| > 0
    ensures |r| == |s| && r[0] == Eval(s, t) && r[|r| - 1] == s[|s| - 1]
    decreases |s|
  {
    if |s| == 1 then s else Right(Mid(s, t), t) + [s[|s| - 1]]
  }

  // ----- Subdivision preserves the curve -----

  lemma CommutePoint(a: real, b: real, c: real, t: real, u: real)
    ensures Blend(Blend(a, b, t), Blend(b, c, t), u) == Blend(Blend(a, b, u), Blend(b, c, u), t)
  {
  }

  lemma Commute(s: seq<real>, t: real, u: real)
    requires |s| > 1
    ensures Mid(Mid(s, t), u) == Mid(Mid(s, u), t)
  {
    forall j | 0 <= j < |s| - 2 ensures Mid(Mid(s, t), u)[j] == Mid(Mid(s, u), t)[j] {
      CommutePoint(s[j], s[j + 1], s[j + 2], t, u);
    }
    hide Blend;
    assert |Mid(Mid(s, t), u)| == |Mid(Mid(s, u), t)|;
  }

  lemma LeftPoint(a: real, b: real, t: real, u: real)
    ensures Blend(a, Blend(a, b, t), u) == Blend(a, b, t * u)
  {
  }

  /** A step over a polygon with a point put in front, or behind. */
  lemma MidAround(a: real, s: seq<real>, b: real, t: real)
    requires |s| > 0
    ensures Mid([a] + s, t) == [Blend(a, s[0], t)] + Mid(s, t)
    ensures Mid(s + [b], t) == Mid(s, t) + [Blend(s[|s| - 1], b, t)]
  {
    hide Blend;
    var f, g := [a] + s, s + [b];
    assert forall j :: 1 <= j < |f| ==> f[j] == s[j - 1];
  }

  /** A step at u in the left part is a step at t*u in the whole. */
  lemma {:induction false} LeftStep(s: seq<real>, t: real, u: real)
    requires |s| > 1
    ensures Mid(Left(s, t), u) == Left(Mid(s, t * u), t)
    decreases |s|
  {
    var m := Mid(s, t);
    LeftPoint(s[0], s[1], t, u);
    hide Blend;
    MidAround(s[0], Left(m, t), 0.0, u);
    if |s| > 2 {
      LeftStep(m, t, u);
      Commute(s, t, t * u);
    } else {
      assert Mid(Left(m, t), u) == [];
    }
  }

  /** The left polygon describes the curve before t. */
  lemma {:induction false} LeftCurve(s: seq<real>, t: real, u: real)
    requires |s| > 0
    ensures Eval(Left(s, t), u) == Eval(s, t * u)
    decreases |s|
  {
    if |s| > 1 {
      LeftStep(s, t, u);
      LeftCurve(Mid(s, t * u), t, u);
    }
  }

  /** The parameter in the whole of u in the part after t. */
  function Later(t: real, u: real): real {
    t + (1.0 - t) * u
  }

  lemma RightPoint(a: real, b: real, t: real, u: real)
    ensures Blend(Blend(a, b, t), b, u) == Blend(a, b, Later(t, u))
  {
  }

  /** A step at u in the right part is a step at the later parameter in the whole. */
  lemma {:induction false} RightStep(s: seq<real>, t: real, u: real)
    requires |s| > 1
    ensures Mid(Right(s, t), u) == Right(Mid(s, Later(t, u)), t)
    decreases |s|
  {
    var m, n, v := Mid(s, t), |s|, Later(t, u);
    RightPoint(s[n - 2], s[n - 1], t, u);
    hide Blend, Later;
    MidAround(0.0, Right(m, t), s[n - 1], u);
    if |s| > 2 {
      RightStep(m, t, u);
      Commute(s, t, v);
    } else {
      assert Mid(Right(m, t), u) == [];
    }
  }

  /** The right polygon describes the curve after t. */
  lemma {:induction false} RightCurve(s: seq<real>, t: real, u: real)
    requires |s| > 0
    ensures Eval(Right(s, t), u) == Eval(s, Later(t, u))
    decreases |s|
  {
    if |s| > 1 {
      RightStep(s, t, u);
      RightCurve(Mid(s, Later(t, u)), t, u);
    }
  }

  lemma {:induction false} EvalEnds(s: seq<real>)
    requires |s| > 0
    ensures Eval(s, 0.0) == s[0] && Eval(s, 1.0) == s[|s| - 1]
    decreases |s|
  {
    if |s| > 1 {
      assert Blend(s[0], s[1], 0.0) == s[0] && Blend(s[|s| - 2], s[|s| - 1], 1.0) == s[|s| - 1];
      hide Blend;
      EvalEnds(Mid(s, 0.0));
      EvalEnds(Mid(s, 1.0));
    }
  }

  // ----- Monotone coefficients -----

  ghost predicate Rising(s: seq<real>) {
    forall i :: 0 <= i < |s| - 1 ==> s[i] <= s[i + 1]
  }

  lemma Between(a: real, b: real, t: real)
    requires a <= b && 0.0 <= t <= 1.0
    ensures a <= Blend(a, b, t) <= b
  {
    var d := b - a;
    assert t * d >= 0.0 && (1.0 - t) * d >= 0.0;
    assert Blend(a, b, t) == a + t * d && Blend(a, b, t) == b - (1.0 - t) * d;
  }

  lemma RisingMid(s: seq<real>, t: real)
    requires |s| > 1 && Rising(s) && 0.0 <= t <= 1.0
    ensures Rising(Mid(s, t)) && s[0] <= Mid(s, t)[0] && Mid(s, t)[|s| - 2] <= s[|s| - 1]
  {
    forall i | 0 <= i < |s| - 1 ensures s[i] <= Mid(s, t)[i] <= s[i + 1] {
      Between(s[i], s[i + 1], t);
    }
  }

  /** Both parts of a rising polygon rise, and the division point lies between the ends. */
  lemma {:induction false} RisingParts(s: seq<real>, t: real)
    requires |s| > 0 && Rising(s) && 0.0 <= t <= 1.0
    ensures Rising(Left(s, t)) && Rising(Right(s, t)) && s[0] <= Eval(s, t) <= s[|s| - 1]
    decreases |s|
  {
    if |s| > 1 {
      RisingMid(s, t);
      RisingParts(Mid(s, t), t);
    }
  }

  // ----- Sign changes -----

  /** SGN: zero counts as positive. */
  function Negative(a: real): bool {
    a < 0.0
  }

  function Change(a: real, b: real): (c: nat)
    ensures c <= 1
  {
    if Negative(a) == Negative(b) then 0 else 1
  }

  /** The number of times the control polygon crosses the axis. */
  function Crossings(s: seq<real>): (c: nat)
    ensures |s| > 0 ==> c < |s|
    decreases |s|
  {
    if |s| < 2 then 0 else Change(s[0], s[1]) + Crossings(s[1..])
  }

  /** Two polygons joined at a shared point. */
  lemma {:induction false} CrossingsJoin(a: seq<real>, b: seq<real>)
    requires |a| > 0 && |b| > 0 && a[|a| - 1] == b[0]
    ensures Crossings(a + b[1..]) == Crossings(a) + Crossings(b)
    decreases |a|
  {
    var j := a + b[1..];
    if |a| == 1 {
      assert j == b;
    } else {
      assert j[0] == a[0] && j[1] == a[1] && j[1..] == a[1..] + b[1..];
      CrossingsJoin(a[1..], b);
    }
  }

  /** Side i of the polygon crosses the axis, 0 counting as positive. */
  predicate Crosses(s: seq<real>, i: int) {
    0 <= i < |s| - 1 && (s[i] < 0.0) != (s[i + 1] < 0.0)
  }

  function CrossingSides(s: seq<real>): set<int> {
    set i | 0 <= i < |s| && Crosses(s, i)
  }

  lemma LastSide(s: seq<real>)
    requires |s| >= 2
    ensures Crossings(s) == Crossings(s[..|s| - 1]) + if Crosses(s, |s| - 2) then 1 else 0
  {
    var n := |s| - 1;
    var last := [s[n - 1], s[n]];
    assert s == s[..n] + last[1..];
    CrossingsJoin(s[..n], last);
    assert last[1..] == [s[n]];
  }

  lemma SidesGrow(s: seq<real>)
    requires |s| >= 2
    ensures |CrossingSides(s)| == |CrossingSides(s[..|s| - 1])| + if Crosses(s, |s| - 2) then 1 else 0
  {
    var n := |s| - 1;
    var sides := CrossingSides(s[..n]);
    forall i | 0 <= i < n - 1 ensures Crosses(s, i) == Crosses(s[..n], i) {
    }
    hide Crosses;
    assert n - 1 !in sides && !Crosses(s, n);
    assert CrossingSides(s) == if Crosses(s, n - 1) then sides + {n - 1} else sides;
  }

  /** Crossings counts these sides. */
  lemma {:induction false} CrossingsAreSides(s: seq<real>)
    ensures Crossings(s) == |CrossingSides(s)|
    decreases |s|
  {
    var n := |s| - 1;
    if n < 1 {
      assert CrossingSides(s) == {};
    } else {
      LastSide(s);
      CrossingsAreSides(s[..n]);
      SidesGrow(s);
    }
  }

  /** The parity of the crossings is that of the change from the first point to the last. */
  lemma {:induction false} CrossingsParity(s: seq<real>)
    requires |s| > 0
    ensures Crossings(s) % 2 == Change(s[0], s[|s| - 1])
    decreases |s|
  {
    if |s| > 1 {
      CrossingsParity(s[1..]);
    }
  }

  lemma MidSign(a: real, b: real, t: real)
    requires 0.0 <= t <= 1.0
    ensures var m := Blend(a, b, t); Negative(m) == Negative(a) || Negative(m) == Negative(b)
  {
    if a <= b {
      Between(a, b, t);
    } else {
      Between(b, a, 1.0 - t);
      assert Blend(a, b, t) == Blend(b, a, 1.0 - t);
    }
  }

  /** The polygon through the ends and the points of one step. */
  function Cut(s: seq<real>, t: real): seq<real>
    requires |s| > 0
  {
    [s[0]] + Mid(s, t) + [s[|s| - 1]]
  }

  lemma FrontCrossings(a: real, x: seq<real>)
    requires |x| > 0
    ensures Crossings([a] + x) == Change(a, x[0]) + Crossings(x)
  {
    assert ([a] + x)[1..] == x;
  }

  /** A point whose sign is that of a or of b, put between them, adds no crossing; put in b's place it saves at most one. */
  lemma BetweenCrossings(a: real, m: real, b: real, x: seq<real>)
    requires |x| > 0 && (Negative(m) == Negative(a) || Negative(m) == Negative(b))
    ensures Crossings([a] + ([m] + x)) <= Change(a, b) + Crossings([b] + x)
  {
    FrontCrossings(a, [m] + x);
    FrontCrossings(m, x);
    FrontCrossings(b, x);
  }

  /** Cutting the corners adds no crossing. */
  lemma {:induction false} CutCrossings(s: seq<real>, t: real)
    requires |s| > 0 && 0.0 <= t <= 1.0
    ensures Crossings(Cut(s, t)) <= Crossings(s)
    decreases |s|
  {
    if |s| == 1 {
      assert Cut(s, t) == [s[0], s[0]];
    } else {
      var later := s[1..];
      CutCrossings(later, t);
      MidSign(s[0], s[1], t);
      assert s == [s[0]] + later;
      MidAround(s[0], later, 0.0, t);
      FrontCrossings(s[0], later);
      hide Blend, Negative, Crossings, Change;
      var x := Mid(later, t) + [s[|s| - 1]];
      assert Cut(later, t) == [s[1]] + x;
      assert Cut(s, t) == [s[0]] + ([Blend(s[0], s[1], t)] + x);
      BetweenCrossings(s[0], Blend(s[0], s[1], t), s[1], x);
    }
  }

  /** Both parts, joined at the division point. */
  function Parts(s: seq<real>, t: real): seq<real>
    requires |s| > 0
  {
    Left(s, t) + Right(s, t)[1..]
  }

  lemma CrossingsEnds(a: real, s: seq<real>, b: real)
    requires |s| > 0
    ensures Crossings([a] + s + [b]) == Change(a, s[0]) + Crossings(s) + Change(s[|s| - 1], b)
  {
    hide Crossings, Change;
    var e := [s[|s| - 1], b];
    CrossingsJoin(s, e);
    FrontCrossings(s[|s| - 1], [b]);
    FrontCrossings(a, s + [b]);
    assert e[1..] == [b] && e == [s[|s| - 1]] + [b];
    assert [a] + s + [b] == [a] + (s + [b]);
  }

  lemma Regroup(a: real, l: seq<real>, r: seq<real>, e: real)
    requires |r| > 0
    ensures [a] + l + (r + [e])[1..] == [a] + (l + r[1..]) + [e]
  {
  }

  lemma PartsStep(s: seq<real>, t: real)
    requires |s| > 1
    ensures Parts(s, t) == [s[0]] + Parts(Mid(s, t), t) + [s[|s| - 1]]
    ensures |Parts(Mid(s, t), t)| > 0 && Parts(Mid(s, t), t)[0] == Mid(s, t)[0]
    ensures Parts(Mid(s, t), t)[|Parts(Mid(s, t), t)| - 1] == Mid(s, t)[|s| - 2]
  {
    hide Blend, Eval;
    var m := Mid(s, t);
    Regroup(s[0], Left(m, t), Right(m, t), s[|s| - 1]);
  }

  lemma {:induction false} PartsCrossings(s: seq<real>, t: real)
    requires |s| > 0 && 0.0 <= t <= 1.0
    ensures Crossings(Parts(s, t)) <= Crossings(s)
    decreases |s|
  {
    if |s| > 1 {
      var m := Mid(s, t);
      PartsCrossings(m, t);
      CutCrossings(s, t);
      PartsStep(s, t);
      hide Blend, Negative, Mid, Left, Right, Parts, Change, Crossings;
      CrossingsEnds(s[0], Parts(m, t), s[|s| - 1]);
      CrossingsEnds(s[0], m, s[|s| - 1]);
    }
  }

  /** Change is a difference of signs: two steps change as one, up to parity. */
  lemma ChangeParity(a: real, m: real, b: real, l: nat, r: nat, s: nat)
    requires l % 2 == Change(a, m) && r % 2 == Change(m, b) && s % 2 == Change(a, b)
    ensures (l + r) % 2 == s % 2
  {
  }

  /** Variation diminishing: subdivision never increases the sign changes, and keeps their parity. */
  lemma VariationDiminishing(s: seq<real>, t: real)
    requires |s| > 0 && 0.0 <= t <= 1.0
    ensures Crossings(Left(s, t)) + Crossings(Right(s, t)) <= Crossings(s)
    ensures (Crossings(Left(s, t)) + Crossings(Right(s, t))) % 2 == Crossings(s) % 2
  {
    hide Blend, Negative, Mid, Left, Right, Change, Crossings, Eval;
    CrossingsJoin(Left(s, t), Right(s, t));
    PartsCrossings(s, t);
    CrossingsParity(Left(s, t));
    CrossingsParity(Right(s, t));
    CrossingsParity(s);
    ChangeParity(s[0], Eval(s, t), s[|s| - 1], Crossings(Left(s, t)), Crossings(Right(s, t)), Crossings(s));
  }
}
