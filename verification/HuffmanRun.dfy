/** What a whole run of the merge loop gives beyond an optimal code: short words for small totals, and a deepest pseudo-symbol. */
module HuffmanRun {
  import opened BitStrings
  import opened HuffmanOptimality
  import opened HuffmanTree

  // ----- A word of n bits needs a Fibonacci number of uses -----

  function Fib(n: nat): nat {
    if n < 2 then n else Fib(n - 1) + Fib(n - 2)
  }

  lemma {:induction false} FibMonotone(a: nat, b: nat)
    requires 1 <= a <= b
    ensures Fib(a) <= Fib(b)
    decreases b - a
  {
    if a < b {
      FibMonotone(a, b - 1);
    }
  }

  /** The tree of s weighs at least the Fibonacci number its depth calls for, and every tree the one before it. */
  ghost predicate Heavy(t: Trees, s: nat)
    requires |t.f| == |t.cs| == |t.root| && s < |t.f|
  {
    && t.root[s] < |t.f| && Fib(t.cs[s] + 2) <= t.f[t.root[s]]
    && forall j :: 0 <= j < |t.f| && t.f[j] > 0 ==> Fib(t.cs[s] + 1) <= t.f[j]
  }

  lemma HeavyStep(f0: seq<nat>, t: Trees, c1: nat, c2: nat, s: nat)
    requires |t.f| == |t.cs| == |t.root| == |f0| && s < |f0| && f0[s] > 0
    requires t.root[s] < |f0| && t.f[t.root[s]] > 0
    requires ChosenPair(t.f, c1, c2) && Heavy(t, s)
    ensures Heavy(Joining(f0, t, c1, c2), s)
  {
    var t' := Joining(f0, t, c1, c2);
    if t.root[s] == c1 || t.root[s] == c2 {
      assert Fib(t.cs[s] + 3) == Fib(t.cs[s] + 2) + Fib(t.cs[s] + 1);
      forall j | 0 <= j < |f0| && t'.f[j] > 0 ensures Fib(t'.cs[s] + 1) <= t'.f[j] {
        if j != c1 {
          assert Precedes(t.f, c1, j) && Precedes(t.f, c2, j);
        }
      }
    }
  }

  lemma {:induction false} HeavyRun(f0: seq<nat>, pairs: seq<Pair>, s: nat)
    requires |f0| == SYMBOLS && f0[PSEUDO] == 1 && FoundFirst(f0, pairs) && s < SYMBOLS && f0[s] > 0
    ensures Heavy(Grown(f0, pairs), s) && Grown(f0, pairs).f[Grown(f0, pairs).root[s]] > 0
    decreases |pairs|
  {
    hide Grown, Joining, Fib;
    var wb := GrownHolds(f0, pairs);
    if pairs == [] {
      HeavyStart(f0, s);
    } else {
      var earlier, p := pairs[..|pairs| - 1], pairs[|pairs| - 1];
      HeavyRun(f0, earlier, s);
      LastPair(pairs);
      GrownStep(f0, earlier, p);
      HeavyStep(f0, Grown(f0, earlier), p.first, p.second, s);
    }
  }

  lemma HeavyStart(f0: seq<nat>, s: nat)
    requires s < |f0| && f0[s] > 0
    ensures Heavy(Grown(f0, []), s)
  {
    assert Fib(1) == Fib(2) == 1;
  }

  lemma WeightedRun(f0: seq<nat>, pairs: seq<Pair>)
    requires |f0| == SYMBOLS && f0[PSEUDO] == 1 && FoundFirst(f0, pairs)
    ensures Weighted(f0, Grown(f0, pairs).f, Grown(f0, pairs).root)
  {
    hide Grown, Total, Mask, Shares, Cost, Live;
    var wb := GrownHolds(f0, pairs);
  }

  /** No tree weighs more than all counts. */
  lemma WithinTotal(f0: seq<nat>, f: seq<nat>, root: seq<nat>, i: nat)
    requires Weighted(f0, f, root) && i < SYMBOLS
    ensures f[i] <= Total(f0)
  {
    hide Total;
    TotalMonotone(Mask(f0, root, i), f0);
  }

  /** A word of n bits needs a total of at least the Fibonacci number of n + 2. */
  lemma LongNeedsMany(f: seq<nat>, cs: seq<nat>, pairs: seq<Pair>, s: nat)
    requires BuiltBy(f, cs, pairs) && s < SYMBOLS && f[s] > 0
    ensures Fib(cs[s] + 2) <= Total(f)
  {
    hide Grown, Total, Fib, Mask;
    var t := Grown(f, pairs);
    HeavyRun(f, pairs, s);
    WeightedRun(f, pairs);
    WithinTotal(f, t.f, t.root, t.root[s]);
  }

  /** The least total for which a word of more than 32 bits is possible. */
  const LONG_TOTAL := 9_227_465

  lemma LongTotal()
    ensures Fib(35) == LONG_TOTAL
  {
    assert Fib(2) == 1 && Fib(3) == 2 && Fib(4) == 3 && Fib(5) == 5 && Fib(6) == 8 && Fib(7) == 13 && Fib(8) == 21;
    assert Fib(9) == 34 && Fib(10) == 55 && Fib(11) == 89 && Fib(12) == 144 && Fib(13) == 233 && Fib(14) == 377;
    assert Fib(15) == 610 && Fib(16) == 987 && Fib(17) == 1597 && Fib(18) == 2584 && Fib(19) == 4181 && Fib(20) == 6765;
    assert Fib(21) == 10946 && Fib(22) == 17711 && Fib(23) == 28657 && Fib(24) == 46368 && Fib(25) == 75025;
    assert Fib(26) == 121393 && Fib(27) == 196418 && Fib(28) == 317811 && Fib(29) == 514229 && Fib(30) == 832040;
    assert Fib(31) == 1346269 && Fib(32) == 2178309 && Fib(33) == 3524578 && Fib(34) == 5702887;
  }

  /** Counts with a smaller total have no word of more than 32 bits. */
  lemma LongOnlyFrom(f: seq<nat>, cs: seq<nat>, pairs: seq<Pair>, s: nat)
    requires BuiltBy(f, cs, pairs) && s < |cs| && cs[s] > 32 && f[s] > 0
    ensures Total(f) >= LONG_TOTAL
  {
    hide Grown, Total, Fib;
    LongNeedsMany(f, cs, pairs, s);
    FibMonotone(35, cs[s] + 2);
    LongTotal();
  }

  // ----- A symbol that is not among the rarest has a shorter word than the pseudo-symbol -----

  /** s lies higher than the pseudo-symbol, by two bits unless its tree comes after the pseudo-symbol's. */
  ghost predicate Higher(t: Trees, s: nat)
    requires |t.f| == |t.cs| == |t.root| == SYMBOLS && s < SYMBOLS
  {
    && t.root[s] < SYMBOLS && t.root[PSEUDO] < SYMBOLS
    && t.cs[s] < t.cs[PSEUDO]
    && (t.root[s] != t.root[PSEUDO] && t.cs[s] + 1 == t.cs[PSEUDO] ==> Precedes(t.f, t.root[PSEUDO], t.root[s]))
  }

  lemma HigherStep(f0: seq<nat>, t: Trees, c1: nat, c2: nat, s: nat)
    requires |t.f| == |t.cs| == |t.root| == |f0| == SYMBOLS && s < SYMBOLS && f0[s] > 0 && f0[PSEUDO] > 0
    requires ChosenPair(t.f, c1, c2) && Higher(t, s)
    requires t.f[t.root[s]] > 0 && t.f[t.root[PSEUDO]] > 0
    requires var r := t.root[PSEUDO]; r != c1 && r != c2 ==> Precedes(Merge(t.f, c1, c2), r, c1)
    ensures Higher(Joining(f0, t, c1, c2), s)
  {
    var r := t.root[PSEUDO];
    if r != c1 && r != c2 && (t.root[s] == c1 || t.root[s] == c2) {
      assert Precedes(t.f, c1, r) && Precedes(t.f, c2, r);
    }
  }

  /** The first merge joins the pseudo-symbol and a rarest symbol. */
  lemma HigherStart(f0: seq<nat>, p: Pair, s: nat, y: nat)
    requires |f0| == SYMBOLS && f0[PSEUDO] == 1 && Found(f0, p) && s < PSEUDO && y < PSEUDO && 0 < f0[y] < f0[s]
    ensures Higher(Grown(f0, [p]), s)
  {
    assert [p][..0] == [];
    assert Grown(f0, []).f == f0;
    assert p.first == PSEUDO;
    if p.second != y {
      assert Precedes(f0, p.second, y);
    }
  }

  lemma {:induction false} HigherRun(f0: seq<nat>, pairs: seq<Pair>, s: nat, y: nat)
    requires |f0| == SYMBOLS && f0[PSEUDO] == 1 && FoundFirst(f0, pairs) && pairs != []
    requires s < PSEUDO && y < PSEUDO && 0 < f0[y] < f0[s]
    ensures Higher(Grown(f0, pairs), s)
    decreases |pairs|
  {
    hide Joining;
    var earlier, p := pairs[..|pairs| - 1], pairs[|pairs| - 1];
    LastPair(pairs);
    if earlier == [] {
      assert pairs == [p];
      assert Grown(f0, earlier).f == f0;
      HigherStart(f0, p, s, y);
    } else {
      hide Grown, Total, Shares, Mask, Cost, Live;
      HigherRun(f0, earlier, s, y);
      GrownStep(f0, earlier, p);
      HigherOneMore(f0, earlier, p, s);
    }
  }

  lemma HigherOneMore(f0: seq<nat>, pairs: seq<Pair>, p: Pair, s: nat)
    requires |f0| == SYMBOLS && f0[PSEUDO] == 1 && FoundFirst(f0, pairs) && Found(Grown(f0, pairs).f, p)
    requires s < PSEUDO && f0[s] > 0 && Higher(Grown(f0, pairs), s)
    ensures Higher(Joining(f0, Grown(f0, pairs), p.first, p.second), s)
  {
    hide Joining, Grown, Total, Shares, Mask, Cost, Live;
    var t := Grown(f0, pairs);
    var wb := GrownHolds(f0, pairs);
    wb := LightStep(t.f, t.root[PSEUDO], wb, p.first, p.second);
    HigherStep(f0, t, p.first, p.second, s);
  }

  /** A symbol counted more often than another has a shorter word than the pseudo-symbol. */
  lemma OnlyRarestDeepest(f: seq<nat>, cs: seq<nat>, pairs: seq<Pair>, s: nat, y: nat)
    requires BuiltBy(f, cs, pairs) && Total(f) <= MAX_FREQ && s < PSEUDO && y < PSEUDO && 0 < f[y] < f[s]
    ensures cs[s] < cs[PSEUDO]
  {
    TotalNonNegative(f);
    assert Grown(f, []).f == f;
    assert pairs != [];
    HigherRun(f, pairs, s, y);
  }

  // ----- The run is determined by the counts -----

  lemma {:induction false} FoundAt(f: seq<nat>, pairs: seq<Pair>, k: nat)
    requires FoundFirst(f, pairs) && k < |pairs|
    ensures FoundFirst(f, pairs[..k]) && Found(Grown(f, pairs[..k]).f, pairs[k])
    decreases |pairs|
  {
    var n := |pairs| - 1;
    if k < n {
      hide Found, Grown;
      FoundAt(f, pairs[..n], k);
      assert pairs[..n][..k] == pairs[..k];
    }
  }

  lemma SamePair(f: seq<nat>, p: Pair, q: Pair)
    requires Found(f, p) && Found(f, q)
    ensures p == q
  {
  }

  lemma {:induction false} SameRun(f: seq<nat>, p: seq<Pair>, q: seq<Pair>, k: nat)
    requires FoundFirst(f, p) && FoundFirst(f, q) && k <= |p| && k <= |q|
    ensures p[..k] == q[..k]
  {
    hide Found, FoundFirst, Grown;
    if k > 0 {
      assert p[..k] == p[..k - 1] + [p[k - 1]] && q[..k] == q[..k - 1] + [q[k - 1]];
      SameRun(f, p, q, k - 1);
      FoundAt(f, p, k - 1);
      FoundAt(f, q, k - 1);
      SamePair(Grown(f, p[..k - 1]).f, p[k - 1], q[k - 1]);
    }
  }

  lemma NothingAfter(f: seq<nat>, p: seq<Pair>, q: seq<Pair>, c: int)
    requires FoundFirst(f, p) && FoundFirst(f, q) && NoneBut(Grown(f, p).f, c)
    ensures |q| <= |p|
  {
    if |p| < |q| {
      SameRun(f, p, q, |p|);
      assert p[..|p|] == p;
      FoundAt(f, q, |p|);
      assert false;
    }
  }

  /** The counts determine the code lengths. */
  lemma OneResult(f: seq<nat>, cs: seq<nat>, p: seq<Pair>, cs': seq<nat>, q: seq<Pair>)
    requires BuiltBy(f, cs, p) && BuiltBy(f, cs', q)
    ensures p == q && cs == cs'
  {
    hide Grown;
    var c: int :| NoneBut(Grown(f, p).f, c);
    var d: int :| NoneBut(Grown(f, q).f, d);
    NothingAfter(f, p, q, c);
    NothingAfter(f, q, p, d);
    SameRun(f, p, q, |p|);
    assert p[..|p|] == p && q[..|p|] == q;
  }
}
