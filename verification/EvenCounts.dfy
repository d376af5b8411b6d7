/** The merge loop on equal counts: all real symbols but one counted equally often. */
module EvenCounts {
  import opened BitStrings
  import opened HuffmanOptimality
  import opened HuffmanTree

  /** Every real symbol but x is counted m times; x may be counted any number of times, or never. */
  ghost predicate Even(f: seq<nat>, x: nat, m: nat) {
    && |f| == SYMBOLS && f[PSEUDO] == 1 && x < PSEUDO && m > 0
    && forall s :: 0 <= s < PSEUDO && s != x ==> f[s] == m
  }

  /** x is counted at least as often as 128 others together; on a tie, its number decides. */
  predicate Towers(f: seq<nat>, x: nat, m: nat)
    requires x < |f|
  {
    f[x] > 128 * m || (f[x] == 128 * m && x < 128)
  }

  /** The real symbols besides x, the last one first. */
  function Nth(x: nat, k: nat): (s: nat)
    requires x < PSEUDO && k < PSEUDO - 1
    ensures s < PSEUDO && s != x
  {
    if 255 - k > x then 255 - k else 254 - k
  }

  lemma NthOrder(x: nat, j: nat, k: nat)
    requires x < PSEUDO && j < PSEUDO - 1 && k < PSEUDO - 1
    ensures j < k <==> Nth(x, j) > Nth(x, k)
    ensures j == k <==> Nth(x, j) == Nth(x, k)
  {
  }

  // ----- How far the loop has come -----

  /**
   Growing: the pseudo-symbol's tree has 2^h leaves, and the others follow in the order of their roots, first p of the
   same size, then those of half the size; ks gives their roots. Joined: all but x are in one tree. Capped: x has been
   put beside it. Early: x was merged with a smaller tree.
   */
  datatype Stage = Growing(h: nat, ks: seq<nat>, p: nat) | Joined | Capped | Early

  /** Each tree starts where the one before it ends. */
  ghost predicate Gaps(h: nat, ks: seq<nat>, p: nat) {
    forall j :: 1 <= j < |ks| ==> 2 * ks[j] == 2 * ks[j - 1] + if j <= p then 2 * Pow2(h) else Pow2(h)
  }

  /** Together the trees have 256 leaves, one tree after the other. */
  ghost predicate Ranks(h: nat, ks: seq<nat>, p: nat) {
    && h <= 7 && 0 < |ks| && p <= |ks| && p + |ks| + 2 == Pow2(9 - h) && (h == 0 ==> p == |ks|)
    && ks[0] == Pow2(h) - 1
    && (forall j :: 0 <= j < |ks| ==> ks[j] < PSEUDO - 1)
    && (forall i, j :: 0 <= i < j < |ks| ==> ks[i] < ks[j])
    && Gaps(h, ks, p)
  }

  ghost function Weight(m: nat, h: nat, p: nat, j: nat): nat {
    if j < p || h == 0 then Shl(m, h) else Shl(m, h - 1)
  }

  ghost predicate Roots(x: nat, ks: seq<nat>, s: nat)
    requires x < PSEUDO && forall j :: 0 <= j < |ks| ==> ks[j] < PSEUDO - 1
  {
    exists j :: 0 <= j < |ks| && s == Nth(x, ks[j])
  }

  ghost predicate Weighed(f0: seq<nat>, f: seq<nat>, x: nat, m: nat, h: nat, ks: seq<nat>, p: nat)
    requires x < PSEUDO && Ranks(h, ks, p)
  {
    && |f0| == |f| == SYMBOLS && f[PSEUDO] + m == Shl(m, h) + 1 && f[x] == f0[x]
    && (forall j :: 0 <= j < |ks| ==> f[Nth(x, ks[j])] == Weight(m, h, p, j))
    && (forall s :: 0 <= s < PSEUDO && s != x && f[s] > 0 ==> Roots(x, ks, s))
  }

  /** Symbol s is in the pseudo-symbol's tree, or in the j-th after it. */
  ghost predicate PlacedAt(cs: seq<nat>, root: seq<nat>, x: nat, h: nat, ks: seq<nat>, p: nat, s: nat)
    requires x < PSEUDO && Ranks(h, ks, p) && |cs| == |root| == SYMBOLS && s < SYMBOLS
  {
    || (root[s] == PSEUDO && cs[s] == h)
    || exists j :: 0 <= j < |ks| && root[s] == Nth(x, ks[j]) && cs[s] == if j < p || h == 0 then h else h - 1
  }

  ghost predicate Placed(cs: seq<nat>, root: seq<nat>, x: nat, h: nat, ks: seq<nat>, p: nat)
    requires x < PSEUDO && Ranks(h, ks, p)
  {
    && |cs| == |root| == SYMBOLS && root[PSEUDO] == PSEUDO && root[x] == x && cs[x] == 0
    && forall s :: 0 <= s < SYMBOLS && s != x ==> PlacedAt(cs, root, x, h, ks, p, s)
  }

  ghost predicate AllJoined(f0: seq<nat>, t: Trees, x: nat, m: nat)
    requires x < |f0|
  {
    && |f0| == |t.f| == |t.cs| == |t.root| == SYMBOLS && x < PSEUDO
    && (f0[x] == 0 || Towers(f0, x, m)) && t.f[PSEUDO] > 0 && t.f[x] == f0[x] && t.root[x] == x && t.cs[x] == 0
    && forall s :: 0 <= s < SYMBOLS && s != x ==> t.root[s] == PSEUDO && t.cs[s] == 8 && (s != PSEUDO ==> t.f[s] == 0)
  }

  ghost predicate AllCapped(f0: seq<nat>, t: Trees, x: nat, m: nat)
    requires x < |f0|
  {
    && |f0| == |t.f| == |t.cs| == |t.root| == SYMBOLS && x < PSEUDO
    && f0[x] > 0 && Towers(f0, x, m) && t.cs[x] == 1
    && (t.f[x] == 0 || t.f[PSEUDO] == 0)
    && forall s :: 0 <= s < SYMBOLS && s != x ==> t.cs[s] == 9 && (s != PSEUDO ==> t.f[s] == 0)
  }

  /** Symbol s shares x's tree, at most seven bits deeper. */
  ghost predicate Near(f0: seq<nat>, t: Trees, x: nat, s: nat)
    requires |f0| == |t.cs| == |t.root| && x < |f0|
  {
    s < |f0| && s != x && f0[s] > 0 && t.root[s] == t.root[x] && t.cs[s] <= t.cs[x] + 7
  }

  ghost predicate Reached(stage: Stage, f0: seq<nat>, t: Trees, x: nat, m: nat)
    requires Even(f0, x, m) && |f0| == |t.f| == |t.cs| == |t.root|
  {
    match stage
    case Growing(h, ks, p) => Ranks(h, ks, p) && Weighed(f0, t.f, x, m, h, ks, p) && Placed(t.cs, t.root, x, h, ks, p)
    case Joined => AllJoined(f0, t, x, m)
    case Capped => AllCapped(f0, t, x, m)
    case Early => f0[x] > 0 && !Towers(f0, x, m) && exists s :: Near(f0, t, x, s)
  }

  // ----- One merge -----

  lemma Halves(m: nat, h: nat)
    requires 0 < h
    ensures 2 * Shl(m, h - 1) == Shl(m, h) && Shl(m, h - 1) >= m
  {
    ShlAtLeast(m, h - 1);
  }

  lemma {:induction false} ShlAtLeast(m: nat, h: nat)
    ensures Shl(m, h) >= m
  {
    if h > 0 {
      ShlAtLeast(m, h - 1);
    }
  }

  /** No tree weighs more than 128 counts while the trees grow. */
  lemma AtMost128(m: nat, h: nat)
    requires h <= 7
    ensures Shl(m, h) <= 128 * m && (h < 7 ==> 2 * Shl(m, h) <= 128 * m)
  {
    ShlUpTo(m, h, 7);
    if h < 7 {
      ShlUpTo(m, h + 1, 7);
    }
    assert Shl(m, 1) == 2 * m;
    assert Shl(m, 3) == 8 * m;
    assert Shl(m, 5) == 32 * m;
  }

  lemma {:induction false} ShlUpTo(m: nat, g: nat, h: nat)
    requires g <= h
    ensures Shl(m, g) <= Shl(m, h)
    decreases h - g
  {
    if g < h {
      ShlUpTo(m, g, h - 1);
    }
  }

  lemma Even9(h: nat)
    requires h <= 8
    ensures Pow2(9 - h) == 2 * Pow2(8 - h)
  {
  }

  /** While half-size trees are left the search finds the first two of them. */
  lemma FindsHalves(f0: seq<nat>, f: seq<nat>, x: nat, m: nat, h: nat, ks: seq<nat>, p: nat, c1: nat, c2: nat)
    requires x < PSEUDO && m > 0 && Ranks(h, ks, p) && Weighed(f0, f, x, m, h, ks, p) && p < |ks|
    requires ChosenPair(f, c1, c2) && c1 != x && c2 != x
    ensures p + 1 < |ks| && c1 == Nth(x, ks[p]) && c2 == Nth(x, ks[p + 1])
  {
    hide Gaps, Nth, Shl, Pow2;
    Even9(h);
    Halves(m, h);
    var a, b := Nth(x, ks[p]), Nth(x, ks[p + 1]);
    NthOrder(x, ks[p], ks[p + 1]);
    assert f[a] == Weight(m, h, p, p) && f[b] == Weight(m, h, p, p + 1);
    assert forall s :: 0 <= s < SYMBOLS && s != x && f[s] > 0 && s != a && s != b ==> Precedes(f, b, s) by {
      forall s | 0 <= s < SYMBOLS && s != x && f[s] > 0 && s != a && s != b ensures Precedes(f, b, s) {
        if s < PSEUDO {
          var j :| 0 <= j < |ks| && s == Nth(x, ks[j]);
          NthOrder(x, ks[j], ks[p + 1]);
          assert f[s] == Weight(m, h, p, j);
        }
      }
    }
    assert Precedes(f, a, b);
  }

  /** Otherwise it finds the pseudo-symbol's tree and the first of the others. */
  lemma FindsPseudo(f0: seq<nat>, f: seq<nat>, x: nat, m: nat, h: nat, ks: seq<nat>, p: nat, c1: nat, c2: nat)
    requires x < PSEUDO && m > 0 && Ranks(h, ks, p) && Weighed(f0, f, x, m, h, ks, p) && p == |ks|
    requires ChosenPair(f, c1, c2) && c1 != x && c2 != x
    ensures c1 == PSEUDO && c2 == Nth(x, ks[0])
  {
    hide Gaps, Nth, Shl, Pow2;
    ShlAtLeast(m, h);
    var b := Nth(x, ks[0]);
    assert f[b] == Weight(m, h, p, 0);
    assert forall s :: 0 <= s < PSEUDO && s != x && f[s] > 0 && s != b ==> Precedes(f, b, s) by {
      forall s | 0 <= s < PSEUDO && s != x && f[s] > 0 && s != b ensures Precedes(f, b, s) {
        var j :| 0 <= j < |ks| && s == Nth(x, ks[j]);
        NthOrder(x, ks[j], ks[0]);
        assert f[s] == Weight(m, h, p, j);
      }
    }
    assert Precedes(f, PSEUDO, b);
  }

  /** The list without its j-th entry. */
  ghost function Skip(ks: seq<nat>, j: nat): (r: seq<nat>)
    requires j < |ks|
    ensures |r| == |ks| - 1 && forall i :: 0 <= i < |r| ==> r[i] == if i < j then ks[i] else ks[i + 1]
  {
    ks[..j] + ks[j + 1..]
  }

  lemma GapsHalf(h: nat, ks: seq<nat>, p: nat)
    requires Gaps(h, ks, p) && p + 1 < |ks|
    ensures Gaps(h, Skip(ks, p + 1), p + 1)
  {
    hide Pow2;
    var ls := Skip(ks, p + 1);
    forall j | 1 <= j < |ls| ensures 2 * ls[j] == 2 * ls[j - 1] + if j <= p + 1 then 2 * Pow2(h) else Pow2(h) {
      if j <= p {
        assert ls[j] == ks[j] && ls[j - 1] == ks[j - 1];
      } else if j == p + 1 {
        assert ls[j] == ks[p + 2] && ls[j - 1] == ks[p] && 2 * ks[p + 1] == 2 * ks[p] + Pow2(h);
      } else {
        assert ls[j] == ks[j + 1] && ls[j - 1] == ks[j];
      }
    }
  }

  lemma RanksHalf(h: nat, ks: seq<nat>, p: nat)
    requires Ranks(h, ks, p) && p + 1 < |ks|
    ensures Ranks(h, Skip(ks, p + 1), p + 1) && h > 0
  {
    hide Gaps, Pow2;
    GapsHalf(h, ks, p);
  }

  lemma RanksPseudo(h: nat, ks: seq<nat>, p: nat)
    requires Ranks(h, ks, p) && p == |ks| && h < 7
    ensures Ranks(h + 1, Skip(ks, 0), 0)
  {
    Even9(h);
    Even9(h + 1);
    Pow2Monotone(1, 7 - h);
    assert Pow2(h + 1) == 2 * Pow2(h) && Pow2(9 - h) == 2 * Pow2(8 - h) && Pow2(8 - h) == 2 * Pow2(7 - h);
    hide Pow2;
    assert |ks| >= 3;
  }

  lemma WeighedHalf(f0: seq<nat>, f: seq<nat>, x: nat, m: nat, h: nat, ks: seq<nat>, p: nat)
    requires x < PSEUDO && Ranks(h, ks, p) && p + 1 < |ks| && Weighed(f0, f, x, m, h, ks, p)
    ensures h > 0 && Ranks(h, Skip(ks, p + 1), p + 1)
    ensures Weighed(f0, Merge(f, Nth(x, ks[p]), Nth(x, ks[p + 1])), x, m, h, Skip(ks, p + 1), p + 1)
  {
    hide Gaps, Nth, Shl, Pow2, Weight, Roots;
    RanksHalf(h, ks, p);
    var ls, f' := Skip(ks, p + 1), Merge(f, Nth(x, ks[p]), Nth(x, ks[p + 1]));
    NthOrder(x, ks[p], ks[p + 1]);
    forall j | 0 <= j < |ls| ensures f'[Nth(x, ls[j])] == Weight(m, h, p + 1, j) {
      WeightHalf(f0, f, x, m, h, ks, p, j);
    }
    forall s | 0 <= s < PSEUDO && s != x && f'[s] > 0 ensures Roots(x, ls, s) {
      RootHalf(f0, f, x, m, h, ks, p, s);
    }
  }

  lemma WeightHalf(f0: seq<nat>, f: seq<nat>, x: nat, m: nat, h: nat, ks: seq<nat>, p: nat, j: nat)
    requires x < PSEUDO && Ranks(h, ks, p) && p + 1 < |ks| && Weighed(f0, f, x, m, h, ks, p) && j < |ks| - 1
    ensures Merge(f, Nth(x, ks[p]), Nth(x, ks[p + 1]))[Nth(x, Skip(ks, p + 1)[j])] == Weight(m, h, p + 1, j)
  {
    hide Gaps, Nth, Shl, Pow2, Roots;
    RanksHalf(h, ks, p);
    Halves(m, h);
    var i := if j < p + 1 then j else j + 1;
    NthOrder(x, ks[p], ks[p + 1]);
    NthOrder(x, ks[i], ks[p]);
    NthOrder(x, ks[i], ks[p + 1]);
    assert f[Nth(x, ks[i])] == Weight(m, h, p, i) && f[Nth(x, ks[p])] == Weight(m, h, p, p);
    assert f[Nth(x, ks[p + 1])] == Weight(m, h, p, p + 1);
  }

  lemma RootHalf(f0: seq<nat>, f: seq<nat>, x: nat, m: nat, h: nat, ks: seq<nat>, p: nat, s: nat)
    requires x < PSEUDO && Ranks(h, ks, p) && p + 1 < |ks| && Weighed(f0, f, x, m, h, ks, p)
    requires s < PSEUDO && s != x && Merge(f, Nth(x, ks[p]), Nth(x, ks[p + 1]))[s] > 0
    ensures Roots(x, Skip(ks, p + 1), s)
  {
    hide Gaps, Nth, Shl, Pow2, Weight;
    NthOrder(x, ks[p], ks[p + 1]);
    assert Roots(x, ks, Nth(x, ks[p]));
    assert s == Nth(x, ks[p]) || f[s] > 0;
    assert Roots(x, ks, s);
    RootsSkip(x, ks, p + 1, s);
  }

  lemma RootsSkip(x: nat, ks: seq<nat>, q: nat, s: nat)
    requires x < PSEUDO && q < |ks| && (forall j :: 0 <= j < |ks| ==> ks[j] < PSEUDO - 1)
    requires Roots(x, ks, s) && s != Nth(x, ks[q])
    ensures Roots(x, Skip(ks, q), s)
  {
    hide Nth;
    var i :| 0 <= i < |ks| && s == Nth(x, ks[i]);
    assert Skip(ks, q)[if i < q then i else i - 1] == ks[i];
  }

  lemma WeighedPseudo(f0: seq<nat>, f: seq<nat>, x: nat, m: nat, h: nat, ks: seq<nat>, p: nat)
    requires x < PSEUDO && Ranks(h, ks, p) && p == |ks| && h < 7 && Weighed(f0, f, x, m, h, ks, p)
    ensures Ranks(h + 1, Skip(ks, 0), 0)
    ensures Weighed(f0, Merge(f, PSEUDO, Nth(x, ks[0])), x, m, h + 1, Skip(ks, 0), 0)
  {
    hide Gaps, Nth, Shl, Pow2;
    RanksPseudo(h, ks, p);
    Halves(m, h + 1);
    var b, ls := Nth(x, ks[0]), Skip(ks, 0);
    var f' := Merge(f, PSEUDO, b);
    assert f[b] == Weight(m, h, p, 0);
    forall j | 0 <= j < |ls| ensures f'[Nth(x, ls[j])] == Weight(m, h + 1, 0, j) {
      NthOrder(x, ks[j + 1], ks[0]);
      assert f[Nth(x, ks[j + 1])] == Weight(m, h, p, j + 1);
    }
    forall s | 0 <= s < PSEUDO && s != x && f'[s] > 0 ensures Roots(x, ls, s) {
      assert f[s] > 0 && s != b;
      var i :| 0 <= i < |ks| && s == Nth(x, ks[i]);
      assert ls[i - 1] == ks[i];
    }
  }

  lemma PlacedHalf(f0: seq<nat>, t: Trees, x: nat, m: nat, h: nat, ks: seq<nat>, p: nat)
    requires Even(f0, x, m) && |t.f| == |t.cs| == |t.root| == SYMBOLS
    requires Ranks(h, ks, p) && p + 1 < |ks| && Placed(t.cs, t.root, x, h, ks, p)
    ensures h > 0 && Ranks(h, Skip(ks, p + 1), p + 1)
    ensures var t' := Joining(f0, t, Nth(x, ks[p]), Nth(x, ks[p + 1])); Placed(t'.cs, t'.root, x, h, Skip(ks, p + 1), p + 1)
  {
    hide Gaps, Nth, Pow2, Merge;
    RanksHalf(h, ks, p);
    var a, b, ls, q := Nth(x, ks[p]), Nth(x, ks[p + 1]), Skip(ks, p + 1), p + 1;
    var t' := Joining(f0, t, a, b);
    forall s | 0 <= s < SYMBOLS && s != x ensures PlacedAt(t'.cs, t'.root, x, h, ls, q, s) {
      assert PlacedAt(t.cs, t.root, x, h, ks, p, s);
      if t.root[s] != PSEUDO {
        var i :| 0 <= i < |ks| && t.root[s] == Nth(x, ks[i]) && t.cs[s] == if i < p || h == 0 then h else h - 1;
        NthOrder(x, ks[i], ks[p]);
        NthOrder(x, ks[i], ks[p + 1]);
        var j := if i < p + 1 then i else i - 1;
        assert ls[j] == if i == p + 1 then ks[p] else ks[i];
        assert t'.root[s] == Nth(x, ls[j]) && t'.cs[s] == if j < p + 1 then h else h - 1;
      }
    }
  }

  lemma PlacedPseudo(f0: seq<nat>, t: Trees, x: nat, m: nat, h: nat, ks: seq<nat>, p: nat)
    requires Even(f0, x, m) && |t.f| == |t.cs| == |t.root| == SYMBOLS
    requires Ranks(h, ks, p) && p == |ks| && h < 7 && Placed(t.cs, t.root, x, h, ks, p)
    ensures Ranks(h + 1, Skip(ks, 0), 0)
    ensures var t' := Joining(f0, t, PSEUDO, Nth(x, ks[0])); Placed(t'.cs, t'.root, x, h + 1, Skip(ks, 0), 0)
  {
    hide Gaps, Nth, Pow2, Merge;
    RanksPseudo(h, ks, p);
    var b, ls, g := Nth(x, ks[0]), Skip(ks, 0), h + 1;
    var t' := Joining(f0, t, PSEUDO, b);
    forall s | 0 <= s < SYMBOLS && s != x ensures PlacedAt(t'.cs, t'.root, x, g, ls, 0, s) {
      assert PlacedAt(t.cs, t.root, x, h, ks, p, s);
      if t.root[s] != PSEUDO {
        var i :| 0 <= i < |ks| && t.root[s] == Nth(x, ks[i]) && t.cs[s] == if i < p || h == 0 then h else h - 1;
        NthOrder(x, ks[i], ks[0]);
        if i > 0 {
          assert ls[i - 1] == ks[i] && t'.root[s] == Nth(x, ls[i - 1]) && t'.cs[s] == g - 1;
        }
      }
    }
  }

  lemma LastRanks(ks: seq<nat>, p: nat)
    requires Ranks(7, ks, p)
    ensures ks[0] == 127 && (p == |ks| ==> |ks| == 1)
  {
    Pow2Constants();
    assert Pow2(2) == 4;
  }

  /** Two trees of 128 leaves become one of 256: by then x has not been found. */
  lemma JoinsAll(f0: seq<nat>, t: Trees, x: nat, m: nat, ks: seq<nat>, p: nat, c1: nat, c2: nat)
    requires Even(f0, x, m) && |t.f| == |t.cs| == |t.root| == SYMBOLS
    requires Reached(Growing(7, ks, p), f0, t, x, m) && p == |ks|
    requires ChosenPair(t.f, c1, c2) && c1 != x && c2 != x
    ensures AllJoined(f0, Joining(f0, t, c1, c2), x, m)
  {
    LastRanks(ks, p);
    var b := Nth(x, ks[0]);
    FindsPseudo(f0, t.f, x, m, 7, ks, p, c1, c2);
    assert t.f[b] == Weight(m, 7, p, 0) == 128 * m by {
      Shl7(m);
    }
    if f0[x] > 0 {
      assert Precedes(t.f, b, x);
    }
    hide Shl, Pow2, Weight;
    forall s | 0 <= s < SYMBOLS && s != x ensures t.root[s] == PSEUDO || t.root[s] == b {
      assert PlacedAt(t.cs, t.root, x, 7, ks, p, s);
    }
    forall s | 0 <= s < SYMBOLS && s != x ensures t.cs[s] == 7 {
      assert PlacedAt(t.cs, t.root, x, 7, ks, p, s);
    }
    assert forall s :: 0 <= s < PSEUDO && s != x && s != b ==> t.f[s] == 0;
  }

  lemma Shl7(m: nat)
    ensures Shl(m, 7) == 128 * m
  {
    assert Shl(m, 1) == 2 * m;
    assert Shl(m, 3) == 8 * m;
    assert Shl(m, 5) == 32 * m;
  }

  /** When x is found while the trees grow, its partner is at most seven bits deep. */
  lemma FoundEarly(f0: seq<nat>, t: Trees, x: nat, m: nat, h: nat, ks: seq<nat>, p: nat, c1: nat, c2: nat)
    requires Even(f0, x, m) && |t.f| == |t.cs| == |t.root| == SYMBOLS && Reached(Growing(h, ks, p), f0, t, x, m)
    requires Rooted(f0, t.f, t.root) && ChosenPair(t.f, c1, c2) && (c1 == x || c2 == x)
    ensures Reached(Early, f0, Joining(f0, t, c1, c2), x, m)
  {
    hide Gaps, Nth, Shl, Pow2, Merge;
    NotTowering(f0, t.f, x, m, h, ks, p, c1, c2);
    var o := if c1 == x then c2 else c1;
    assert t.root[o] == o && f0[o] > 0 && t.root[x] == x;
    assert PlacedAt(t.cs, t.root, x, h, ks, p, o);
    assert Near(f0, Joining(f0, t, c1, c2), x, o);
  }

  /** Where x towers it comes after two others. */
  lemma TowersLast(f0: seq<nat>, f: seq<nat>, x: nat, m: nat, h: nat, ks: seq<nat>, p: nat)
    requires Even(f0, x, m) && Ranks(h, ks, p) && Weighed(f0, f, x, m, h, ks, p) && Towers(f0, x, m)
    ensures Precedes(f, PSEUDO, x) && Precedes(f, Nth(x, ks[0]), x) && f[PSEUDO] > 0 && f[Nth(x, ks[0])] > 0
  {
    TwoGrowing(f0, f, x, m, h, ks, p);
    AtMost128(m, h);
    if h > 0 {
      Halves(m, h);
    }
    assert f[Nth(x, ks[0])] == Weight(m, h, p, 0);
    if h == 7 {
      LastRanks(ks, p);
    }
    hide Shl, Pow2;
  }

  lemma NotTowering(f0: seq<nat>, f: seq<nat>, x: nat, m: nat, h: nat, ks: seq<nat>, p: nat, c1: nat, c2: nat)
    requires Even(f0, x, m) && Ranks(h, ks, p) && Weighed(f0, f, x, m, h, ks, p)
    requires ChosenPair(f, c1, c2) && (c1 == x || c2 == x)
    ensures !Towers(f0, x, m)
  {
    hide Gaps, Nth, Shl, Pow2, Weight, Roots;
    if Towers(f0, x, m) {
      TowersLast(f0, f, x, m, h, ks, p);
      assert false;
    }
  }

  lemma CapsAll(f0: seq<nat>, t: Trees, x: nat, m: nat, c1: nat, c2: nat)
    requires Even(f0, x, m) && AllJoined(f0, t, x, m) && ChosenPair(t.f, c1, c2)
    ensures AllCapped(f0, Joining(f0, t, c1, c2), x, m)
  {
  }

  lemma StaysNear(f0: seq<nat>, t: Trees, x: nat, s: nat, c1: nat, c2: nat)
    requires |t.f| == |t.cs| == |t.root| == |f0| && c1 < |f0| && c2 < |f0| && x < |f0| && f0[x] > 0 && Near(f0, t, x, s)
    ensures Near(f0, Joining(f0, t, c1, c2), x, s)
  {
  }

  /** One merge leads from one stage to the next. */
  lemma NextStage(stage: Stage, f0: seq<nat>, t: Trees, x: nat, m: nat, c1: nat, c2: nat) returns (next: Stage)
    requires Even(f0, x, m) && |t.f| == |t.cs| == |t.root| == SYMBOLS && Reached(stage, f0, t, x, m)
    requires Rooted(f0, t.f, t.root) && ChosenPair(t.f, c1, c2)
    ensures Reached(next, f0, Joining(f0, t, c1, c2), x, m)
  {
    match stage
    case Growing(h, ks, p) =>
      if c1 == x || c2 == x {
        FoundEarly(f0, t, x, m, h, ks, p, c1, c2);
        next := Early;
      } else {
        next := KeepGrowing(f0, t, x, m, h, ks, p, c1, c2);
      }
    case Joined =>
      CapsAll(f0, t, x, m, c1, c2);
      next := Capped;
    case Capped =>
      assert false;
    case Early =>
      var s :| Near(f0, t, x, s);
      StaysNear(f0, t, x, s, c1, c2);
      next := Early;
  }

  lemma KeepGrowing(f0: seq<nat>, t: Trees, x: nat, m: nat, h: nat, ks: seq<nat>, p: nat, c1: nat, c2: nat) returns (next: Stage)
    requires Even(f0, x, m) && |t.f| == |t.cs| == |t.root| == SYMBOLS && Reached(Growing(h, ks, p), f0, t, x, m)
    requires ChosenPair(t.f, c1, c2) && c1 != x && c2 != x
    ensures Reached(next, f0, Joining(f0, t, c1, c2), x, m)
  {
    hide Gaps, Merge, Nth, Shl, Pow2, Weight, Roots, PlacedAt;
    if p < |ks| {
      FindsHalves(f0, t.f, x, m, h, ks, p, c1, c2);
      WeighedHalf(f0, t.f, x, m, h, ks, p);
      PlacedHalf(f0, t, x, m, h, ks, p);
      next := Growing(h, Skip(ks, p + 1), p + 1);
    } else if h < 7 {
      FindsPseudo(f0, t.f, x, m, h, ks, p, c1, c2);
      WeighedPseudo(f0, t.f, x, m, h, ks, p);
      PlacedPseudo(f0, t, x, m, h, ks, p);
      next := Growing(h + 1, Skip(ks, 0), 0);
    } else {
      JoinsAll(f0, t, x, m, ks, p, c1, c2);
      next := Joined;
    }
  }

  lemma StartGrowing(f0: seq<nat>, x: nat, m: nat)
    requires Even(f0, x, m)
    ensures Reached(Growing(0, seq(PSEUDO - 1, k => k), PSEUDO - 1), f0, Grown(f0, []), x, m)
  {
    Pow2Constants();
    assert Pow2(9) == 512;
    var ks: seq<nat>, p: nat, t := seq(PSEUDO - 1, k => k), PSEUDO - 1, Grown(f0, []);
    assert Ranks(0, ks, p);
    forall s | 0 <= s < PSEUDO && s != x ensures Roots(x, ks, s) && PlacedAt(t.cs, t.root, x, 0, ks, p, s) {
      var k := if s > x then 255 - s else 254 - s;
      assert ks[k] == k && s == Nth(x, ks[k]);
    }
  }

  /** The stage any run from such counts has come to. */
  lemma {:induction false} StageOf(f0: seq<nat>, pairs: seq<Pair>, x: nat, m: nat) returns (stage: Stage)
    requires Even(f0, x, m) && FoundFirst(f0, pairs)
    ensures Reached(stage, f0, Grown(f0, pairs), x, m)
    decreases |pairs|
  {
    hide Grown, Joining;
    if pairs == [] {
      StartGrowing(f0, x, m);
      stage := Growing(0, seq(PSEUDO - 1, k => k), PSEUDO - 1);
    } else {
      var earlier, p := pairs[..|pairs| - 1], pairs[|pairs| - 1];
      LastPair(pairs);
      stage := StageOf(f0, earlier, x, m);
      GrownStep(f0, earlier, p);
      RootedRun(f0, earlier);
      stage := NextStage(stage, f0, Grown(f0, earlier), x, m, p.first, p.second);
    }
  }

  lemma RootedRun(f0: seq<nat>, pairs: seq<Pair>)
    requires |f0| == SYMBOLS && f0[PSEUDO] == 1 && FoundFirst(f0, pairs)
    ensures Rooted(f0, Grown(f0, pairs).f, Grown(f0, pairs).root)
  {
    var wb := GrownHolds(f0, pairs);
  }

  /** While the trees grow at least two are left. */
  lemma TwoGrowing(f0: seq<nat>, f: seq<nat>, x: nat, m: nat, h: nat, ks: seq<nat>, p: nat)
    requires Even(f0, x, m) && Ranks(h, ks, p) && Weighed(f0, f, x, m, h, ks, p)
    ensures f[PSEUDO] > 0 && f[Nth(x, ks[0])] > 0
  {
    ShlAtLeast(m, h);
    if h > 0 {
      Halves(m, h);
    }
    hide Shl;
    assert f[Nth(x, ks[0])] == Weight(m, h, p, 0);
  }

  lemma OneLeft(f: seq<nat>, cs: seq<nat>, pairs: seq<Pair>) returns (c: int)
    requires BuiltBy(f, cs, pairs) && Total(f) <= MAX_FREQ
    ensures forall i :: 0 <= i < SYMBOLS && i != c ==> Grown(f, pairs).f[i] == 0
  {
    hide Grown, Total;
    var t := Grown(f, pairs);
    var wb := GrownHolds(f, pairs);
    c :| NoneBut(t.f, c);
    OneTreeLeft(f, t.f, t.cs, t.root, c);
  }

  /**
   The lengths for even counts: all equal when x is not counted; one bit for x and nine for each other symbol when x
   towers over the others; and otherwise some symbol within seven bits of x.
   */
  lemma EvenLengths(f: seq<nat>, cs: seq<nat>, pairs: seq<Pair>, x: nat, m: nat)
    requires BuiltBy(f, cs, pairs) && Total(f) <= MAX_FREQ && Even(f, x, m)
    ensures f[x] == 0 ==> cs[x] == 0 && forall s :: 0 <= s < SYMBOLS && s != x ==> cs[s] == 8
    ensures f[x] > 0 && Towers(f, x, m) ==> cs[x] == 1 && forall s :: 0 <= s < SYMBOLS && s != x ==> cs[s] == 9
    ensures f[x] > 0 && !Towers(f, x, m) ==> exists s :: 0 <= s < SYMBOLS && s != x && f[s] > 0 && cs[s] <= cs[x] + 7
  {
    hide Grown, Total;
    var t := Grown(f, pairs);
    var c := OneLeft(f, cs, pairs);
    var stage := StageOf(f, pairs, x, m);
    match stage
    case Growing(h, ks, p) =>
      TwoGrowing(f, t.f, x, m, h, ks, p);
      assert false;
    case Joined =>
    case Capped =>
    case Early =>
      var s :| Near(f, t, x, s);
  }
}