/**
 What the Huffman merge loop is for: the least total length over all prefix codes.
 A symbol is live when its frequency is nonzero; only live symbols need a code word.
 */
module HuffmanOptimality {
  import opened BitStrings

  // ----- Code lengths, Kraft sums and cost -----

  /** Each live symbol's share of the code space, in units of 2^-m. */
  ghost function Shares(f: seq<nat>, l: seq<nat>, m: nat): (v: seq<int>)
    requires |l| == |f| && forall i :: 0 <= i < |l| ==> l[i] <= m
    ensures |v| == |f| && forall i :: 0 <= i < |v| ==> v[i] == if f[i] == 0 then 0 else Pow2(m - l[i])
  {
    seq(|f|, i requires 0 <= i < |f| => if f[i] == 0 then 0 else Pow2(m - l[i]))
  }

  ghost function Costs(f: seq<nat>, l: seq<nat>): (v: seq<int>)
    requires |l| == |f|
    ensures |v| == |f| && forall i :: 0 <= i < |v| ==> v[i] == f[i] * l[i]
  {
    seq(|f|, i requires 0 <= i < |f| => f[i] * l[i])
  }

  /** The total number of code bits spent. */
  ghost function Cost(f: seq<nat>, l: seq<nat>): int
    requires |l| == |f|
  {
    Total(Costs(f, l))
  }

  /** The lengths, all at most m, satisfy the Kraft inequality on the live symbols. */
  ghost predicate Fits(f: seq<nat>, l: seq<nat>, m: nat) {
    && |l| == |f|
    && (forall i :: 0 <= i < |l| ==> l[i] <= m)
    && Total(Shares(f, l, m)) <= Pow2(m)
  }

  /** No code lengths satisfying the Kraft inequality cost less than c. */
  ghost predicate AtLeast(f: seq<nat>, c: int) {
    forall l, m :: Fits(f, l, m) ==> Cost(f, l) >= c
  }

  // ----- Prefix codes and Kraft's inequality -----

  /** Distinct live symbols have code words neither of which begins the other. */
  ghost predicate PrefixCode(f: seq<nat>, w: seq<seq<bool>>) {
    && |w| == |f|
    && forall i, j :: 0 <= i < |f| && 0 <= j < |f| && i != j && f[i] > 0 && f[j] > 0 ==> !(w[i] <= w[j])
  }

  ghost function WordLengths(w: seq<seq<bool>>): (l: seq<nat>)
    ensures |l| == |w| && forall i :: 0 <= i < |l| ==> l[i] == |w[i]|
  {
    seq(|w|, i requires 0 <= i < |w| => |w[i]|)
  }

  /** The symbols of f whose nonempty code word starts with b. */
  ghost function Starting(f: seq<nat>, w: seq<seq<bool>>, b: bool): (g: seq<nat>)
    requires |w| == |f|
    ensures |g| == |f|
    ensures forall i :: 0 <= i < |g| ==> g[i] == if w[i] != [] && w[i][0] == b then f[i] else 0
  {
    seq(|f|, i requires 0 <= i < |f| => if w[i] != [] && w[i][0] == b then f[i] else 0)
  }

  ghost function Tails(w: seq<seq<bool>>): (t: seq<seq<bool>>)
    ensures |t| == |w| && forall i :: 0 <= i < |t| ==> t[i] == if w[i] == [] then [] else w[i][1..]
  {
    seq(|w|, i requires 0 <= i < |w| => if w[i] == [] then [] else w[i][1..])
  }

  lemma SameHead(b: bool, x: seq<bool>, y: seq<bool>)
    ensures [b] + x <= [b] + y <==> x <= y
  {
    assert ([b] + x)[1..] == x && ([b] + y)[1..] == y;
  }

  lemma TailsPrefixFree(f: seq<nat>, w: seq<seq<bool>>, b: bool)
    requires PrefixCode(f, w)
    ensures PrefixCode(Starting(f, w, b), Tails(w))
  {
    var g, t := Starting(f, w, b), Tails(w);
    forall i, j | 0 <= i < |g| && 0 <= j < |g| && i != j && g[i] > 0 && g[j] > 0
      ensures !(t[i] <= t[j])
    {
      assert w[i] == [b] + t[i] && w[j] == [b] + t[j];
      SameHead(b, t[i], t[j]);
    }
  }

  lemma {:induction false} SingleTerm(v: seq<int>, k: nat)
    requires k < |v| && forall i :: 0 <= i < |v| && i != k ==> v[i] == 0
    ensures Total(v) == v[k]
  {
    var n := |v| - 1;
    if k == n {
      AllZero(v[..n]);
    } else {
      SingleTerm(v[..n], k);
    }
  }

  lemma {:induction false} AllZero(v: seq<int>)
    requires forall i :: 0 <= i < |v| ==> v[i] == 0
    ensures Total(v) == 0
  {
    if v != [] {
      AllZero(v[..|v| - 1]);
    }
  }

  lemma SplitShares(f: seq<nat>, w: seq<seq<bool>>, m: nat)
    requires |w| == |f| && m > 0
    requires forall i :: 0 <= i < |w| ==> |w[i]| <= m
    requires forall i :: 0 <= i < |f| && f[i] > 0 ==> w[i] != []
    ensures Total(Shares(f, WordLengths(w), m))
      == Total(Shares(Starting(f, w, false), WordLengths(Tails(w)), m - 1))
       + Total(Shares(Starting(f, w, true), WordLengths(Tails(w)), m - 1))
  {
    var lt := WordLengths(Tails(w));
    var v, v0 := Shares(f, WordLengths(w), m), Shares(Starting(f, w, false), lt, m - 1);
    var v1 := Shares(Starting(f, w, true), lt, m - 1);
    forall i | 0 <= i < |f| ensures v[i] == v0[i] + v1[i] {
    }
    TotalAdd(v0, v1, v);
  }

  /** The empty word leaves no room for any other. */
  lemma EmptyWordAlone(f: seq<nat>, w: seq<seq<bool>>, m: nat, k: nat)
    requires PrefixCode(f, w) && forall i :: 0 <= i < |w| ==> |w[i]| <= m
    requires k < |f| && f[k] > 0 && w[k] == []
    ensures Total(Shares(f, WordLengths(w), m)) == Pow2(m)
  {
    var v := Shares(f, WordLengths(w), m);
    forall i | 0 <= i < |f| && i != k ensures v[i] == 0 {
      assert w[k] <= w[i];
    }
    SingleTerm(v, k);
  }

  ghost predicate NoEmptyWord(f: seq<nat>, w: seq<seq<bool>>)
    requires |w| == |f|
  {
    forall i :: 0 <= i < |f| && f[i] > 0 ==> w[i] != []
  }

  /** The word lengths of a prefix code share out the code space. */
  lemma {:induction false} KraftSum(f: seq<nat>, w: seq<seq<bool>>, m: nat)
    requires PrefixCode(f, w) && forall i :: 0 <= i < |w| ==> |w[i]| <= m
    ensures Total(Shares(f, WordLengths(w), m)) <= Pow2(m)
    decreases m
  {
    if !NoEmptyWord(f, w) {
      var k :| 0 <= k < |f| && f[k] > 0 && w[k] == [];
      EmptyWordAlone(f, w, m, k);
    } else if m == 0 {
      var v := Shares(f, WordLengths(w), m);
      forall i | 0 <= i < |f| ensures v[i] == 0 {
        assert |w[i]| <= 0;
      }
      AllZero(v);
    } else {
      KraftSumSplit(f, w, m);
    }
  }

  lemma {:induction false} KraftSumSplit(f: seq<nat>, w: seq<seq<bool>>, m: nat)
    requires PrefixCode(f, w) && m > 0 && forall i :: 0 <= i < |w| ==> |w[i]| <= m
    requires NoEmptyWord(f, w)
    ensures Total(Shares(f, WordLengths(w), m)) <= Pow2(m)
    decreases m, 0
  {
    TailsPrefixFree(f, w, false);
    TailsPrefixFree(f, w, true);
    var t := Tails(w);
    assert forall i :: 0 <= i < |t| ==> |t[i]| <= m - 1;
    KraftSum(Starting(f, w, false), t, m - 1);
    KraftSum(Starting(f, w, true), t, m - 1);
    SplitShares(f, w, m);
  }

  /** Kraft's inequality: the word lengths of every prefix code satisfy it. */
  lemma KraftInequality(f: seq<nat>, w: seq<seq<bool>>, m: nat)
    requires PrefixCode(f, w) && forall i :: 0 <= i < |w| ==> |w[i]| <= m
    ensures Fits(f, WordLengths(w), m)
  {
    KraftSum(f, w, m);
  }

  lemma {:induction false} LongestBound(w: seq<seq<bool>>) returns (m: nat)
    ensures forall i :: 0 <= i < |w| ==> |w[i]| <= m
  {
    if w == [] {
      m := 0;
    } else {
      m := LongestBound(w[..|w| - 1]);
      m := m + |w[|w| - 1]|;
      forall i | 0 <= i < |w| ensures |w[i]| <= m {
        if i < |w| - 1 {
          assert w[i] == w[..|w| - 1][i];
        }
      }
    }
  }

  /** A bound over Kraft lengths is a bound over all prefix codes. */
  lemma PrefixCodeCost(f: seq<nat>, w: seq<seq<bool>>, c: int)
    requires AtLeast(f, c) && PrefixCode(f, w)
    ensures Cost(f, WordLengths(w)) >= c
  {
    var m := LongestBound(w);
    KraftInequality(f, w, m);
  }

  // ----- Rearranging lengths -----

  lemma UpdateLength(f: seq<nat>, l: seq<nat>, m: nat, i: nat, x: nat)
    requires |l| == |f| && i < |f| && f[i] > 0 && x <= m
    requires forall k :: 0 <= k < |l| ==> l[k] <= m
    ensures Total(Shares(f, l[i := x], m)) == Total(Shares(f, l, m)) - Pow2(m - l[i]) + Pow2(m - x)
  {
    assert Shares(f, l[i := x], m) == Shares(f, l, m)[i := Pow2(m - x)];
    TotalUpdate(Shares(f, l, m), i, Pow2(m - x));
  }

  lemma UpdateCost(f: seq<nat>, l: seq<nat>, i: nat, x: nat)
    requires |l| == |f| && i < |f|
    ensures Cost(f, l[i := x]) == Cost(f, l) - f[i] * l[i] + f[i] * x
  {
    assert Costs(f, l[i := x]) == Costs(f, l)[i := f[i] * x];
    TotalUpdate(Costs(f, l), i, f[i] * x);
  }

  lemma ExchangeArithmetic(fx: nat, fy: nat, lx: nat, ly: nat)
    requires fx <= fy && lx <= ly
    ensures fx * ly + fy * lx <= fx * lx + fy * ly
  {
    assert (fy - fx) * (ly - lx) >= 0;
  }

  lemma ExchangeFits(f: seq<nat>, l: seq<nat>, m: nat, x: nat, y: nat)
    requires Fits(f, l, m) && x < |f| && y < |f| && x != y && f[x] > 0 && f[y] > 0
    ensures Fits(f, l[x := l[y]][y := l[x]], m)
  {
    hide Total;
    var v := Shares(f, l, m);
    assert Shares(f, l[x := l[y]][y := l[x]], m) == v[x := v[y]][y := v[x]];
    TotalUpdate(v, x, v[y]);
    TotalUpdate(v[x := v[y]], y, v[x]);
  }

  lemma ExchangeCost(f: seq<nat>, l: seq<nat>, x: nat, y: nat)
    requires |l| == |f| && x < |f| && y < |f| && x != y && f[x] <= f[y] && l[x] <= l[y]
    ensures Cost(f, l[x := l[y]][y := l[x]]) <= Cost(f, l)
  {
    UpdateCost(f, l, x, l[y]);
    UpdateCost(f, l[x := l[y]], y, l[x]);
    ExchangeArithmetic(f[x], f[y], l[x], l[y]);
  }

  /** Giving the longer of two lengths to the rarer symbol keeps the Kraft sum and never costs more. */
  lemma Exchange(f: seq<nat>, l: seq<nat>, m: nat, x: nat, y: nat) returns (r: seq<nat>)
    requires Fits(f, l, m) && x < |f| && y < |f| && x != y && f[x] > 0 && f[y] > 0
    requires f[x] <= f[y] && l[x] <= l[y]
    ensures r == l[x := l[y]][y := l[x]] && Fits(f, r, m) && Cost(f, r) <= Cost(f, l)
  {
    r := l[x := l[y]][y := l[x]];
    ExchangeFits(f, l, m, x, y);
    ExchangeCost(f, l, x, y);
  }

  lemma {:induction false} TotalOfMultiples(v: seq<int>, j: seq<nat>, n: nat) returns (k: nat)
    requires |v| == |j| && forall i :: 0 <= i < |v| ==> v[i] == Shl(j[i], n)
    ensures k == Total(j) && Total(v) == Shl(k, n)
  {
    if v == [] {
      k := 0;
      ShlZero(n);
    } else {
      var a := TotalOfMultiples(v[..|v| - 1], j[..|j| - 1], n);
      ShlAdd(a, j[|j| - 1], n);
      k := a + j[|j| - 1];
    }
  }

  /** When only one word has the greatest length, the code space has room for that word again. */
  lemma RoomForDeepest(f: seq<nat>, l: seq<nat>, m: nat, a: nat)
    requires Fits(f, l, m) && a < |f| && f[a] > 0 && l[a] >= 1
    requires forall i :: 0 <= i < |f| && f[i] > 0 && i != a ==> l[i] < l[a]
    ensures Total(Shares(f, l, m)) + Pow2(m - l[a]) <= Pow2(m)
  {
    var n := m - l[a] + 1;
    var v := Shares(f, l, m);
    var rest := v[a := 0];
    TotalUpdate(v, a, 0);
    var j: seq<nat> := seq(|f|, i requires 0 <= i < |f| => if i == a || f[i] == 0 then 0 else Pow2(l[a] - 1 - l[i]));
    forall i | 0 <= i < |rest| ensures rest[i] == Shl(j[i], n) {
      if i == a || f[i] == 0 {
        ShlZero(n);
      } else {
        ShlPow2(l[a] - 1 - l[i], n);
      }
    }
    var k := TotalOfMultiples(rest, j, n);
    RoomArithmetic(k, n, l[a] - 1);
  }

  lemma RoomArithmetic(k: nat, n: nat, d: nat)
    requires n >= 1 && Shl(k, n) + Pow2(n - 1) <= Pow2(d + n)
    ensures Shl(k, n) + 2 * Pow2(n - 1) <= Pow2(d + n)
  {
    ShlPow2(d, n);
    ShlOrder(k, Pow2(d), n);
    ShlOne(n);
    ShlAdd(k, 1, n);
    ShlOrder(Pow2(d), k + 1, n);
  }

  /** A longest code word without a sibling can lose its last bit. */
  lemma LonelyDeepest(f: seq<nat>, l: seq<nat>, m: nat, a: nat)
    requires Fits(f, l, m) && a < |f| && f[a] > 0 && l[a] >= 1
    requires forall i :: 0 <= i < |f| && f[i] > 0 && i != a ==> l[i] < l[a]
    ensures Fits(f, l[a := l[a] - 1], m)
    ensures Cost(f, l[a := l[a] - 1]) == Cost(f, l) - f[a]
  {
    hide Total, Costs;
    RoomForDeepest(f, l, m, a);
    UpdateLength(f, l, m, a, l[a] - 1);
    UpdateCost(f, l, a, l[a] - 1);
    OneLess(f[a], l[a]);
  }

  lemma OneLess(x: nat, y: nat)
    requires y >= 1
    ensures x * (y - 1) == x * y - x
  {
  }

  lemma {:induction false} DeepestLive(f: seq<nat>, l: seq<nat>, c: nat, n: nat) returns (a: nat)
    requires |l| == |f| && c < n <= |f| && f[c] > 0
    ensures a < n && f[a] > 0 && forall i :: 0 <= i < n && f[i] > 0 ==> l[i] <= l[a]
  {
    if c == n - 1 {
      a := c;
      var i := 0;
      while i < n
        invariant 0 <= i <= n
        invariant a < n && f[a] > 0 && l[c] <= l[a] && forall k :: 0 <= k < i && f[k] > 0 ==> l[k] <= l[a]
      {
        if f[i] > 0 && l[i] > l[a] {
          a := i;
        }
        i := i + 1;
      }
    } else {
      a := DeepestLive(f, l, c, n - 1);
      if f[n - 1] > 0 && l[n - 1] > l[a] {
        a := n - 1;
      }
    }
  }

  // ----- The merge step -----

  /** c1 is a least live frequency, c2 a least one of the others. */
  ghost predicate LeastPair(f: seq<nat>, c1: nat, c2: nat) {
    && c1 < |f| && c2 < |f| && c1 != c2 && f[c1] > 0 && f[c2] > 0
    && (forall i :: 0 <= i < |f| && f[i] > 0 ==> f[c1] <= f[i])
    && (forall i :: 0 <= i < |f| && f[i] > 0 && i != c1 ==> f[c2] <= f[i])
  }

  ghost function Merge(f: seq<nat>, c1: nat, c2: nat): seq<nat>
    requires c1 < |f| && c2 < |f|
  {
    f[c1 := f[c1] + f[c2]][c2 := 0]
  }

  lemma TwoLiveNeedBits(f: seq<nat>, l: seq<nat>, m: nat, a: nat, b: nat)
    requires Fits(f, l, m) && a < |f| && b < |f| && a != b && f[a] > 0 && f[b] > 0
    ensures l[a] >= 1
  {
    var v := Shares(f, l, m);
    TotalUpdate(v, a, 0);
    TotalNonNegative(v[a := 0]);
    assert v[a := 0][b] == v[b] >= 1;
  }

  /** No live symbol has more than n bits. */
  ghost predicate UpTo(f: seq<nat>, l: seq<nat>, n: nat)
    requires |l| == |f|
  {
    forall i :: 0 <= i < |f| && f[i] > 0 ==> l[i] <= n
  }

  /** c gets the longest length, from a. */
  lemma ToDeepest(f: seq<nat>, l: seq<nat>, m: nat, c: nat, a: nat) returns (r: seq<nat>)
    requires Fits(f, l, m) && c < |f| && a < |f| && f[c] > 0 && f[a] > 0 && f[c] <= f[a] && UpTo(f, l, l[a])
    ensures Fits(f, r, m) && Cost(f, r) <= Cost(f, l) && UpTo(f, r, l[a])
    ensures r[c] == l[a] && forall i :: 0 <= i < |f| && i != c && i != a ==> r[i] == l[i]
  {
    hide Shares, Costs, Cost, Total;
    r := l;
    if c != a {
      r := Exchange(f, l, m, c, a);
    }
  }

  /** Two longest words go to the two rarest symbols. */
  lemma PairToDeepest(f: seq<nat>, l: seq<nat>, m: nat, c1: nat, c2: nat, a: nat, b: nat) returns (r: seq<nat>)
    requires Fits(f, l, m) && LeastPair(f, c1, c2) && a < |f| && b < |f| && a != b && f[a] > 0 && f[b] > 0
    requires l[a] == l[b] && UpTo(f, l, l[a])
    ensures Fits(f, r, m) && Cost(f, r) <= Cost(f, l)
    ensures r[c1] == r[c2] == l[a] && UpTo(f, r, r[c1])
  {
    hide Shares, Costs, Cost, Total;
    if b == c1 || a == c2 {
      r := ToDeepest(f, l, m, c1, b);
      r := ToDeepest(f, r, m, c2, a);
    } else {
      r := ToDeepest(f, l, m, c1, a);
      r := ToDeepest(f, r, m, c2, b);
    }
  }

  /** Some code at least as good gives the two rarest symbols words of one length, and no symbol a longer one. */
  lemma {:induction false} PairDeepest(f: seq<nat>, l: seq<nat>, m: nat, c1: nat, c2: nat) returns (r: seq<nat>)
    requires Fits(f, l, m) && LeastPair(f, c1, c2)
    ensures Fits(f, r, m) && Cost(f, r) <= Cost(f, l)
    ensures r[c1] == r[c2] >= 1
    ensures UpTo(f, r, r[c1])
    decreases Cost(f, l)
  {
    hide Shares, Costs, Cost, Total;
    var a := DeepestLive(f, l, c1, |f|);
    TwoLiveNeedBits(f, l, m, a, if a == c1 then c2 else c1);
    if b :| 0 <= b < |f| && b != a && f[b] > 0 && l[b] == l[a] {
      r := PairToDeepest(f, l, m, c1, c2, a, b);
    } else {
      LonelyDeepest(f, l, m, a);
      CostNonNegative(f, l[a := l[a] - 1]);
      r := PairDeepest(f, l[a := l[a] - 1], m, c1, c2);
    }
  }

  lemma CostNonNegative(f: seq<nat>, l: seq<nat>)
    requires |l| == |f|
    ensures Cost(f, l) >= 0
  {
    forall i | 0 <= i < |f| ensures Costs(f, l)[i] >= 0 {
      ProductNonNegative(f[i], l[i]);
    }
    TotalNonNegative(Costs(f, l));
  }

  lemma ProductNonNegative(x: nat, y: nat)
    ensures x * y >= 0
  {
  }

  lemma MergeSiblingsFit(f: seq<nat>, r: seq<nat>, m: nat, c1: nat, c2: nat)
    requires Fits(f, r, m) && c1 < |f| && c2 < |f| && c1 != c2 && f[c1] > 0 && f[c2] > 0
    requires r[c1] == r[c2] >= 1
    ensures Fits(Merge(f, c1, c2), r[c1 := r[c1] - 1], m)
  {
    var u := Pow2(m - r[c1] + 1);
    var v := Shares(f, r, m);
    assert Shares(Merge(f, c1, c2), r[c1 := r[c1] - 1], m) == v[c1 := u][c2 := 0];
    TotalUpdate(v, c1, u);
    TotalUpdate(v[c1 := u], c2, 0);
  }

  /** Treating equal-length siblings as one symbol saves one bit for each use of either. */
  lemma MergeSiblings(f: seq<nat>, r: seq<nat>, m: nat, c1: nat, c2: nat)
    requires Fits(f, r, m) && c1 < |f| && c2 < |f| && c1 != c2 && f[c1] > 0 && f[c2] > 0
    requires r[c1] == r[c2] >= 1
    ensures Fits(Merge(f, c1, c2), r[c1 := r[c1] - 1], m)
    ensures Cost(Merge(f, c1, c2), r[c1 := r[c1] - 1]) == Cost(f, r) - f[c1] - f[c2]
  {
    hide Total;
    MergeSiblingsFit(f, r, m, c1, c2);
    var u, x := Costs(f, r), (f[c1] + f[c2]) * (r[c1] - 1);
    assert Costs(Merge(f, c1, c2), r[c1 := r[c1] - 1]) == u[c1 := x][c2 := 0];
    TotalUpdate(u, c1, x);
    TotalUpdate(u[c1 := x], c2, 0);
    SiblingArithmetic(f[c1], f[c2], r[c1]);
  }

  lemma SiblingArithmetic(x: nat, y: nat, d: nat)
    ensures (x + y) * (d - 1) == x * d + y * d - x - y
  {
  }

  /** A lower bound after merging the two rarest symbols gives one before. */
  lemma MergeLowerBound(f: seq<nat>, c1: nat, c2: nat, c: int)
    requires LeastPair(f, c1, c2) && AtLeast(Merge(f, c1, c2), c)
    ensures AtLeast(f, c + f[c1] + f[c2])
  {
    forall l, m | Fits(f, l, m) ensures Cost(f, l) >= c + f[c1] + f[c2] {
      var r := PairDeepest(f, l, m, c1, c2);
      MergeSiblings(f, r, m, c1, c2);
    }
  }

  // ----- The converse of Kraft's inequality -----

  lemma OneLiveCode(f: seq<nat>, l: seq<nat>, a: nat) returns (w: seq<seq<bool>>)
    requires |l| == |f| && a < |f| && forall i :: 0 <= i < |f| && f[i] > 0 ==> i == a
    ensures PrefixCode(f, w) && WordLengths(w) == l
  {
    w := seq(|f|, i requires 0 <= i < |f| => seq(l[i], _ => false));
  }

  /** Words that do not begin each other do not do so either when they grow. */
  lemma StayApart(x: seq<bool>, y: seq<bool>, x': seq<bool>, y': seq<bool>)
    requires x <= x' && y <= y' && !(x <= y) && !(y <= x)
    ensures !(x' <= y')
  {
  }

  /** A word may grow by a bit: the code stays prefix-free. */
  lemma LongerWord(f: seq<nat>, w: seq<seq<bool>>, a: nat)
    requires PrefixCode(f, w) && a < |f| && f[a] > 0
    ensures PrefixCode(f, w[a := w[a] + [false]])
  {
    var w' := w[a := w[a] + [false]];
    forall i, j | 0 <= i < |f| && 0 <= j < |f| && i != j && f[i] > 0 && f[j] > 0 ensures !(w'[i] <= w'[j]) {
      StayApart(w[i], w[j], w'[i], w'[j]);
    }
  }

  /** A word may be split in two for another symbol. */
  lemma SplitWord(f: seq<nat>, w: seq<seq<bool>>, a: nat, b: nat)
    requires a < |f| && b < |f| && a != b && f[a] > 0 && PrefixCode(f[b := 0], w)
    ensures PrefixCode(f, w[a := w[a] + [false]][b := w[a] + [true]])
  {
    var w' := w[a := w[a] + [false]][b := w[a] + [true]];
    forall i, j | 0 <= i < |f| && 0 <= j < |f| && i != j && f[i] > 0 && f[j] > 0 ensures !(w'[i] <= w'[j]) {
      var p, q := if i == b then a else i, if j == b then a else j;
      if p == q {
        assert (w[a] + [false])[|w[a]|] != (w[a] + [true])[|w[a]|];
      } else {
        assert f[b := 0][p] > 0 && f[b := 0][q] > 0;
        StayApart(w[p], w[q], w'[i], w'[j]);
      }
    }
  }

  /** Lengths that satisfy the Kraft inequality are the word lengths of some prefix code. */
  lemma {:induction false} KraftConverse(f: seq<nat>, l: seq<nat>, m: nat) returns (w: seq<seq<bool>>)
    requires Fits(f, l, m) && exists i :: 0 <= i < |f| && f[i] > 0
    ensures PrefixCode(f, w) && WordLengths(w) == l
    decreases Total(l), 1
  {
    hide Shares, Costs, Cost, Total;
    var c :| 0 <= c < |f| && f[c] > 0;
    var a := DeepestLive(f, l, c, |f|);
    if o :| 0 <= o < |f| && f[o] > 0 && o != a {
      TwoLiveNeedBits(f, l, m, a, o);
      LessTotal(l, a);
      if b :| 0 <= b < |f| && b != a && f[b] > 0 && l[b] == l[a] {
        w := ConverseSplit(f, l, m, a, b);
      } else {
        w := ConverseLonger(f, l, m, a);
      }
    } else {
      w := OneLiveCode(f, l, a);
    }
  }

  lemma LessTotal(l: seq<nat>, a: nat)
    requires a < |l| && l[a] >= 1
    ensures 0 <= Total(l[a := l[a] - 1]) < Total(l)
  {
    TotalUpdate(l, a, l[a] - 1);
    TotalNonNegative(l[a := l[a] - 1]);
  }

  lemma {:induction false} ConverseLonger(f: seq<nat>, l: seq<nat>, m: nat, a: nat) returns (w: seq<seq<bool>>)
    requires Fits(f, l, m) && a < |f| && f[a] > 0 && l[a] >= 1
    requires forall i :: 0 <= i < |f| && f[i] > 0 && i != a ==> l[i] < l[a]
    requires 0 <= Total(l[a := l[a] - 1]) < Total(l)
    ensures PrefixCode(f, w) && WordLengths(w) == l
    decreases Total(l), 0
  {
    hide Shares, Costs, Cost, Total;
    LonelyDeepest(f, l, m, a);
    var v := KraftConverse(f, l[a := l[a] - 1], m);
    LongerWord(f, v, a);
    w := v[a := v[a] + [false]];
  }

  lemma {:induction false} ConverseSplit(f: seq<nat>, l: seq<nat>, m: nat, a: nat, b: nat) returns (w: seq<seq<bool>>)
    requires Fits(f, l, m) && a < |f| && b < |f| && a != b && f[a] > 0 && f[b] > 0 && l[a] == l[b] >= 1
    requires 0 <= Total(l[a := l[a] - 1]) < Total(l)
    ensures PrefixCode(f, w) && WordLengths(w) == l
    decreases Total(l), 0
  {
    hide Shares, Costs, Cost, Total;
    MergeSiblingsFit(f, l, m, a, b);
    var g := Merge(f, a, b);
    assert g[a] > 0;
    var v := KraftConverse(g, l[a := l[a] - 1], m);
    assert PrefixCode(f[b := 0], v);
    SplitWord(f, v, a, b);
    w := v[a := v[a] + [false]][b := v[a] + [true]];
  }
}
