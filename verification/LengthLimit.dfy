/** From code lengths to a JPEG table: the length limit of T.81 section K.2 and the sorted symbol list. */
module LengthLimit {
  import opened BitStrings
  import opened HuffmanOptimality
  import opened HuffmanTree

  const MAX_CLEN := 32

  // ----- How many symbols have each code length -----

  /** Symbols of length k; symbols without a code are not counted. */
  ghost function CountOf(cs: seq<nat>, k: nat): nat
    decreases cs
  {
    if cs == [] || k == 0 then 0 else CountOf(cs[..|cs| - 1], k) + (if cs[|cs| - 1] == k then 1 else 0)
  }

  ghost function Counts(cs: seq<nat>): (b: seq<nat>)
    ensures |b| == MAX_CLEN + 1 && forall k :: 0 <= k <= MAX_CLEN ==> b[k] == CountOf(cs, k)
  {
    seq(MAX_CLEN + 1, k requires 0 <= k <= MAX_CLEN => CountOf(cs, k))
  }

  /** The code space taken by each length, in units of 2^-32. */
  ghost function Spaces(b: seq<nat>): (v: seq<int>)
    requires |b| == MAX_CLEN + 1
    ensures |v| == |b| && forall k :: 0 <= k < |v| ==> v[k] == Shl(b[k], MAX_CLEN - k)
  {
    seq(|b|, k requires 0 <= k < |b| => Shl(b[k], MAX_CLEN - k))
  }

  /** Counts of at most 257 code words whose Kraft sum is exactly 1. */
  ghost predicate CompleteCounts(b: seq<nat>) {
    && |b| == MAX_CLEN + 1 && b[0] == 0
    && Total(b) <= SYMBOLS
    && Total(Spaces(b)) == SPACE_32
  }

  /** UINT8 entries of bits[] can hold the counts. */
  ghost predicate Narrow(b: seq<nat>) {
    forall k :: 0 <= k < |b| ==> b[k] <= 255
  }

  /** No code word is longer than i bits. */
  ghost predicate ShortFrom(b: seq<nat>, i: nat) {
    forall k :: i < k < |b| ==> b[k] == 0
  }

  lemma SpaceUpdate(b: seq<nat>, k: nat, x: nat)
    requires |b| == MAX_CLEN + 1 && k < |b|
    ensures Total(Spaces(b[k := x])) == Total(Spaces(b)) - Shl(b[k], MAX_CLEN - k) + Shl(x, MAX_CLEN - k)
    ensures Total(b[k := x]) == Total(b) - b[k] + x
  {
    var y: int := Shl(x, MAX_CLEN - k);
    assert Spaces(b[k := x]) == Spaces(b)[k := y];
    TotalUpdate(Spaces(b), k, y);
    TotalUpdate(b, k, x);
  }

  lemma SpaceIncrement(b: seq<nat>, k: nat, d: nat)
    requires |b| == MAX_CLEN + 1 && k < |b|
    ensures Total(Spaces(b[k := b[k] + d])) == Total(Spaces(b)) + Shl(d, MAX_CLEN - k)
    ensures Total(b[k := b[k] + d]) == Total(b) + d
  {
    SpaceUpdate(b, k, b[k] + d);
    ShlAdd(b[k], d, MAX_CLEN - k);
  }

  lemma SpaceDecrement(b: seq<nat>, k: nat, d: nat)
    requires |b| == MAX_CLEN + 1 && k < |b| && d <= b[k]
    ensures Total(Spaces(b[k := b[k] - d])) == Total(Spaces(b)) - Shl(d, MAX_CLEN - k)
    ensures Total(b[k := b[k] - d]) == Total(b) - d
  {
    SpaceUpdate(b, k, b[k] - d);
    ShlAdd(b[k] - d, d, MAX_CLEN - k);
  }

  // ----- Counting the lengths -----

  /** The shares in units of 2^-32 of the symbols that have a code. */
  ghost function Shares32(cs: seq<nat>): (v: seq<int>)
    requires forall s :: 0 <= s < |cs| ==> cs[s] <= MAX_CLEN
    ensures |v| == |cs| && forall s :: 0 <= s < |v| ==> v[s] == if cs[s] == 0 then 0 else Pow2(MAX_CLEN - cs[s])
  {
    seq(|cs|, s requires 0 <= s < |cs| => if cs[s] == 0 then 0 else Pow2(MAX_CLEN - cs[s]))
  }

  lemma CountsAppend(cs: seq<nat>, x: nat)
    requires x <= MAX_CLEN
    ensures Counts(cs + [x]) == if x == 0 then Counts(cs) else Counts(cs)[x := Counts(cs)[x] + 1]
  {
    assert (cs + [x])[..|cs|] == cs;
  }

  lemma {:induction false} CountsSum(cs: seq<nat>)
    requires forall s :: 0 <= s < |cs| ==> cs[s] <= MAX_CLEN
    ensures Total(Spaces(Counts(cs))) == Total(Shares32(cs))
    ensures Total(Counts(cs)) <= |cs|
  {
    if cs == [] {
      forall k | 0 <= k <= MAX_CLEN ensures Spaces(Counts(cs))[k] == 0 {
        ShlZero(MAX_CLEN - k);
      }
      AllZero(Spaces(Counts(cs)));
      AllZero(Counts(cs));
    } else {
      CountsSum(cs[..|cs| - 1]);
      CountsSumStep(cs);
    }
  }

  lemma CountsSumStep(cs: seq<nat>)
    requires cs != [] && forall s :: 0 <= s < |cs| ==> cs[s] <= MAX_CLEN
    requires Total(Spaces(Counts(cs[..|cs| - 1]))) == Total(Shares32(cs[..|cs| - 1]))
    requires Total(Counts(cs[..|cs| - 1])) <= |cs| - 1
    ensures Total(Spaces(Counts(cs))) == Total(Shares32(cs)) && Total(Counts(cs)) <= |cs|
  {
    hide Counts, Spaces;
    var init, x := cs[..|cs| - 1], cs[|cs| - 1];
    assert cs == init + [x];
    CountsAppend(init, x);
    SharesAppend(init, x);
    if x != 0 {
      SpaceIncrement(Counts(init), x, 1);
      ShlOne(MAX_CLEN - x);
    }
  }

  lemma SharesAppend(cs: seq<nat>, x: nat)
    requires x <= MAX_CLEN && forall s :: 0 <= s < |cs| ==> cs[s] <= MAX_CLEN
    ensures Total(Shares32(cs + [x])) == Total(Shares32(cs)) + if x == 0 then 0 else Pow2(MAX_CLEN - x)
  {
    assert Shares32(cs + [x])[..|cs|] == Shares32(cs);
  }

  lemma RescaleShares(f: seq<nat>, cs: seq<nat>, m: nat)
    requires |f| == |cs| && m >= MAX_CLEN
    requires forall s :: 0 <= s < |cs| ==> cs[s] <= MAX_CLEN && (cs[s] > 0 <==> f[s] > 0)
    ensures Total(Shares32(cs)) >= 0
    ensures Total(Shares(f, cs, m)) == Shl(Total(Shares32(cs)), m - MAX_CLEN)
  {
    var j: seq<nat> := seq(|cs|, s requires 0 <= s < |cs| => if cs[s] == 0 then 0 else Pow2(MAX_CLEN - cs[s]));
    assert Shares32(cs) == j;
    forall s | 0 <= s < |cs| ensures Shares(f, cs, m)[s] == Shl(j[s], m - MAX_CLEN) {
      if cs[s] == 0 {
        ShlZero(m - MAX_CLEN);
      } else {
        ShlPow2(MAX_CLEN - cs[s], m - MAX_CLEN);
      }
    }
    var k := TotalOfMultiples(Shares(f, cs, m), j, m - MAX_CLEN);
  }

  /** Huffman lengths within 32 bits give complete counts. */
  lemma CountsComplete(f: seq<nat>, cs: seq<nat>)
    requires OptimalLengths(f, cs) && forall s :: 0 <= s < SYMBOLS ==> cs[s] <= MAX_CLEN
    ensures CompleteCounts(Counts(cs))
  {
    hide Total, Cost, Counts, Spaces, Pow2, Shl;
    CountsSum(cs);
    RescaleShares(f, cs, Depth(f));
    WholeSpace(Total(Shares32(cs)), Depth(f));
  }

  lemma WholeSpace(x: nat, m: nat)
    requires m >= MAX_CLEN && Shl(x, m - MAX_CLEN) == Pow2(m)
    ensures x == SPACE_32
  {
    Split32(0, MAX_CLEN);
    ShlOne(MAX_CLEN);
    ShlPow2(MAX_CLEN, m - MAX_CLEN);
    ShlOrder(x, Pow2(MAX_CLEN), m - MAX_CLEN);
  }

  // ----- When 256 symbols share a length -----

  lemma EntryBound(b: seq<nat>, k: nat)
    requires CompleteCounts(b) && k < |b|
    ensures Shl(b[k], MAX_CLEN - k) <= SPACE_32 && b[k] <= Total(b)
  {
    TotalNonNegative(Spaces(b));
    TotalNonNegative(b);
    assert Spaces(b)[k] <= Total(Spaces(b));
  }

  lemma TwoEntries(v: seq<int>, k: nat, l: nat)
    requires k < |v| && l < |v| && k != l && forall i :: 0 <= i < |v| ==> v[i] >= 0
    ensures v[k] + v[l] <= Total(v)
    ensures v[k] + v[l] == Total(v) ==> forall i :: 0 <= i < |v| && i != k && i != l ==> v[i] == 0
  {
    TotalUpdate(v, k, 0);
    TotalUpdate(v[k := 0], l, 0);
    var w := v[k := 0][l := 0];
    TotalNonNegative(w);
    forall i | 0 <= i < |v| && i != k && i != l && v[k] + v[l] == Total(v) ensures v[i] == 0 {
      assert w[i] == v[i];
    }
  }

  lemma CrowdedBound(b: seq<nat>, k: nat)
    requires CompleteCounts(b) && k < |b| && b[k] >= 256
    ensures k >= 8 && Shl(b[k], MAX_CLEN - k) == Pow2(8 + MAX_CLEN - k) + Shl(b[k] - 256, MAX_CLEN - k)
  {
    var n := MAX_CLEN - k;
    EntryBound(b, k);
    Pow2Constants();
    ShlPow2(8, n);
    ShlAdd(256, b[k] - 256, n);
    Split32(k, n);
    ShlOrder(Pow2(k), b[k], n);
    if k < 8 {
      Pow2Strict(k, 8);
    }
  }

  /** 256 words of k bits and one of l bits fill the code space only when half goes to each. */
  lemma CrowdedPair(k: nat, l: nat)
    requires 8 <= k <= MAX_CLEN && l <= MAX_CLEN
    requires Pow2(8 + MAX_CLEN - k) + Pow2(MAX_CLEN - l) == SPACE_32
    ensures k == 9 && l == 1
  {
    Split32(MAX_CLEN, 0);
    PowersSumToPower(8 + MAX_CLEN - k, MAX_CLEN - l, MAX_CLEN);
  }

  lemma CrowdedAlone(k: nat)
    requires 8 <= k <= MAX_CLEN && Pow2(8 + MAX_CLEN - k) == SPACE_32
    ensures k == 8
  {
    Split32(MAX_CLEN, 0);
    Pow2Injective(8 + MAX_CLEN - k, MAX_CLEN);
  }

  /** A complete code with 256 words of one length is one of two shapes, and has no word beyond 9 bits. */
  lemma CrowdedShape(b: seq<nat>, k: nat)
    requires CompleteCounts(b) && k < |b| && b[k] >= 256
    ensures (k == 8 && b[8] == 256 && b[1] == 0) || (k == 9 && b[9] == 256 && b[1] == 1)
    ensures forall i :: 0 <= i < |b| && i != k && i != 1 ==> b[i] == 0
  {
    var n := MAX_CLEN - k;
    CrowdedBound(b, k);
    if l :| 0 <= l < |b| && l != k && b[l] > 0 {
      TwoEntries(b, k, l);
      OnlyTwo(b, k, l);
      ShlOne(MAX_CLEN - l);
      ShlZero(n);
      CrowdedPair(k, l);
    } else {
      EntryBound(b, k);
      OnlyOne(b, k);
      ShlOne(n);
      ShlZero(n);
      if b[k] == 257 {
        CrowdedPair(k, k);
      } else {
        CrowdedAlone(k);
      }
    }
  }

  lemma OnlyOne(b: seq<nat>, k: nat)
    requires |b| == MAX_CLEN + 1 && k < |b| && forall i :: 0 <= i < |b| && i != k ==> b[i] == 0
    ensures Total(Spaces(b)) == Shl(b[k], MAX_CLEN - k)
  {
    forall i | 0 <= i < |b| && i != k ensures Spaces(b)[i] == 0 {
      ShlZero(MAX_CLEN - i);
    }
    SingleTerm(Spaces(b), k);
  }

  lemma OnlyTwo(b: seq<nat>, k: nat, l: nat)
    requires |b| == MAX_CLEN + 1 && k < |b| && l < |b| && k != l
    requires forall i :: 0 <= i < |b| && i != k && i != l ==> b[i] == 0
    ensures Total(Spaces(b)) == Shl(b[k], MAX_CLEN - k) + Shl(b[l], MAX_CLEN - l)
  {
    SpaceUpdate(b, l, 0);
    ShlZero(MAX_CLEN - l);
    OnlyOne(b[l := 0], k);
  }

  lemma {:induction false} Pow2Strict(a: nat, b: nat)
    requires a < b
    ensures 2 * Pow2(a) <= Pow2(b)
  {
    Pow2Monotone(a + 1, b);
  }

  lemma Pow2Injective(a: nat, b: nat)
    requires Pow2(a) == Pow2(b)
    ensures a == b
  {
    if a < b {
      Pow2Strict(a, b);
    } else if b < a {
      Pow2Strict(b, a);
    }
  }

  /** Two powers of two add up to a third only when they are equal halves of it. */
  lemma PowersSumToPower(a: nat, b: nat, c: nat)
    requires Pow2(a) + Pow2(b) == Pow2(c)
    ensures a == b == c - 1
  {
    if a >= c {
      Pow2Monotone(c, a);
    } else if b >= c {
      Pow2Monotone(c, b);
    } else {
      Pow2Strict(a, c);
      Pow2Strict(b, c);
      Pow2Injective(a, c - 1);
      Pow2Injective(b, c - 1);
    }
  }

  // ----- One adjustment step -----

  /** The prefix length the search finds for length i. */
  ghost predicate PrefixLength(b: seq<nat>, i: nat, j: nat) {
    |b| == MAX_CLEN + 1 && 2 <= i <= MAX_CLEN && 1 <= j <= i - 2 && b[j] > 0
  }

  ghost function Adjusted(b: seq<nat>, i: nat, j: nat): (r: seq<nat>)
    requires PrefixLength(b, i, j) && b[i] >= 2
  {
    var b1 := b[i := b[i] - 2];
    var b2 := b1[i - 1 := b1[i - 1] + 1];
    var b3 := b2[j + 1 := b2[j + 1] + 2];
    b3[j := b3[j] - 1]
  }

  lemma MoveUp(b: seq<nat>, i: nat) returns (r: seq<nat>)
    requires |b| == MAX_CLEN + 1 && 1 <= i < |b| && b[i] >= 2
    ensures r == b[i := b[i] - 2][i - 1 := b[i - 1] + 1]
    ensures Total(r) == Total(b) - 1 && Total(Spaces(r)) == Total(Spaces(b))
  {
    var b1 := b[i := b[i] - 2];
    SpaceDecrement(b, i, 2);
    SpaceIncrement(b1, i - 1, 1);
    TwoHalves(MAX_CLEN - i);
    r := b1[i - 1 := b1[i - 1] + 1];
  }

  lemma SplitPrefix(b: seq<nat>, j: nat) returns (r: seq<nat>)
    requires |b| == MAX_CLEN + 1 && j + 1 < |b| && b[j] >= 1
    ensures r == b[j + 1 := b[j + 1] + 2][j := b[j] - 1]
    ensures Total(r) == Total(b) + 1 && Total(Spaces(r)) == Total(Spaces(b))
  {
    var b1 := b[j + 1 := b[j + 1] + 2];
    SpaceIncrement(b, j + 1, 2);
    SpaceDecrement(b1, j, 1);
    TwoHalves(MAX_CLEN - j - 1);
    r := b1[j := b1[j] - 1];
  }

  lemma AdjustSums(b: seq<nat>, i: nat, j: nat)
    requires PrefixLength(b, i, j) && b[i] >= 2
    ensures Total(Adjusted(b, i, j)) == Total(b) && Total(Spaces(Adjusted(b, i, j))) == Total(Spaces(b))
  {
    hide Total, Spaces;
    var b2 := MoveUp(b, i);
    var b4 := SplitPrefix(b2, j);
    assert b4 == Adjusted(b, i, j);
  }

  /** One step of K.2 keeps the number of codes and the Kraft sum, and empties length i by two. */
  lemma AdjustKeeps(b: seq<nat>, i: nat, j: nat)
    requires CompleteCounts(b) && PrefixLength(b, i, j) && b[i] >= 2
    ensures CompleteCounts(Adjusted(b, i, j)) && Total(Adjusted(b, i, j)) == Total(b)
    ensures Adjusted(b, i, j)[i] == b[i] - 2 && Adjusted(b, i, j)[i - 1] >= 1
    ensures ShortFrom(b, i) ==> ShortFrom(Adjusted(b, i, j), i)
  {
    AdjustSums(b, i, j);
  }

  lemma TwoHalves(n: nat)
    ensures Shl(2, n) == Shl(1, n + 1)
  {
    ShlDouble(1, n);
  }

  /** A code with a word longer than 16 bits has no 256 words of one length. */
  lemma LongMeansNarrow(b: seq<nat>, i: nat)
    requires CompleteCounts(b) && 16 <= i < |b| && b[i] >= 1
    ensures Narrow(b)
  {
    if !Narrow(b) {
      var k :| 0 <= k < |b| && b[k] > 255;
      CrowdedShape(b, k);
    }
  }

  lemma MultiplesBelow(b: seq<nat>, i: nat) returns (q: nat)
    requires |b| == MAX_CLEN + 1 && 1 <= i < |b| && ShortFrom(b, i)
    ensures Total(Spaces(b[i := 0])) == Shl(q, MAX_CLEN - i + 1)
  {
    var n := MAX_CLEN - i + 1;
    var c := b[i := 0];
    var j: seq<nat> := seq(|b|, k requires 0 <= k < |b| => if k < i then Shl(b[k], i - k - 1) else 0);
    forall k | 0 <= k < |b| ensures Spaces(c)[k] == Shl(j[k], n) {
      if k < i {
        ShlShl(b[k], i - k - 1, n);
      } else {
        ShlZero(MAX_CLEN - k);
        ShlZero(n);
      }
    }
    q := TotalOfMultiples(Spaces(c), j, n);
  }

  lemma EvenRest(q: nat, x: nat, i: nat, n: nat)
    requires i >= 1 && Shl(q, n + 1) + Shl(x, n) == Shl(Pow2(i), n)
    ensures x % 2 == 0
  {
    ShlDouble(q, n);
    ShlAdd(2 * q, x, n);
    ShlOrder(2 * q + x, Pow2(i), n);
  }

  /** The longest words come in pairs. */
  lemma LongestPaired(b: seq<nat>, i: nat)
    requires CompleteCounts(b) && 1 <= i < |b| && ShortFrom(b, i)
    ensures b[i] % 2 == 0
  {
    SpaceUpdate(b, i, 0);
    ShlZero(MAX_CLEN - i);
    var q := MultiplesBelow(b, i);
    Split32(i, MAX_CLEN - i);
    EvenRest(q, b[i], i, MAX_CLEN - i);
  }

  lemma LargePower(i: nat)
    requires i >= 16
    ensures Pow2(i) >= SPACE_16
  {
    Pow2Constants();
    Pow2Monotone(16, i);
  }

  /** The downward search for a prefix always succeeds: 257 long words cannot fill the code space. */
  lemma PrefixExists(b: seq<nat>, i: nat)
    requires CompleteCounts(b) && 16 < i < |b| && ShortFrom(b, i)
    ensures exists j :: 1 <= j <= i - 2 && b[j] > 0
  {
    if forall j :: 1 <= j <= i - 2 ==> b[j] == 0 {
      OnlyTwo(b, i, i - 1);
      TwoEntries(b, i, i - 1);
      ShlDouble(b[i - 1], MAX_CLEN - i);
      ShlAdd(2 * b[i - 1], b[i], MAX_CLEN - i);
      var x := 2 * b[i - 1] + b[i];
      assert x <= 2 * SYMBOLS;
      Split32(i, MAX_CLEN - i);
      ShlOrder(x, Pow2(i), MAX_CLEN - i);
      LargePower(i);
      assert false;
    }
  }

  // ----- What the adjustment leads to -----

  /**
   One step of section K.2, by the counts before and after. Two of the longest words, of i > 16 bits, are taken: one is
   cut by a bit, the other becomes the sibling of a word of j bits, the longest in use up to i - 2.
   */
  ghost predicate StepAt(b: seq<nat>, c: seq<nat>, i: nat, j: nat) {
    && |b| == |c| == MAX_CLEN + 1 && 16 < i <= MAX_CLEN && 1 <= j <= i - 2
    && b[i] >= 2 && (forall k :: i < k <= MAX_CLEN ==> b[k] == 0)
    && b[j] >= 1 && (forall k :: j < k <= i - 2 ==> b[k] == 0)
    && c[i] == b[i] - 2 && c[j] == b[j] - 1
    && (if j + 1 == i - 1 then c[i - 1] == b[i - 1] + 3 else c[i - 1] == b[i - 1] + 1 && c[j + 1] == b[j + 1] + 2)
    && forall k :: 0 <= k <= MAX_CLEN && k != i && k != i - 1 && k != j + 1 && k != j ==> c[k] == b[k]
  }

  ghost predicate OneStep(b: seq<nat>, c: seq<nat>) {
    exists i: nat, j: nat :: StepAt(b, c, i, j)
  }

  /** Each of these counts comes from the one before it by a step. */
  ghost predicate Steps(trace: seq<seq<nat>>) {
    && trace != []
    && (|trace| > 1 ==> Steps(trace[..|trace| - 1]) && OneStep(trace[|trace| - 2], trace[|trace| - 1]))
  }

  /** The steps lead from b to c, where no word is longer than 16 bits. */
  ghost predicate LimitedBy(b: seq<nat>, trace: seq<seq<nat>>, c: seq<nat>) {
    Steps(trace) && trace != [] && trace[0] == b && trace[|trace| - 1] == c && ShortFrom(c, 16)
  }

  lemma AdjustedIsStep(b: seq<nat>, i: nat, j: nat)
    requires PrefixLength(b, i, j) && b[i] >= 2 && 16 < i && ShortFrom(b, i) && forall k :: j < k <= i - 2 ==> b[k] == 0
    ensures OneStep(b, Adjusted(b, i, j))
  {
    assert StepAt(b, Adjusted(b, i, j), i, j);
  }

  lemma StepsOn(trace: seq<seq<nat>>, c: seq<nat>)
    requires Steps(trace) && OneStep(trace[|trace| - 1], c)
    ensures Steps(trace + [c])
  {
    assert (trace + [c])[..|trace|] == trace;
  }

  lemma SameStep(b: seq<nat>, c: seq<nat>, d: seq<nat>)
    requires OneStep(b, c) && OneStep(b, d)
    ensures c == d
  {
    var i: nat, j: nat :| StepAt(b, c, i, j);
    var k: nat, l: nat :| StepAt(b, d, k, l);
    assert i == k && j == l;
  }

  lemma {:induction false} StepsPart(trace: seq<seq<nat>>, n: nat)
    requires Steps(trace) && 0 < n < |trace|
    ensures Steps(trace[..n]) && OneStep(trace[n - 1], trace[n])
    decreases |trace|
  {
    hide OneStep;
    if n < |trace| - 1 {
      var init := trace[..|trace| - 1];
      StepsPart(init, n);
      assert init[..n] == trace[..n] && init[n - 1] == trace[n - 1] && init[n] == trace[n];
    }
  }

  lemma {:induction false} SameSteps(s: seq<seq<nat>>, t: seq<seq<nat>>, n: nat)
    requires Steps(s) && Steps(t) && n < |s| && n < |t| && s[0] == t[0]
    ensures s[n] == t[n]
  {
    hide Steps, OneStep;
    if n > 0 {
      SameSteps(s, t, n - 1);
      StepsPart(s, n);
      StepsPart(t, n);
      SameStep(s[n - 1], s[n], t[n]);
    }
  }

  lemma NoStepBeyond(c: seq<nat>, d: seq<nat>)
    requires ShortFrom(c, 16)
    ensures !OneStep(c, d)
  {
  }

  /** The counts determine the result. */
  lemma OneLimit(b: seq<nat>, s: seq<seq<nat>>, c: seq<nat>, t: seq<seq<nat>>, d: seq<nat>)
    requires LimitedBy(b, s, c) && LimitedBy(b, t, d)
    ensures c == d
  {
    hide Steps, OneStep;
    var n := if |s| <= |t| then |s| - 1 else |t| - 1;
    SameSteps(s, t, n);
    if |s| < |t| {
      StepsPart(t, |s|);
      NoStepBeyond(c, t[|s|]);
    } else if |t| < |s| {
      StepsPart(s, |t|);
      NoStepBeyond(d, s[|t|]);
    }
  }

  /** b and c count the same words of up to k bits. */
  ghost predicate SameUpTo(b: seq<nat>, c: seq<nat>, k: nat) {
    |b| == |c| == MAX_CLEN + 1 && k <= MAX_CLEN && forall l :: 0 <= l <= k ==> c[l] == b[l]
  }

  /** How many words are longer than k bits. */
  ghost function Longer(b: seq<nat>, k: nat): nat
    requires k < |b|
  {
    TotalNonNegative(b[k + 1..]);
    Total(b[k + 1..])
  }

  /** The words longer than k bits would fit in their code space with 16 bits each. */
  ghost predicate LongFit(b: seq<nat>, k: nat)
    requires |b| == MAX_CLEN + 1 && k <= MAX_CLEN
  {
    Shl(Longer(b, k), 16) <= Total(Spaces(b)[k + 1..])
  }

  lemma {:induction false} ShlGrows(x: nat, m: nat, n: nat)
    requires m <= n
    ensures Shl(x, m) <= Shl(x, n)
    ensures x > 0 && m < n ==> Shl(x, m) < Shl(x, n)
    decreases n
  {
    ShlOrder(0, x, m);
    ShlZero(m);
    if m < n {
      ShlGrows(x, m, n - 1);
    }
  }

  /** The words longer than k bits at 16 bits each, length by length. */
  lemma SixteenEach(b: seq<nat>, k: nat) returns (u: seq<int>)
    requires k < |b| == MAX_CLEN + 1
    ensures |u| == MAX_CLEN - k && forall t :: 0 <= t < |u| ==> u[t] == Shl(b[k + 1 + t], 16)
    ensures Total(u) == Shl(Longer(b, k), 16)
  {
    var w := b[k + 1..];
    u := seq(|w|, t requires 0 <= t < |w| => Shl(w[t], 16));
    var n := TotalOfMultiples(u, w, 16);
  }

  /** When a step splits a word of at most k bits, no longer word has less than 16 bits. */
  lemma LongEntry(b: seq<nat>, c: seq<nat>, i: nat, j: nat, l: nat)
    requires StepAt(b, c, i, j) && j < l <= MAX_CLEN
    ensures Shl(b[l], MAX_CLEN - l) <= Shl(b[l], 16)
    ensures l == i ==> Shl(b[l], MAX_CLEN - l) < Shl(b[l], 16)
  {
    if b[l] > 0 {
      ShlGrows(b[l], MAX_CLEN - l, 16);
    } else {
      ShlZero(MAX_CLEN - l);
      ShlZero(16);
    }
  }

  lemma StepNeedsRoom(b: seq<nat>, c: seq<nat>, i: nat, j: nat, k: nat)
    requires StepAt(b, c, i, j) && j <= k <= 16
    ensures !LongFit(b, k)
  {
    hide Shl;
    var u := SixteenEach(b, k);
    var v := Spaces(b)[k + 1..];
    var t := i - k - 1;
    forall x | 0 <= x < |v| ensures v[x] <= u[x] && (x == t ==> v[x] < u[x]) {
      LongEntry(b, c, i, j, k + 1 + x);
    }
    TotalMonotone(v, u[t := u[t] - 1]);
    TotalUpdate(u, t, u[t] - 1);
  }

  /** No word beyond 16 bits: each takes at least the space of one of 16. */
  lemma ShortFits(c: seq<nat>, k: nat)
    requires k < |c| == MAX_CLEN + 1 && ShortFrom(c, 16)
    ensures LongFit(c, k)
  {
    var u := SixteenEach(c, k);
    var v := Spaces(c)[k + 1..];
    forall x | 0 <= x < |v| ensures u[x] <= v[x] {
      var l := k + 1 + x;
      ShlZero(MAX_CLEN - l);
      ShlZero(16);
      if c[l] > 0 {
        ShlGrows(c[l], 16, MAX_CLEN - l);
      }
    }
    TotalMonotone(u, v);
  }

  lemma StepIsAdjusted(b: seq<nat>, c: seq<nat>, i: nat, j: nat)
    requires StepAt(b, c, i, j)
    ensures c == Adjusted(b, i, j)
  {
  }

  lemma StepConserves(b: seq<nat>, c: seq<nat>, i: nat, j: nat)
    requires StepAt(b, c, i, j)
    ensures Total(c) == Total(b) && Total(Spaces(c)) == Total(Spaces(b))
  {
    hide Total, Spaces;
    StepIsAdjusted(b, c, i, j);
    AdjustSums(b, i, j);
  }

  lemma {:induction false} StepsConserve(trace: seq<seq<nat>>, n: nat)
    requires Steps(trace) && n < |trace| && |trace[0]| == MAX_CLEN + 1
    ensures |trace[n]| == MAX_CLEN + 1
    ensures Total(trace[n]) == Total(trace[0]) && Total(Spaces(trace[n])) == Total(Spaces(trace[0]))
  {
    hide Steps, Total, Spaces;
    if n > 0 {
      StepsConserve(trace, n - 1);
      StepsPart(trace, n);
      var i: nat, j: nat :| StepAt(trace[n - 1], trace[n], i, j);
      StepConserves(trace[n - 1], trace[n], i, j);
    }
  }

  /** With the shorter words the same, the longer ones have the same number and space. */
  lemma SameBeyond(b: seq<nat>, c: seq<nat>, k: nat)
    requires SameUpTo(b, c, k) && Total(c) == Total(b) && Total(Spaces(c)) == Total(Spaces(b))
    ensures Longer(c, k) == Longer(b, k) && (LongFit(c, k) <==> LongFit(b, k))
  {
    hide Total, Shl;
    assert b == b[..k + 1] + b[k + 1..] && c == b[..k + 1] + c[k + 1..];
    TotalConcat(b[..k + 1], b[k + 1..]);
    TotalConcat(b[..k + 1], c[k + 1..]);
    var v, w := Spaces(b), Spaces(c);
    assert v == v[..k + 1] + v[k + 1..] && w == v[..k + 1] + w[k + 1..];
    TotalConcat(v[..k + 1], v[k + 1..]);
    TotalConcat(v[..k + 1], w[k + 1..]);
  }

  /** While the longer words fit in 16 bits, no step splits a word of up to k bits. */
  lemma {:induction false} StepsKeep(trace: seq<seq<nat>>, k: nat, n: nat)
    requires Steps(trace) && n < |trace| && |trace[0]| == MAX_CLEN + 1 && k <= 16
    requires LongFit(trace[0], k)
    ensures SameUpTo(trace[0], trace[n], k)
  {
    hide Steps, LongFit, Total, Spaces;
    if n > 0 {
      StepsKeep(trace, k, n - 1);
      StepsPart(trace, n);
      StepsConserve(trace, n - 1);
      SameBeyond(trace[0], trace[n - 1], k);
      var i: nat, j: nat :| StepAt(trace[n - 1], trace[n], i, j);
      if j <= k {
        StepNeedsRoom(trace[n - 1], trace[n], i, j, k);
      }
    }
  }

  /** The limit leaves the words of up to k bits alone exactly when 16 bits are enough for all longer ones. */
  lemma KeepsIff(b: seq<nat>, trace: seq<seq<nat>>, c: seq<nat>, k: nat)
    requires |b| == MAX_CLEN + 1 && LimitedBy(b, trace, c) && k <= 16
    ensures |c| == MAX_CLEN + 1
    ensures (forall l :: 0 <= l <= k ==> c[l] == b[l]) <==> LongFit(b, k)
  {
    hide Steps, LongFit, Total, Spaces;
    var n := |trace| - 1;
    StepsConserve(trace, n);
    if LongFit(b, k) {
      StepsKeep(trace, k, n);
    } else if SameUpTo(b, c, k) {
      ShortFits(c, k);
      SameBeyond(b, c, k);
    }
  }

  lemma NoneLonger(b: seq<nat>, k: nat)
    requires k < |b|
    ensures Longer(b, k) == 0 <==> ShortFrom(b, k)
  {
    var w := b[k + 1..];
    TotalNonNegative(w);
    assert forall l :: k < l < |b| ==> b[l] == w[l - k - 1];
    if ShortFrom(b, k) {
      AllZero(w);
    }
  }

  /** Where the words of up to k bits are left alone, the greatest length stays the same or lies beyond k before and after. */
  lemma LongestKept(b: seq<nat>, trace: seq<seq<nat>>, c: seq<nat>, k: nat, x: nat, m: nat)
    requires |b| == MAX_CLEN + 1 && LimitedBy(b, trace, c) && k <= 16 && LongFit(b, k)
    requires x < |b| && b[x] > 0 && ShortFrom(b, x) && m < |c| && c[m] > 0 && ShortFrom(c, m)
    ensures m == x || (m > k && x > k)
  {
    hide Steps, LongFit, Total, Spaces, Longer;
    KeepsIff(b, trace, c, k);
    StepsConserve(trace, |trace| - 1);
    SameBeyond(b, c, k);
    NoneLonger(b, k);
    NoneLonger(c, k);
  }

  // ----- The code -----

  /** Tally the code lengths; UINT8 entries wrap at 256. */
  method CountLengths(codesize: seq<nat>) returns (ok: bool, bits: array<nat>)
    ensures ok <==> forall s :: 0 <= s < |codesize| ==> codesize[s] <= MAX_CLEN
    ensures fresh(bits) && bits.Length == MAX_CLEN + 1
    ensures ok ==> forall k :: 0 <= k <= MAX_CLEN ==> bits[k] == CountOf(codesize, k) % 256
  {
    bits := new nat[MAX_CLEN + 1](_ => 0);
    ok := true;
    var i := 0;
    while i < |codesize|
      invariant 0 <= i <= |codesize|
      invariant forall s :: 0 <= s < i ==> codesize[s] <= MAX_CLEN
      invariant forall k :: 0 <= k <= MAX_CLEN ==> bits[k] == CountOf(codesize[..i], k) % 256
    {
      assert codesize[..i + 1][..i] == codesize[..i];
      if codesize[i] != 0 {
        if codesize[i] > MAX_CLEN {
          ok := false;
          return;
        }
        bits[codesize[i]] := (bits[codesize[i]] + 1) % 256;
      }
      i := i + 1;
    }
    assert codesize[..i] == codesize;
  }

  ghost predicate Storable(b: seq<nat>) {
    CompleteCounts(b) && Narrow(b)
  }

  /** Move two words of length i one bit up, and split a shorter word, until length i is unused. */
  method ClearLength(bits: array<nat>, i: nat, ghost trace0: seq<seq<nat>>) returns (ghost trace: seq<seq<nat>>)
    requires bits.Length == MAX_CLEN + 1 && 16 < i <= MAX_CLEN
    requires ShortFrom(bits[..], i) && (Storable(bits[..]) || bits[i] == 0)
    requires Steps(trace0) && trace0 != [] && trace0[|trace0| - 1] == bits[..]
    modifies bits
    ensures ShortFrom(bits[..], i - 1)
    ensures old(Storable(bits[..])) ==> Storable(bits[..]) && Total(bits[..]) == old(Total(bits[..]))
    ensures old(bits[i]) == 0 ==> bits[..] == old(bits[..])
    ensures Steps(trace) && trace != [] && trace[0] == trace0[0] && trace[|trace| - 1] == bits[..]
  {
    hide Steps, OneStep, Total, Spaces;
    trace := trace0;
    while bits[i] > 0
      invariant ShortFrom(bits[..], i) && (Storable(bits[..]) || bits[i] == 0)
      invariant old(Storable(bits[..])) ==> Storable(bits[..]) && Total(bits[..]) == old(Total(bits[..]))
      invariant old(bits[i]) == 0 ==> bits[..] == old(bits[..])
      invariant Steps(trace) && trace != [] && trace[0] == trace0[0] && trace[|trace| - 1] == bits[..]
      decreases bits[i]
    {
      ghost var b := bits[..];
      assert b[i] == bits[i];
      PrefixExists(b, i);
      LongestPaired(b, i);
      var j := FindPrefix(bits, i);
      AdjustKeeps(b, i, j);
      LongMeansNarrow(Adjusted(b, i, j), i - 1);
      AdjustedIsStep(b, i, j);
      StepsOn(trace, Adjusted(b, i, j));
      Adjust(bits, i, j);
      trace := trace + [bits[..]];
      assert bits[i] == bits[..][i];
    }
  }

  /** The length limit: no word longer than 16 bits, the same number of words, Kraft sum still 1; each step as K.2 has it. */
  method LimitLengths(bits: array<nat>) returns (ghost trace: seq<seq<nat>>)
    requires bits.Length == MAX_CLEN + 1
    requires Storable(bits[..]) || ShortFrom(bits[..], 16)
    modifies bits
    ensures ShortFrom(bits[..], 16)
    ensures old(Storable(bits[..])) ==> Storable(bits[..]) && Total(bits[..]) == old(Total(bits[..]))
    ensures ShortFrom(old(bits[..]), 16) ==> bits[..] == old(bits[..])
    ensures LimitedBy(old(bits[..]), trace, bits[..])
  {
    hide OneStep, Total, Spaces;
    var i := MAX_CLEN;
    trace := [bits[..]];
    while i > 16
      invariant 16 <= i <= MAX_CLEN && ShortFrom(bits[..], i)
      invariant Storable(bits[..]) || ShortFrom(bits[..], 16)
      invariant old(Storable(bits[..])) ==> Storable(bits[..]) && Total(bits[..]) == old(Total(bits[..]))
      invariant ShortFrom(old(bits[..]), 16) ==> bits[..] == old(bits[..])
      invariant Steps(trace) && trace[0] == old(bits[..]) && trace[|trace| - 1] == bits[..]
    {
      assert bits[..][i] == bits[i];
      trace := ClearLength(bits, i, trace);
      i := i - 1;
    }
  }

  /** The length of the prefix to be split: the next shorter length in use, skipping one. */
  method FindPrefix(bits: array<nat>, i: nat) returns (j: nat)
    requires bits.Length == MAX_CLEN + 1 && 16 < i <= MAX_CLEN
    requires exists k :: 1 <= k <= i - 2 && bits[..][k] > 0
    ensures PrefixLength(bits[..], i, j)
    ensures forall k :: j < k <= i - 2 ==> bits[k] == 0
  {
    j := i - 2;
    ghost var k0 :| 1 <= k0 <= i - 2 && bits[..][k0] > 0;
    while bits[j] == 0
      invariant k0 <= j <= i - 2
      invariant forall k :: j < k <= i - 2 ==> bits[k] == 0
      decreases j
    {
      j := j - 1;
    }
  }

  method Adjust(bits: array<nat>, i: nat, j: nat)
    requires PrefixLength(bits[..], i, j) && bits[i] >= 2
    requires Narrow(Adjusted(bits[..], i, j))
    modifies bits
    ensures bits[..] == Adjusted(old(bits[..]), i, j)
  {
    ghost var b := bits[..];
    bits[i] := bits[i] - 2;
    assert Adjusted(b, i, j)[i - 1] <= 255 && Adjusted(b, i, j)[j + 1] <= 255;
    bits[i - 1] := (bits[i - 1] + 1) % 256;
    bits[j + 1] := (bits[j + 1] + 2) % 256;
    bits[j] := bits[j] - 1;
    assert bits[..] == Adjusted(b, i, j);
  }
}
