/** jpeg_gen_optimal_table: a legal table giving a code to every counted symbol. */
module OptimalTable {
  import opened BitStrings
  import opened HuffmanOptimality
  import opened HuffmanTree
  import opened HuffmanTable
  import opened HuffmanRun
  import opened EvenCounts
  import opened LengthLimit
  import opened Crowding

  /** What the routine can come to. OutOfBounds stands for running off the low end of bits[]. */
  datatype GenResult =
    | Table(table: HuffTable)
    | LengthOverflow
    | OutOfBounds

  // ----- The symbols sorted by code length -----

  /** The symbols of code length l, in order. */
  function SymbolsOf(cs: seq<nat>, l: nat): seq<nat> {
    if cs == [] then []
    else
      var n := |cs| - 1;
      SymbolsOf(cs[..n], l) + (if cs[n] == l then [n] else [])
  }

  /** The symbols with codes of at most l bits, shorter codes first, in symbol order within a length. */
  function Sorted(cs: seq<nat>, l: nat): seq<nat>
  {
    if l == 0 then [] else Sorted(cs, l - 1) + SymbolsOf(cs, l)
  }

  lemma {:induction false} SymbolsOfCount(cs: seq<nat>, l: nat)
    requires l > 0
    ensures |SymbolsOf(cs, l)| == CountOf(cs, l)
  {
    if cs != [] {
      SymbolsOfCount(cs[..|cs| - 1], l);
    }
  }

  lemma {:induction false} SymbolsOfAll(cs: seq<nat>, l: nat)
    ensures forall s :: 0 <= s < |cs| && cs[s] == l ==> s in SymbolsOf(cs, l)
  {
    if cs != [] {
      SymbolsOfAll(cs[..|cs| - 1], l);
    }
  }

  lemma {:induction false} SymbolsOfShape(cs: seq<nat>, l: nat)
    ensures forall p :: 0 <= p < |SymbolsOf(cs, l)| ==> SymbolsOf(cs, l)[p] < |cs| && cs[SymbolsOf(cs, l)[p]] == l
    ensures forall p, q :: 0 <= p < q < |SymbolsOf(cs, l)| ==> SymbolsOf(cs, l)[p] < SymbolsOf(cs, l)[q]
  {
    if cs != [] {
      SymbolsOfShape(cs[..|cs| - 1], l);
    }
  }

  lemma {:induction false} SortedMembers(cs: seq<nat>, l: nat)
    ensures forall p :: 0 <= p < |Sorted(cs, l)| ==> Sorted(cs, l)[p] < |cs| && 1 <= cs[Sorted(cs, l)[p]] <= l
    ensures forall s :: 0 <= s < |cs| && 1 <= cs[s] <= l ==> s in Sorted(cs, l)
  {
    if l > 0 {
      SortedMembers(cs, l - 1);
      SymbolsOfShape(cs, l);
      SymbolsOfAll(cs, l);
    }
  }

  lemma {:induction false} SortedDistinct(cs: seq<nat>, l: nat)
    ensures Distinct(Sorted(cs, l))
  {
    if l > 0 {
      SortedDistinct(cs, l - 1);
      SortedMembers(cs, l - 1);
      SymbolsOfShape(cs, l);
      AppendDistinct(Sorted(cs, l - 1), SymbolsOf(cs, l));
    }
  }

  lemma AppendDistinct(a: seq<nat>, b: seq<nat>)
    requires Distinct(a) && (forall p, q :: 0 <= p < q < |b| ==> b[p] < b[q])
    requires forall p, q :: 0 <= p < |a| && 0 <= q < |b| ==> a[p] != b[q]
    ensures Distinct(a + b)
  {
  }

  lemma {:induction false} SortedLength(cs: seq<nat>, l: nat)
    requires l <= MAX_CLEN
    ensures |Sorted(cs, l)| == Total(Counts(cs)[..l + 1])
  {
    var b := Counts(cs);
    assert b[..l + 1][..l] == b[..l];
    if l > 0 {
      SortedLength(cs, l - 1);
      SymbolsOfCount(cs, l);
    } else {
      assert b[..1] == [0];
      assert Total(b[..0]) == 0;
    }
  }

  // ----- The size list of the finished counts -----

  lemma {:induction false} SizesLength(bits: seq<nat>, l: nat)
    requires l < |bits| && bits[0] == 0
    ensures |Sizes(bits, l)| == Total(bits[..l + 1])
  {
    assert bits[..l + 1][..l] == bits[..l];
    if l > 0 {
      SizesLength(bits, l - 1);
    } else {
      assert Total(bits[..0]) == 0;
    }
  }

  lemma {:induction false} SlotsRepeat(s: seq<nat>, n: nat, l: nat)
    requires (forall p :: 0 <= p < |s| ==> s[p] <= MAX_LEN) && l <= MAX_LEN
    ensures Slots(s + seq(n, _ => l)) == Slots(s) + Shl(n, MAX_LEN - l)
  {
    hide Shl, Pow2;
    var t := s + seq(n, _ => l);
    if n == 0 {
      ShlZero(MAX_LEN - l);
      assert t == s;
    } else {
      SlotsRepeat(s, n - 1, l);
      assert t[..|t| - 1] == s + seq(n - 1, _ => l);
      ShlOne(MAX_LEN - l);
      ShlAdd(n - 1, 1, MAX_LEN - l);
    }
  }

  /** The Kraft sum of the size list is that of the counts. */
  lemma {:induction false} SlotsSpaces(b: seq<nat>, l: nat)
    requires |b| == MAX_CLEN + 1 && b[0] == 0 && l <= MAX_LEN
    ensures Shl(Slots(Sizes(b[..MAX_LEN + 1], l)), MAX_CLEN - MAX_LEN) == Total(Spaces(b)[..l + 1])
  {
    var v := Spaces(b);
    assert v[..l + 1][..l] == v[..l];
    if l > 0 {
      SlotsSpaces(b, l - 1);
      SlotsRepeat(Sizes(b[..MAX_LEN + 1], l - 1), b[l], l);
      ShlAdd(Slots(Sizes(b[..MAX_LEN + 1], l - 1)), Shl(b[l], MAX_LEN - l), MAX_CLEN - MAX_LEN);
      ShlShl(b[l], MAX_LEN - l, MAX_CLEN - MAX_LEN);
    } else {
      ShlZero(MAX_CLEN);
      ShlZero(MAX_CLEN - MAX_LEN);
      assert v[..1] == [0];
      assert Total(v[..0]) == 0;
    }
  }

  lemma {:induction false} ZeroTail(v: seq<int>, n: nat)
    requires n <= |v| && forall i :: n <= i < |v| ==> v[i] == 0
    ensures Total(v[..n]) == Total(v)
  {
    assert v == v[..n] + v[n..];
    TotalConcat(v[..n], v[n..]);
    AllZero(v[n..]);
  }

  lemma ShortTotals(b: seq<nat>)
    requires |b| == MAX_CLEN + 1 && b[0] == 0 && ShortFrom(b, MAX_LEN)
    ensures |Sizes(b[..MAX_LEN + 1], MAX_LEN)| == Total(b)
    ensures Shl(Slots(Sizes(b[..MAX_LEN + 1], MAX_LEN)), MAX_CLEN - MAX_LEN) == Total(Spaces(b))
  {
    var bits := b[..MAX_LEN + 1];
    SizesLength(bits, MAX_LEN);
    assert bits[..MAX_LEN + 1] == bits;
    ZeroTail(b, MAX_LEN + 1);
    SlotsSpaces(b, MAX_LEN);
    forall k | MAX_LEN < k <= MAX_CLEN ensures Spaces(b)[k] == 0 {
      ShlZero(MAX_CLEN - k);
    }
    ZeroTail(Spaces(b), MAX_LEN + 1);
  }

  lemma HalfSpace(x: nat)
    ensures Shl(x, MAX_CLEN - MAX_LEN) < SPACE_32 <==> x < SPACE_16
  {
    Split32(MAX_LEN, MAX_CLEN - MAX_LEN);
    Split16(MAX_LEN, 0);
    ShlOrder(x, Pow2(MAX_LEN), MAX_CLEN - MAX_LEN);
  }

  lemma BelowOne(b: seq<nat>)
    requires |b| == MAX_CLEN + 1 && b[0] == 0 && ShortFrom(b, MAX_LEN) && Total(Spaces(b)) < SPACE_32
    ensures Slots(Sizes(b[..MAX_LEN + 1], MAX_LEN)) < SPACE_16
  {
    ShortTotals(b);
    HalfSpace(Slots(Sizes(b[..MAX_LEN + 1], MAX_LEN)));
  }

  /** Taking one word out of a complete code leaves it strictly below a Kraft sum of 1. */
  lemma DropOne(b: seq<nat>, m: nat)
    requires Storable(b) && ShortFrom(b, MAX_LEN) && 1 <= m <= MAX_LEN && b[m] > 0
    ensures Slots(Sizes(b[m := b[m] - 1][..MAX_LEN + 1], MAX_LEN)) < SPACE_16
    ensures |Sizes(b[m := b[m] - 1][..MAX_LEN + 1], MAX_LEN)| == Total(b) - 1
  {
    SpaceDecrement(b, m, 1);
    ShlOne(MAX_CLEN - m);
    BelowOne(b[m := b[m] - 1]);
    ShortTotals(b[m := b[m] - 1]);
  }

  // ----- What a finished table owes the counts -----

  /** The real symbols with a code, by code length. */
  ghost function Ranking(cs: seq<nat>): seq<nat>
    requires |cs| == SYMBOLS
  {
    Sorted(cs[..PSEUDO], MAX_CLEN)
  }

  ghost predicate Within(cs: seq<nat>, l: nat) {
    forall v :: 0 <= v < |cs| ==> cs[v] <= l
  }

  /** The counts are what section K.2 makes of the Huffman lengths', less one word of the greatest length left. */
  ghost predicate LimitedCounts(cs: seq<nat>, bits: seq<nat>) {
    exists trace: seq<seq<nat>>, c: seq<nat>, m: nat ::
      && LimitedBy(Counts(cs), trace, c) && m <= MAX_LEN < |c|
      && c[m] > 0 && ShortFrom(c, m) && bits == c[m := c[m] - 1][..MAX_LEN + 1]
  }

  /** The table gives the symbols of up to k bits their Huffman lengths. */
  ghost predicate Keeps(cs: seq<nat>, t: HuffTable, k: nat)
    requires t.WellTyped()
  {
    var s := Sizes(t.bits, MAX_LEN);
    forall p :: 0 <= p < |s| && p < |t.huffval| && t.huffval[p] < |cs| && cs[t.huffval[p]] <= k ==>
      s[p] == cs[t.huffval[p]]
  }

  /**
   The table lists exactly the real counted symbols, by code length, and jpeg_make_c_derived_tbl accepts it. The symbols
   of up to k bits keep their Huffman lengths when 16 bits are enough for all longer words; so every symbol does when no
   Huffman code was longer than 16 bits.
   */
  ghost predicate CodesFor(cs: seq<nat>, t: HuffTable)
    requires |cs| == SYMBOLS && t.WellTyped()
  {
    var s := Sizes(t.bits, MAX_LEN);
    && Acceptable(false, t)
    && |s| == |Ranking(cs)|
    && t.huffval[..|s|] == Ranking(cs)
    && LimitedCounts(cs, t.bits)
    && (forall k: nat :: k <= MAX_LEN && LongFit(Counts(cs), k) ==> Keeps(cs, t, k))
    && (Within(cs, MAX_LEN) ==> forall p :: 0 <= p < |s| ==> t.huffval[p] < |cs| && s[p] == cs[t.huffval[p]])
  }

  lemma CountOfPseudo(cs: seq<nat>, k: nat)
    requires |cs| == SYMBOLS && k > 0
    ensures CountOf(cs, k) == CountOf(cs[..PSEUDO], k) + (if cs[PSEUDO] == k then 1 else 0)
  {
  }

  lemma RealTotal(cs: seq<nat>)
    requires |cs| == SYMBOLS && Within(cs, MAX_CLEN)
    ensures |Ranking(cs)| == Total(Counts(cs[..PSEUDO])) <= PSEUDO
    ensures cs[PSEUDO] > 0 ==> Total(Counts(cs)) == |Ranking(cs)| + 1
  {
    var b := Counts(cs[..PSEUDO]);
    SortedLength(cs[..PSEUDO], MAX_CLEN);
    assert b[..MAX_CLEN + 1] == b;
    CountsSum(cs[..PSEUDO]);
    var x := cs[PSEUDO];
    assert cs == cs[..PSEUDO] + [x];
    CountsAppend(cs[..PSEUDO], x);
    if x > 0 {
      SpaceIncrement(b, x, 1);
    }
  }

  /** Counts taken from the lengths give a size list that follows the sorted symbols length by length. */
  lemma {:induction false} SizesFollow(cs: seq<nat>, bits: seq<nat>, l: nat)
    requires l < |bits| && forall k :: 1 <= k <= l ==> bits[k] == CountOf(cs, k)
    ensures |Sizes(bits, l)| == |Sorted(cs, l)|
    ensures forall p :: 0 <= p < |Sizes(bits, l)| ==> Sorted(cs, l)[p] < |cs| && Sizes(bits, l)[p] == cs[Sorted(cs, l)[p]]
  {
    if l > 0 {
      SizesFollow(cs, bits, l - 1);
      SymbolsOfShape(cs, l);
      SymbolsOfCount(cs, l);
    }
  }

  lemma {:induction false} NoSymbols(cs: seq<nat>, l: nat)
    requires forall s :: 0 <= s < |cs| ==> cs[s] != l
    ensures SymbolsOf(cs, l) == []
  {
    if cs != [] {
      NoSymbols(cs[..|cs| - 1], l);
    }
  }

  lemma {:induction false} SortedStable(cs: seq<nat>, l: nat, m: nat)
    requires l >= m && Within(cs, m)
    ensures Sorted(cs, l) == Sorted(cs, m)
  {
    if l > m {
      SortedStable(cs, l - 1, m);
      NoSymbols(cs, l);
    }
  }

  /** The longest code length in use is the pseudo-symbol's. */
  lemma LongestIsPseudo(f: seq<nat>, cs: seq<nat>, m: nat)
    requires OptimalLengths(f, cs) && f[PSEUDO] > 0 && Within(cs, MAX_CLEN)
    requires m <= MAX_CLEN && Counts(cs)[m] > 0 && ShortFrom(Counts(cs), m)
    ensures m == cs[PSEUDO]
  {
    var x := cs[PSEUDO];
    CountOfPseudo(cs, x);
    assert Counts(cs)[x] > 0;
    if m > x {
      CountOfNone(cs, m);
    }
  }

  /** Dropping the pseudo-symbol's count leaves the real symbols' lengths. */
  lemma ShortTableLengths(f: seq<nat>, cs: seq<nat>, bits: seq<nat>, m: nat)
    requires OptimalLengths(f, cs) && f[PSEUDO] > 0 && Within(cs, MAX_LEN)
    requires m <= MAX_LEN && Counts(cs)[m] > 0 && ShortFrom(Counts(cs), m)
    requires bits == Counts(cs)[m := Counts(cs)[m] - 1][..MAX_LEN + 1]
    ensures var s := Sizes(bits, MAX_LEN);
      |s| == |Ranking(cs)| && forall p :: 0 <= p < |s| ==> Ranking(cs)[p] < PSEUDO && s[p] == cs[Ranking(cs)[p]]
  {
    LongestIsPseudo(f, cs, m);
    forall k | 1 <= k < |bits| ensures bits[k] == CountOf(cs[..PSEUDO], k) {
      CountOfPseudo(cs, k);
    }
    SizesFollow(cs[..PSEUDO], bits, MAX_LEN);
    SortedStable(cs[..PSEUDO], MAX_CLEN, MAX_LEN);
  }

  /** The symbols of up to l bits come first in the list. */
  lemma {:induction false} SortedParts(cs: seq<nat>, l: nat, m: nat)
    requires l <= m
    ensures Sorted(cs, l) <= Sorted(cs, m)
    ensures forall p :: |Sorted(cs, l)| <= p < |Sorted(cs, m)| ==> Sorted(cs, m)[p] < |cs| && cs[Sorted(cs, m)[p]] > l
    decreases m - l
  {
    if l < m {
      SortedParts(cs, l, m - 1);
      SymbolsOfShape(cs, m);
    }
  }

  /** The list runs from short to long codes, and by number among codes of one length. */
  lemma {:induction false} SortedOrder(cs: seq<nat>, l: nat, p: nat, q: nat)
    requires p < q < |Sorted(cs, l)|
    ensures var a, b := Sorted(cs, l)[p], Sorted(cs, l)[q];
      a < |cs| && b < |cs| && (cs[a] < cs[b] || (cs[a] == cs[b] && a < b))
  {
    SymbolsOfShape(cs, l);
    SortedMembers(cs, l - 1);
    if q < |Sorted(cs, l - 1)| {
      SortedOrder(cs, l - 1, p, q);
    }
  }

  lemma {:induction false} SizesParts(bits: seq<nat>, l: nat, m: nat)
    requires l <= m < |bits|
    ensures Sizes(bits, l) <= Sizes(bits, m)
    decreases m - l
  {
    if l < m {
      SizesParts(bits, l, m - 1);
    }
  }

  /** Up to k bits, the limited counts less one of the longest words are those of the real symbols. */
  lemma KeptCounts(f: seq<nat>, cs: seq<nat>, trace: seq<seq<nat>>, c: seq<nat>, m: nat, k: nat, l: nat)
    requires OptimalLengths(f, cs) && f[PSEUDO] > 0 && Within(cs, MAX_CLEN)
    requires LimitedBy(Counts(cs), trace, c) && m < |c| && c[m] > 0 && ShortFrom(c, m)
    requires 1 <= l <= k <= MAX_LEN && LongFit(Counts(cs), k)
    ensures |c| == MAX_CLEN + 1 && c[m := c[m] - 1][l] == CountOf(cs[..PSEUDO], l)
  {
    hide LimitedBy, LongFit, CountOf, Cost, AtLeast, Shares;
    var b, x := Counts(cs), cs[PSEUDO];
    KeepsIff(b, trace, c, k);
    CountOfPseudo(cs, x);
    CountOfPseudo(cs, l);
    forall y | x < y < |b| ensures b[y] == 0 {
      CountOfNone(cs, y);
    }
    LongestKept(b, trace, c, k, x, m);
  }

  /** The limit and the dropping of 256 leave the symbols of up to k bits their lengths when the rest fits in 16 bits. */
  lemma KeptLengths(f: seq<nat>, cs: seq<nat>, trace: seq<seq<nat>>, c: seq<nat>, m: nat, k: nat, p: nat)
    requires OptimalLengths(f, cs) && f[PSEUDO] > 0 && Within(cs, MAX_CLEN)
    requires LimitedBy(Counts(cs), trace, c) && m < |c| && c[m] > 0 && ShortFrom(c, m)
    requires k <= MAX_LEN && LongFit(Counts(cs), k) && |c| == MAX_CLEN + 1
    requires p < |Ranking(cs)| && Ranking(cs)[p] < |cs| && cs[Ranking(cs)[p]] <= k
    ensures var s := Sizes(c[m := c[m] - 1][..MAX_LEN + 1], MAX_LEN); p < |s| && s[p] == cs[Ranking(cs)[p]]
  {
    hide LimitedBy, LongFit, CountOf, ShortFrom, Cost, Shares, AtLeast, Total;
    var rest, bits := cs[..PSEUDO], c[m := c[m] - 1][..MAX_LEN + 1];
    forall l | 1 <= l <= k ensures bits[l] == CountOf(rest, l) {
      KeptCounts(f, cs, trace, c, m, k, l);
    }
    SizesFollow(rest, bits, k);
    SizesParts(bits, k, MAX_LEN);
    SortedParts(rest, k, MAX_CLEN);
  }

  lemma {:induction false} CountOfNone(cs: seq<nat>, k: nat)
    requires forall s :: 0 <= s < |cs| ==> cs[s] != k
    ensures CountOf(cs, k) == 0
  {
    if cs != [] {
      CountOfNone(cs[..|cs| - 1], k);
    }
  }

  lemma OneCounts(cs: seq<nat>, b: seq<nat>, c: seq<nat>)
    requires LimitedCounts(cs, b) && LimitedCounts(cs, c)
    ensures b == c
  {
    hide LimitedBy;
    var s: seq<seq<nat>>, x: seq<nat>, m: nat :|
      && LimitedBy(Counts(cs), s, x) && m <= MAX_LEN < |x|
      && x[m] > 0 && ShortFrom(x, m) && b == x[m := x[m] - 1][..MAX_LEN + 1];
    var t: seq<seq<nat>>, y: seq<nat>, n: nat :|
      && LimitedBy(Counts(cs), t, y) && n <= MAX_LEN < |y|
      && y[n] > 0 && ShortFrom(y, n) && c == y[n := y[n] - 1][..MAX_LEN + 1];
    OneLimit(Counts(cs), s, x, t, y);
    assert m == n;
  }

  /** The code lengths determine the table: its counts, and the part of the symbol list that they cover. */
  lemma OneTable(cs: seq<nat>, t: HuffTable, u: HuffTable)
    requires |cs| == SYMBOLS && t.WellTyped() && u.WellTyped() && CodesFor(cs, t) && CodesFor(cs, u)
    ensures t.bits == u.bits
    ensures var n := |Sizes(t.bits, MAX_LEN)|; n <= |t.huffval| && n <= |u.huffval| && t.huffval[..n] == u.huffval[..n]
  {
    hide LimitedCounts, Sizes, Sorted, Keeps, LongFit;
    OneCounts(cs, t.bits, u.bits);
  }

  // ----- The code -----

  /** Remove the pseudo-symbol from the largest length in use; m < 0 means the search ran off the array. */
  method DropPseudo(bits: array<nat>) returns (m: int)
    requires bits.Length == MAX_CLEN + 1 && ShortFrom(bits[..], MAX_LEN)
    modifies bits
    ensures -1 <= m <= MAX_LEN
    ensures m < 0 ==> bits[..] == old(bits[..]) && forall k :: 0 <= k <= MAX_CLEN ==> old(bits[..])[k] == 0
    ensures m >= 0 ==> old(bits[..])[m] > 0 && ShortFrom(old(bits[..]), m)
    ensures m >= 0 ==> bits[..] == old(bits[..])[m := old(bits[..])[m] - 1]
  {
    m := MAX_LEN;
    while m >= 0 && bits[m] == 0
      invariant -1 <= m <= MAX_LEN
      invariant forall k :: m < k <= MAX_CLEN ==> bits[..][k] == 0
    {
      m := m - 1;
    }
    if m >= 0 {
      bits[m] := bits[m] - 1;
    }
  }

  /** The inner loop of the listing: the symbols of one length, after those already listed. */
  method CollectLength(sizes: seq<nat>, huffval: array<nat>, i: nat, p0: nat, ghost done: seq<nat>) returns (p: nat)
    requires |sizes| == PSEUDO && huffval.Length == 256
    requires p0 == |done| && |done + SymbolsOf(sizes, i)| <= 256 && huffval[..p0] == done
    requires forall q :: 0 <= q < 256 ==> huffval[q] < 256
    modifies huffval
    ensures p == |done + SymbolsOf(sizes, i)| && huffval[..p] == done + SymbolsOf(sizes, i)
    ensures forall q :: 0 <= q < 256 ==> huffval[q] < 256
  {
    p := p0;
    var j := 0;
    while j < PSEUDO
      invariant 0 <= j <= PSEUDO
      invariant p == |done + SymbolsOf(sizes[..j], i)| <= 256
      invariant huffval[..p] == done + SymbolsOf(sizes[..j], i)
      invariant forall q :: 0 <= q < 256 ==> huffval[q] < 256
    {
      SymbolsOfGrows(sizes, i, j + 1);
      assert sizes[..j + 1][..j] == sizes[..j];
      if sizes[j] == i {
        huffval[p] := j;
        p := p + 1;
        assert huffval[..p] == huffval[..p - 1] + [j];
      }
      j := j + 1;
    }
    assert sizes[..j] == sizes;
  }

  /** List the real symbols by code length, up to maxLen. */
  method CollectSymbols(sizes: seq<nat>, huffval: array<nat>, maxLen: nat)
    requires |sizes| == PSEUDO && huffval.Length == 256
    requires |Sorted(sizes, maxLen)| <= 256
    requires forall q :: 0 <= q < 256 ==> huffval[q] < 256
    modifies huffval
    ensures huffval[..|Sorted(sizes, maxLen)|] == Sorted(sizes, maxLen)
    ensures forall q :: 0 <= q < 256 ==> huffval[q] < 256
  {
    hide SymbolsOf;
    var p: nat := 0;
    var i: nat := 1;
    ghost var done: seq<nat> := [];
    while i <= maxLen
      invariant 1 <= i <= maxLen + 1
      invariant done == Sorted(sizes, i - 1)
      invariant p == |done| <= 256 && huffval[..p] == done
      invariant forall q :: 0 <= q < 256 ==> huffval[q] < 256
    {
      SortedGrows(sizes, i, maxLen);
      p := CollectLength(sizes, huffval, i, p, done);
      done := Sorted(sizes, i);
      i := i + 1;
    }
    assert i - 1 == maxLen;
  }

  lemma {:induction false} SortedGrows(cs: seq<nat>, l: nat, m: nat)
    requires l <= m
    ensures |Sorted(cs, l)| <= |Sorted(cs, m)|
    decreases m - l
  {
    if l < m {
      SortedGrows(cs, l, m - 1);
    }
  }

  lemma {:induction false} SymbolsOfGrows(cs: seq<nat>, l: nat, j: nat)
    requires j <= |cs|
    ensures |SymbolsOf(cs[..j], l)| <= |SymbolsOf(cs, l)|
    decreases |cs|
  {
    if j < |cs| {
      SymbolsOfGrows(cs[..|cs| - 1], l, j);
      assert cs[..|cs| - 1][..j] == cs[..j];
    } else {
      assert cs[..j] == cs;
    }
  }

  /** The finished table, once 256 is dropped from sound counts, is accepted and lists the ranking. */
  lemma TableIsAccepted(cs: seq<nat>, b: seq<nat>, m: nat, t: HuffTable)
    requires |cs| == SYMBOLS && cs[PSEUDO] > 0 && Within(cs, MAX_CLEN)
    requires Storable(b) && Total(b) == Total(Counts(cs)) && ShortFrom(b, MAX_LEN)
    requires m <= MAX_LEN && b[m] > 0
    requires t.WellTyped() && t.bits == b[m := b[m] - 1][..MAX_LEN + 1]
    requires |Ranking(cs)| <= 256 && t.huffval[..|Ranking(cs)|] == Ranking(cs)
    ensures |Sizes(t.bits, MAX_LEN)| == |Ranking(cs)|
    ensures Acceptable(false, t)
  {
    var n := |Ranking(cs)|;
    DropOne(b, m);
    RealTotal(cs);
    SortedDistinct(cs[..PSEUDO], MAX_CLEN);
    assert forall p :: 0 <= p < n ==> t.huffval[..n][p] == t.huffval[p];
  }

  lemma TableKeeps(f: seq<nat>, cs: seq<nat>, trace: seq<seq<nat>>, b: seq<nat>, m: nat, t: HuffTable, k: nat)
    requires OptimalLengths(f, cs) && f[PSEUDO] > 0 && Within(cs, MAX_CLEN)
    requires LimitedBy(Counts(cs), trace, b) && |b| == MAX_CLEN + 1
    requires m <= MAX_LEN && b[m] > 0 && ShortFrom(b, m)
    requires t.WellTyped() && t.bits == b[m := b[m] - 1][..MAX_LEN + 1]
    requires |Sizes(t.bits, MAX_LEN)| == |Ranking(cs)| <= 256 && t.huffval[..|Ranking(cs)|] == Ranking(cs)
    requires k <= MAX_LEN && LongFit(Counts(cs), k)
    ensures Keeps(cs, t, k)
  {
    hide LongFit, LimitedBy, Cost, Shares, AtLeast, Total, Sorted, Sizes, ShortFrom;
    forall p: nat | p < |Ranking(cs)| && t.huffval[p] < |cs| && cs[t.huffval[p]] <= k
      ensures Sizes(t.bits, MAX_LEN)[p] == cs[t.huffval[p]]
    {
      assert t.huffval[..|Ranking(cs)|][p] == t.huffval[p];
      KeptLengths(f, cs, trace, b, m, k, p);
    }
  }

  lemma TableIsGood(f: seq<nat>, cs: seq<nat>, trace: seq<seq<nat>>, b: seq<nat>, m: nat, t: HuffTable)
    requires OptimalLengths(f, cs) && f[PSEUDO] > 0 && Within(cs, MAX_CLEN)
    requires Storable(b) && Total(b) == Total(Counts(cs)) && ShortFrom(b, MAX_LEN)
    requires ShortFrom(Counts(cs), MAX_LEN) ==> b == Counts(cs)
    requires LimitedBy(Counts(cs), trace, b)
    requires m <= MAX_LEN && b[m] > 0 && ShortFrom(b, m)
    requires t.WellTyped() && t.bits == b[m := b[m] - 1][..MAX_LEN + 1]
    requires |Ranking(cs)| <= 256 && t.huffval[..|Ranking(cs)|] == Ranking(cs)
    ensures CodesFor(cs, t)
  {
    hide LongFit, Keeps, LimitedBy, CountOf, Spaces, Total, Acceptable, Cost, AtLeast, Shares, Sorted, Sizes;
    var n := |Ranking(cs)|;
    TableIsAccepted(cs, b, m, t);
    forall k: nat | k <= MAX_LEN && LongFit(Counts(cs), k) ensures Keeps(cs, t, k) {
      TableKeeps(f, cs, trace, b, m, t, k);
    }
    if Within(cs, MAX_LEN) {
      forall k | MAX_LEN < k <= MAX_CLEN ensures Counts(cs)[k] == 0 {
        CountOfNone(cs, k);
      }
      ShortTableLengths(f, cs, t.bits, m);
      assert forall p :: 0 <= p < n ==> t.huffval[..n][p] == t.huffval[p];
    }
  }

  /** When 256 symbols share a length the wrapped count is lost, and no real symbol keeps a code: at most one word of one bit is left. */
  lemma CrowdedTable(f: seq<nat>, cs: seq<nat>, b: seq<nat>)
    requires OptimalLengths(f, cs) && f[PSEUDO] > 0 && Within(cs, MAX_CLEN)
    requires |b| == MAX_CLEN + 1 && forall k :: 0 <= k <= MAX_CLEN ==> b[k] == Counts(cs)[k] % 256
    requires !Narrow(Counts(cs))
    ensures (CountOf(cs, 8) == 256 && b[1] == 0) || (CountOf(cs, 9) == 256 && b[1] == 1)
    ensures forall k :: 0 <= k <= MAX_CLEN && k != 1 ==> b[k] == 0
    ensures |Ranking(cs)| > 0
  {
    hide CountOf, Total, Spaces, AtLeast, Shares, Shl, Sorted;
    CountsComplete(f, cs);
    var k :| 0 <= k < |b| && Counts(cs)[k] > 255;
    CrowdedShape(Counts(cs), k);
    RealTotal(cs);
    EntryBound(Counts(cs), k);
  }

  /** Both crowded lengths at once would take more than 257 symbols. */
  lemma NotBoth(cs: seq<nat>)
    requires |cs| == SYMBOLS && Within(cs, MAX_CLEN)
    ensures CountOf(cs, 8) != 256 || CountOf(cs, 9) != 256
    ensures Narrow(Counts(cs)) ==> CountOf(cs, 8) != 256 && CountOf(cs, 9) != 256
  {
    var b := Counts(cs);
    CountsSum(cs);
    TwoEntries(b, 8, 9);
  }

  /** Before the length limit, the tallied counts are sound or have no long code. */
  lemma TalliedCounts(f: seq<nat>, cs: seq<nat>, b: seq<nat>)
    requires OptimalLengths(f, cs) && f[PSEUDO] > 0 && Within(cs, MAX_CLEN)
    requires |b| == MAX_CLEN + 1 && forall k :: 0 <= k <= MAX_CLEN ==> b[k] == CountOf(cs, k) % 256
    ensures Narrow(Counts(cs)) ==> b == Counts(cs) && Storable(b)
    ensures !Narrow(Counts(cs)) ==> ShortFrom(b, MAX_LEN) && forall k :: 0 <= k <= MAX_CLEN && k != 1 ==> b[k] == 0
    ensures !Narrow(Counts(cs)) ==> b[1] == if CountOf(cs, 9) == 256 then 1 else 0
    ensures CountOf(cs, 8) == 256 <==> !Narrow(Counts(cs)) && b[1] == 0
    ensures CountOf(cs, 9) == 256 <==> !Narrow(Counts(cs)) && b[1] == 1
  {
    hide CountOf, Total, Spaces, AtLeast, Shares;
    CountsComplete(f, cs);
    NotBoth(cs);
    if !Narrow(Counts(cs)) {
      CrowdedTable(f, cs, b);
    }
  }

  /** A table without codes does not serve the counted symbols. */
  lemma EmptyTable(cs: seq<nat>, t: HuffTable)
    requires |cs| == SYMBOLS && t.WellTyped() && |Ranking(cs)| > 0
    requires forall k :: 0 <= k < |t.bits| ==> t.bits[k] == 0
    ensures !CodesFor(cs, t)
  {
    NoSizes(t.bits, MAX_LEN);
  }

  /** The table has no code word at all. */
  ghost predicate NoWords(t: HuffTable) {
    forall k :: 0 <= k < |t.bits| ==> t.bits[k] == 0
  }

  /** The pseudo-symbol alone does not fill the code space. */
  lemma SomeRanked(f: seq<nat>, cs: seq<nat>)
    requires OptimalLengths(f, cs) && f[PSEUDO] > 0 && Within(cs, MAX_CLEN)
    ensures |Ranking(cs)| > 0
  {
    SortedMembers(cs[..PSEUDO], MAX_CLEN);
    if forall s :: 0 <= s < PSEUDO ==> cs[s] == 0 {
      SingleTerm(Shares(f, cs, Depth(f)), PSEUDO);
      Pow2Strict(Depth(f) - cs[PSEUDO], Depth(f));
    } else {
      var s :| 0 <= s < PSEUDO && cs[s] > 0;
      assert cs[..PSEUDO][s] == cs[s];
    }
  }

  /** b is what the length limit makes of the tallied counts b0. */
  ghost predicate Limited(cs: seq<nat>, b0: seq<nat>, trace: seq<seq<nat>>, b: seq<nat>)
    requires |cs| == SYMBOLS
  {
    && |b0| == |b| == MAX_CLEN + 1 && Within(cs, MAX_CLEN)
    && (forall k :: 0 <= k <= MAX_CLEN ==> b0[k] == CountOf(cs, k) % 256)
    && ShortFrom(b, MAX_LEN) && (Storable(b0) ==> Storable(b) && Total(b) == Total(b0))
    && (ShortFrom(b0, MAX_LEN) ==> b == b0) && LimitedBy(b0, trace, b)
  }

  lemma StillNarrow(f: seq<nat>, cs: seq<nat>, b0: seq<nat>, trace: seq<seq<nat>>, b: seq<nat>)
    requires OptimalLengths(f, cs) && f[PSEUDO] > 0 && Limited(cs, b0, trace, b)
    ensures forall k :: 0 <= k <= MAX_CLEN ==> b[k] <= 255
  {
    hide CountOf, Total, AtLeast, CompleteCounts;
    TalliedCounts(f, cs, b0);
  }

  /** When the search for the largest length runs off the array, 256 words of eight bits were lost. */
  lemma RanOff(f: seq<nat>, cs: seq<nat>, b0: seq<nat>, trace: seq<seq<nat>>, b: seq<nat>)
    requires OptimalLengths(f, cs) && f[PSEUDO] > 0 && Limited(cs, b0, trace, b)
    requires forall k :: 0 <= k <= MAX_CLEN ==> b[k] == 0
    ensures CountOf(cs, 8) == 256 && CountOf(cs, 9) != 256 && !Narrow(Counts(cs))
  {
    hide CountOf, Total, OptimalLengths;
    TalliedCounts(f, cs, b0);
    if Narrow(Counts(cs)) {
      ZeroSpaces(b);
      AllZero(Spaces(b));
      assert false;
    }
  }

  /** Otherwise the table serves the counted symbols, or 256 words of nine bits were lost and it has no words. */
  lemma RanThrough(f: seq<nat>, cs: seq<nat>, b0: seq<nat>, trace: seq<seq<nat>>, b: seq<nat>, m: nat, t: HuffTable)
    requires OptimalLengths(f, cs) && f[PSEUDO] > 0 && Limited(cs, b0, trace, b)
    requires m <= MAX_LEN && b[m] > 0 && ShortFrom(b, m)
    requires t.WellTyped() && t.bits == b[m := b[m] - 1][..MAX_LEN + 1]
    requires |Ranking(cs)| <= 256 && t.huffval[..|Ranking(cs)|] == Ranking(cs)
    ensures CodesFor(cs, t) <==> Narrow(Counts(cs))
    ensures NoWords(t) <==> CountOf(cs, 9) == 256
    ensures CountOf(cs, 8) != 256
  {
    hide CountOf, Total, Ranking, Sizes, Acceptable, AtLeast, Cost, Shares;
    TalliedCounts(f, cs, b0);
    SomeRanked(f, cs);
    if NoWords(t) {
      EmptyTable(cs, t);
    }
    if Narrow(Counts(cs)) {
      TableIsGood(f, cs, trace, b, m, t);
    }
  }

  /** The last part of the routine: tally, limit, drop the pseudo-symbol, list the symbols. */
  method FinishTable(codesize: seq<nat>, huffval: array<nat>, ghost f: seq<nat>) returns (g: GenResult)
    requires OptimalLengths(f, codesize) && f[PSEUDO] > 0
    requires huffval.Length == 256 && forall q :: 0 <= q < 256 ==> huffval[q] < 256
    modifies huffval
    ensures g.LengthOverflow? <==> exists s :: 0 <= s < SYMBOLS && codesize[s] > MAX_CLEN
    ensures g.Table? ==> g.table.WellTyped()
    ensures !g.LengthOverflow? ==> (g.Table? && CodesFor(codesize, g.table) <==> Narrow(Counts(codesize)))
    ensures g.OutOfBounds? <==> !g.LengthOverflow? && CountOf(codesize, 8) == 256
    ensures g.Table? && NoWords(g.table) <==> !g.LengthOverflow? && CountOf(codesize, 9) == 256
  {
    hide CountOf, Total, Sizes, Sorted, CodesFor, Narrow, AtLeast, CompleteCounts, NoWords;
    var ok, bits := CountLengths(codesize);
    if !ok {
      return LengthOverflow;
    }
    ghost var b0 := bits[..];
    TalliedCounts(f, codesize, b0);
    ghost var trace := LimitLengths(bits);
    ghost var b := bits[..];
    assert Limited(codesize, b0, trace, b);
    StillNarrow(f, codesize, b0, trace, b);
    var m := DropPseudo(bits);
    RealTotal(codesize);
    CollectSymbols(codesize[..PSEUDO], huffval, MAX_CLEN);
    if m < 0 {
      RanOff(f, codesize, b0, trace, b);
      return OutOfBounds;
    }
    var t := HuffTable(bits[..MAX_LEN + 1], huffval[..]);
    assert t.bits == b[m := b[m] - 1][..MAX_LEN + 1];
    assert t.huffval[..|Ranking(codesize)|] == huffval[..|Ranking(codesize)|];
    RanThrough(f, codesize, b0, trace, b, m, t);
    return Table(t);
  }

  lemma ZeroSpaces(b: seq<nat>)
    requires |b| == MAX_CLEN + 1 && forall k :: 0 <= k < |b| ==> b[k] == 0
    ensures forall k :: 0 <= k < |b| ==> Spaces(b)[k] == 0
  {
    forall k | 0 <= k < |b| ensures Spaces(b)[k] == 0 {
      ShlZero(MAX_CLEN - k);
    }
  }

  /**
   The routine over all counts with a total within the search limit and at least one real count. It reports a length
   over 32 exactly when there is one, which takes a total of LONG_TOTAL; it runs off the low end of bits[] exactly for
   level counts, and leaves a table without code words exactly for counts with a tower. In all other cases its table
   serves every counted symbol.
   */
  method GenOptimalTable(freq: array<nat>, huffval: array<nat>) returns (g: GenResult, ghost cs: seq<nat>, ghost pairs: seq<Pair>)
    requires freq.Length == SYMBOLS && huffval.Length == 256 && freq != huffval
    requires forall q :: 0 <= q < 256 ==> huffval[q] < 256
    requires Total(freq[..][PSEUDO := 1]) <= 1_000_000_000
    requires exists s :: 0 <= s < PSEUDO && freq[..][s] > 0
    modifies freq, huffval
    ensures BuiltBy(old(freq[..])[PSEUDO := 1], cs, pairs)
    ensures OptimalLengths(old(freq[..])[PSEUDO := 1], cs)
    ensures g.LengthOverflow? <==> exists s :: 0 <= s < SYMBOLS && cs[s] > 32
    ensures g.LengthOverflow? ==> Total(old(freq[..])[PSEUDO := 1]) >= LONG_TOTAL
    ensures g.OutOfBounds? <==> Level(old(freq[..])[PSEUDO := 1])
    ensures g.Table? ==> g.table.WellTyped()
    ensures g.Table? && NoWords(g.table) <==> Tower(old(freq[..])[PSEUDO := 1])
    ensures !g.LengthOverflow? ==> (g.Table? && CodesFor(cs, g.table) <==> Narrow(Counts(cs)))
    ensures !g.LengthOverflow? ==>
      (g.Table? && CodesFor(cs, g.table) <==> !Level(old(freq[..])[PSEUDO := 1]) && !Tower(old(freq[..])[PSEUDO := 1]))
  {
    hide Total, Grown, AtLeast, CodesFor, Level, Tower, CountOf, FoundFirst;
    ghost var f := freq[..][PSEUDO := 1];
    assert exists s :: 0 <= s < PSEUDO && f[s] > 0 by {
      var s :| 0 <= s < PSEUDO && freq[..][s] > 0;
      assert f[s] > 0;
    }
    var codesize;
    codesize, pairs := BuildLengths(freq);
    cs := codesize[..];
    g := FinishTable(codesize[..], huffval, f);
    CrowdedIff(f, cs, pairs);
    if g.LengthOverflow? {
      ghost var s :| 0 <= s < SYMBOLS && cs[s] > MAX_CLEN;
      LongOnlyFrom(f, cs, pairs, s);
    }
  }

  lemma OnesTotal(f: seq<nat>, x: nat)
    requires |f| == SYMBOLS && x < SYMBOLS && forall s :: 0 <= s < SYMBOLS && s != x ==> f[s] == 1
    ensures Total(f) <= SYMBOLS + f[x]
  {
    assert f[x := 1] == Live(f[x := 1]);
    LiveBounds(f[x := 1]);
    TotalUpdate(f, x, 1);
  }

  /** One real symbol never counted and the others once each: the routine runs off the low end of bits[]. */
  method LevelRunsOff(x: nat) returns (g: GenResult)
    requires x < PSEUDO
    ensures g.OutOfBounds?
  {
    var freq := new nat[SYMBOLS](s => if s == x then 0 else 1);
    var huffval := new nat[256](_ => 0);
    ghost var f := freq[..][PSEUDO := 1];
    OnesTotal(f, x);
    assert freq[..][if x == 0 then 1 else 0] == 1;
    assert Even(f, x, 1);
    ghost var cs, pairs;
    g, cs, pairs := GenOptimalTable(freq, huffval);
  }

  /** The first symbol counted 128 times and the others once each: the table has no code words. */
  method TowerLosesAll() returns (g: GenResult)
    ensures g.Table? && NoWords(g.table)
  {
    var freq := new nat[SYMBOLS](s => if s == 0 then 128 else 1);
    var huffval := new nat[256](_ => 0);
    ghost var f := freq[..][PSEUDO := 1];
    OnesTotal(f, 0);
    assert freq[..][1] == 1;
    assert Even(f, 0, 1) && Towers(f, 0, 1);
    ghost var cs, pairs;
    g, cs, pairs := GenOptimalTable(freq, huffval);
  }

  lemma {:induction false} NoSizes(bits: seq<nat>, l: nat)
    requires l < |bits| && forall k :: 0 <= k < |bits| ==> bits[k] == 0
    ensures Sizes(bits, l) == []
  {
    if l > 0 {
      NoSizes(bits, l - 1);
    }
  }
}
