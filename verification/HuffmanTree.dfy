/** The merge loop of jpeg_gen_optimal_table: code lengths from symbol counts (T.81 section K.2). */
module HuffmanTree {
  import opened BitStrings
  import opened HuffmanOptimality

  const SYMBOLS := 257
  /** The pseudo-symbol that keeps the all-ones code word unused. */
  const PSEUDO := 256
  /** Frequencies above this are invisible to the search for the least one. */
  const MAX_FREQ := 1_000_000_000
  /** No code word is longer than the number of merges. */
  ghost function Depth(f: seq<nat>): nat {
    if f == [] then 0 else |f| - 1
  }

  // ----- The forest of partly built trees -----

  /** The counts of the symbols in the tree of root i. */
  ghost function Mask(f0: seq<nat>, root: seq<nat>, i: nat): (v: seq<nat>)
    requires |root| == |f0|
    ensures |v| == |f0| && forall s :: 0 <= s < |v| ==> v[s] == if root[s] == i then f0[s] else 0
  {
    seq(|f0|, s requires 0 <= s < |f0| => if root[s] == i then f0[s] else 0)
  }

  ghost function Live(f: seq<nat>): (v: seq<int>)
    ensures |v| == |f| && forall i :: 0 <= i < |v| ==> v[i] == if f[i] > 0 then 1 else 0
  {
    seq(|f|, i requires 0 <= i < |f| => if f[i] > 0 then 1 else 0)
  }

  /** Every counted symbol hangs below a live root, and live roots hang below themselves. */
  ghost predicate Rooted(f0: seq<nat>, f: seq<nat>, root: seq<nat>) {
    && |f0| == |f| == |root| == SYMBOLS
    && (forall s :: 0 <= s < SYMBOLS ==> root[s] < SYMBOLS && (f0[s] > 0 ==> f[root[s]] > 0))
    && (forall i :: 0 <= i < SYMBOLS && f[i] > 0 ==> root[i] == i && f0[i] > 0)
  }

  /** A code word has at most one bit for each merge so far; uncounted symbols have none. */
  ghost predicate Shallow(f0: seq<nat>, f: seq<nat>, cs: seq<nat>) {
    && |f0| == |f| == |cs| == SYMBOLS
    && Total(Live(f)) >= 1
    && (forall s :: 0 <= s < SYMBOLS ==> cs[s] <= SYMBOLS - Total(Live(f)) && (f0[s] == 0 ==> cs[s] == 0))
  }

  ghost predicate Shaped(f0: seq<nat>, f: seq<nat>, cs: seq<nat>, root: seq<nat>) {
    Rooted(f0, f, root) && Shallow(f0, f, cs)
  }

  /** Every live root carries the summed counts of its tree. */
  ghost predicate Weighted(f0: seq<nat>, f: seq<nat>, root: seq<nat>) {
    && |f0| == |f| == |root| == SYMBOLS
    && forall i :: 0 <= i < SYMBOLS ==> f[i] == Total(Mask(f0, root, i))
  }

  /** Every live tree is a complete code: its Kraft sum is exactly 1. */
  ghost predicate Complete(f0: seq<nat>, f: seq<nat>, cs: seq<nat>, root: seq<nat>) {
    && |f0| == |f| == |cs| == |root| == SYMBOLS
    && (forall s :: 0 <= s < SYMBOLS ==> cs[s] <= Depth(f0))
    && (forall i :: 0 <= i < SYMBOLS && f[i] > 0 ==> Total(Shares(Mask(f0, root, i), cs, Depth(f0))) == Pow2(Depth(f0)))
  }

  ghost predicate Forest(f0: seq<nat>, f: seq<nat>, cs: seq<nat>, root: seq<nat>) {
    Shaped(f0, f, cs, root) && Weighted(f0, f, root) && Complete(f0, f, cs, root)
  }

  /** The lengths after one more bit is put before every code word in the trees of c1 and c2. */
  ghost predicate Deepened(f0: seq<nat>, cs: seq<nat>, root: seq<nat>, c1: nat, c2: nat, cs': seq<nat>) {
    && |f0| == |cs| == |root| == |cs'|
    && forall s :: 0 <= s < |cs| ==> cs'[s] == if f0[s] > 0 && (root[s] == c1 || root[s] == c2) then cs[s] + 1 else cs[s]
  }

  ghost function Rerooted(root: seq<nat>, c1: nat, c2: nat): (r: seq<nat>)
    ensures |r| == |root| && forall s :: 0 <= s < |r| ==> r[s] == if root[s] == c2 then c1 else root[s]
  {
    seq(|root|, s requires 0 <= s < |root| => if root[s] == c2 then c1 else root[s])
  }

  // ----- One merge keeps the forest -----

  lemma LiveStep(f: seq<nat>, c1: nat, c2: nat)
    requires c1 < |f| && c2 < |f| && c1 != c2 && f[c1] > 0 && f[c2] > 0
    ensures Total(Live(Merge(f, c1, c2))) == Total(Live(f)) - 1
    ensures Total(Live(f)) >= 2
  {
    var v := Live(f);
    assert Live(Merge(f, c1, c2)) == v[c2 := 0];
    TotalUpdate(v, c2, 0);
    TotalNonNegative(v[c2 := 0]);
    assert v[c2 := 0][c1] == 1;
  }

  lemma RootedStep(f0: seq<nat>, f: seq<nat>, root: seq<nat>, c1: nat, c2: nat)
    requires Rooted(f0, f, root)
    requires c1 < SYMBOLS && c2 < SYMBOLS && c1 != c2 && f[c1] > 0 && f[c2] > 0
    ensures Rooted(f0, Merge(f, c1, c2), Rerooted(root, c1, c2))
  {
  }

  lemma ShallowStep(f0: seq<nat>, f: seq<nat>, cs: seq<nat>, root: seq<nat>, c1: nat, c2: nat, cs': seq<nat>)
    requires Shallow(f0, f, cs)
    requires c1 < SYMBOLS && c2 < SYMBOLS && c1 != c2 && f[c1] > 0 && f[c2] > 0
    requires Deepened(f0, cs, root, c1, c2, cs')
    ensures Shallow(f0, Merge(f, c1, c2), cs')
  {
    LiveStep(f, c1, c2);
  }

  lemma WeightedStep(f0: seq<nat>, f: seq<nat>, root: seq<nat>, c1: nat, c2: nat)
    requires Weighted(f0, f, root) && c1 < SYMBOLS && c2 < SYMBOLS && c1 != c2
    ensures Weighted(f0, Merge(f, c1, c2), Rerooted(root, c1, c2))
  {
    forall i | 0 <= i < SYMBOLS ensures Merge(f, c1, c2)[i] == Total(Mask(f0, Rerooted(root, c1, c2), i)) {
      var v := Mask(f0, Rerooted(root, c1, c2), i);
      if i == c1 {
        TotalAdd(Mask(f0, root, c1), Mask(f0, root, c2), v);
      } else if i == c2 {
        AllZero(v);
      } else {
        assert v == Mask(f0, root, i);
      }
    }
  }

  /** One more bit before every word of a tree halves its Kraft sum. */
  lemma {:induction false} HalvedShares(g: seq<nat>, cs: seq<nat>, cs': seq<nat>, m: nat)
    requires |g| == |cs| == |cs'|
    requires forall s :: 0 <= s < |g| ==> cs[s] <= m && cs'[s] <= m
    requires forall s :: 0 <= s < |g| && g[s] > 0 ==> cs'[s] == cs[s] + 1
    ensures 2 * Total(Shares(g, cs', m)) == Total(Shares(g, cs, m))
  {
    var v, w := Shares(g, cs', m), Shares(g, cs, m);
    TotalAdd(v, v, w);
  }

  lemma KraftStep(f0: seq<nat>, f: seq<nat>, cs: seq<nat>, root: seq<nat>, c1: nat, c2: nat, cs': seq<nat>)
    requires Complete(f0, f, cs, root)
    requires c1 < SYMBOLS && c2 < SYMBOLS && c1 != c2 && f[c1] > 0 && f[c2] > 0
    requires Deepened(f0, cs, root, c1, c2, cs') && forall s :: 0 <= s < SYMBOLS ==> cs'[s] <= Depth(f0)
    ensures Total(Shares(Mask(f0, Rerooted(root, c1, c2), c1), cs', Depth(f0))) == Pow2(Depth(f0))
  {
    var g1, g2 := Mask(f0, root, c1), Mask(f0, root, c2);
    HalvedShares(g1, cs, cs', Depth(f0));
    HalvedShares(g2, cs, cs', Depth(f0));
    TotalAdd(Shares(g1, cs', Depth(f0)), Shares(g2, cs', Depth(f0)),
             Shares(Mask(f0, Rerooted(root, c1, c2), c1), cs', Depth(f0)));
  }

  lemma OtherTree(f0: seq<nat>, cs: seq<nat>, root: seq<nat>, c1: nat, c2: nat, cs': seq<nat>, i: nat)
    requires Deepened(f0, cs, root, c1, c2, cs') && i != c1 && i != c2
    requires forall s :: 0 <= s < |cs| ==> cs[s] <= Depth(f0) && cs'[s] <= Depth(f0)
    ensures Shares(Mask(f0, Rerooted(root, c1, c2), i), cs', Depth(f0)) == Shares(Mask(f0, root, i), cs, Depth(f0))
  {
  }

  lemma CompleteStep(f0: seq<nat>, f: seq<nat>, cs: seq<nat>, root: seq<nat>, c1: nat, c2: nat, cs': seq<nat>)
    requires Complete(f0, f, cs, root)
    requires c1 < SYMBOLS && c2 < SYMBOLS && c1 != c2 && f[c1] > 0 && f[c2] > 0
    requires Deepened(f0, cs, root, c1, c2, cs') && forall s :: 0 <= s < SYMBOLS ==> cs'[s] <= Depth(f0)
    ensures Complete(f0, Merge(f, c1, c2), cs', Rerooted(root, c1, c2))
  {
    var f', root' := Merge(f, c1, c2), Rerooted(root, c1, c2);
    forall i | 0 <= i < SYMBOLS && f'[i] > 0
      ensures Total(Shares(Mask(f0, root', i), cs', Depth(f0))) == Pow2(Depth(f0))
    {
      if i == c1 {
        KraftStep(f0, f, cs, root, c1, c2, cs');
      } else {
        OtherTree(f0, cs, root, c1, c2, cs', i);
      }
    }
  }

  lemma ForestStep(f0: seq<nat>, f: seq<nat>, cs: seq<nat>, root: seq<nat>, c1: nat, c2: nat, cs': seq<nat>)
    requires Forest(f0, f, cs, root)
    requires c1 < SYMBOLS && c2 < SYMBOLS && c1 != c2 && f[c1] > 0 && f[c2] > 0
    requires Deepened(f0, cs, root, c1, c2, cs')
    ensures Forest(f0, Merge(f, c1, c2), cs', Rerooted(root, c1, c2))
  {
    RootedStep(f0, f, root, c1, c2);
    ShallowStep(f0, f, cs, root, c1, c2, cs');
    WeightedStep(f0, f, root, c1, c2);
    CompleteStep(f0, f, cs, root, c1, c2, cs');
  }

  /** A merge costs one bit for each counted use of a symbol below it. */
  lemma CostStep(f0: seq<nat>, f: seq<nat>, cs: seq<nat>, root: seq<nat>, c1: nat, c2: nat, cs': seq<nat>)
    requires Weighted(f0, f, root) && c1 < SYMBOLS && c2 < SYMBOLS && c1 != c2
    requires Deepened(f0, cs, root, c1, c2, cs')
    ensures Cost(f0, cs') == Cost(f0, cs) + f[c1] + f[c2]
  {
    var g := Mask(f0, Rerooted(root, c1, c2), c1);
    TotalAdd(Mask(f0, root, c1), Mask(f0, root, c2), g);
    CostPointwise(f0, cs, root, c1, c2, cs');
    TotalAdd(Costs(f0, cs), g, Costs(f0, cs'));
  }

  lemma CostPointwise(f0: seq<nat>, cs: seq<nat>, root: seq<nat>, c1: nat, c2: nat, cs': seq<nat>)
    requires Deepened(f0, cs, root, c1, c2, cs')
    ensures forall s :: 0 <= s < |f0| ==> Costs(f0, cs')[s] == Costs(f0, cs)[s] + Mask(f0, Rerooted(root, c1, c2), c1)[s]
  {
    forall s | 0 <= s < |f0|
      ensures Costs(f0, cs')[s] == Costs(f0, cs)[s] + Mask(f0, Rerooted(root, c1, c2), c1)[s]
    {
      OneBitMore(f0[s], cs[s]);
    }
  }

  lemma OneBitMore(x: nat, y: nat)
    ensures x * (y + 1) == x * y + x
  {
  }

  // ----- Optimality of a whole run of merges -----

  /** One merge: second's tree is joined to first's. */
  datatype Pair = Pair(first: nat, second: nat)

  /** The frequencies after merging the given pairs in turn. */
  ghost function After(f0: seq<nat>, pairs: seq<Pair>): (f: seq<nat>)
    ensures |f| == |f0|
  {
    if pairs == [] then f0
    else
      var f, p := After(f0, pairs[..|pairs| - 1]), pairs[|pairs| - 1];
      if p.first < |f0| && p.second < |f0| then Merge(f, p.first, p.second) else f
  }

  /** Each pair was a least pair when it was merged. */
  ghost predicate LeastFirst(f0: seq<nat>, pairs: seq<Pair>) {
    pairs != [] ==>
      var earlier, p := pairs[..|pairs| - 1], pairs[|pairs| - 1];
      LeastFirst(f0, earlier) && LeastPair(After(f0, earlier), p.first, p.second)
  }

  ghost function MergedWeight(f0: seq<nat>, pairs: seq<Pair>): int
    requires LeastFirst(f0, pairs)
  {
    if pairs == [] then 0
    else
      var earlier, p := pairs[..|pairs| - 1], pairs[|pairs| - 1];
      MergedWeight(f0, earlier) + After(f0, earlier)[p.first] + After(f0, earlier)[p.second]
  }

  /** A lower bound after a run of merges gives one for the counts the run started from. */
  lemma {:induction false} RunLowerBound(f0: seq<nat>, pairs: seq<Pair>, c: int)
    requires LeastFirst(f0, pairs) && AtLeast(After(f0, pairs), c)
    ensures AtLeast(f0, MergedWeight(f0, pairs) + c)
  {
    if pairs != [] {
      var earlier, p := pairs[..|pairs| - 1], pairs[|pairs| - 1];
      var f := After(f0, earlier);
      MergeLowerBound(f, p.first, p.second, c);
      RunLowerBound(f0, earlier, c + f[p.first] + f[p.second]);
    }
  }

  lemma RunStep(f0: seq<nat>, pairs: seq<Pair>, c1: nat, c2: nat)
    requires LeastFirst(f0, pairs) && LeastPair(After(f0, pairs), c1, c2)
    ensures LeastFirst(f0, pairs + [Pair(c1, c2)])
    ensures After(f0, pairs + [Pair(c1, c2)]) == Merge(After(f0, pairs), c1, c2)
    ensures MergedWeight(f0, pairs + [Pair(c1, c2)]) == MergedWeight(f0, pairs) + After(f0, pairs)[c1] + After(f0, pairs)[c2]
  {
    assert (pairs + [Pair(c1, c2)])[..|pairs|] == pairs;
  }

  // ----- The pseudo-symbol stays deepest -----

  /** The order in which the search prefers frequencies: smaller first, larger symbol number on ties. */
  ghost predicate Precedes(f: seq<nat>, a: nat, b: nat)
    requires a < |f| && b < |f|
  {
    f[a] < f[b] || (f[a] == f[b] && a > b)
  }

  ghost predicate ChosenPair(f: seq<nat>, c1: nat, c2: nat) {
    && c1 < |f| && c2 < |f| && c1 != c2 && f[c1] > 0 && f[c2] > 0
    && (forall i :: 0 <= i < |f| && f[i] > 0 && i != c1 ==> Precedes(f, c1, i))
    && (forall i :: 0 <= i < |f| && f[i] > 0 && i != c1 && i != c2 ==> Precedes(f, c2, i))
  }

  /** No tree is deeper than the pseudo-symbol, and one equally deep is merged only after its tree. */
  ghost predicate PseudoDeepest(f0: seq<nat>, f: seq<nat>, cs: seq<nat>, root: seq<nat>) {
    && |f0| == |f| == |cs| == |root| == SYMBOLS
    && (forall s :: 0 <= s < SYMBOLS ==> root[s] < SYMBOLS)
    && f0[PSEUDO] > 0
    && (forall s :: 0 <= s < SYMBOLS && f0[s] > 0 ==> cs[s] <= cs[PSEUDO])
    && (forall s :: 0 <= s < SYMBOLS && f0[s] > 0 && root[s] != root[PSEUDO] && cs[s] == cs[PSEUDO] ==>
          Precedes(f, root[PSEUDO], root[s]))
  }

  /** The tree t weighs at most twice wb, a weight every other tree reaches; a tie is broken in favour of t. */
  ghost predicate Light(f: seq<nat>, t: nat, wb: nat) {
    && t < |f| && wb >= 1 && f[t] <= 2 * wb
    && forall i :: 0 <= i < |f| && f[i] > 0 && i != t ==> f[i] >= wb && (f[t] == 2 * wb && f[i] == wb ==> i < t)
  }

  /** The pseudo-symbol's tree, seen from the merge loop. */
  ghost predicate PseudoLast(f0: seq<nat>, f: seq<nat>, cs: seq<nat>, root: seq<nat>, wb: nat) {
    PseudoDeepest(f0, f, cs, root) && Light(f, root[PSEUDO], wb)
  }

  lemma LightStep(f: seq<nat>, t: nat, wb: nat, c1: nat, c2: nat) returns (wb': nat)
    requires Light(f, t, wb) && ChosenPair(f, c1, c2) && f[t] > 0
    ensures Light(Merge(f, c1, c2), if t == c2 then c1 else t, wb')
    ensures t != c1 && t != c2 ==> Precedes(Merge(f, c1, c2), t, c1)
  {
    wb' := if t == c1 || t == c2 then f[c2] else wb;
  }

  lemma DeepestStep(f0: seq<nat>, f: seq<nat>, cs: seq<nat>, root: seq<nat>, c1: nat, c2: nat, cs': seq<nat>)
    requires Rooted(f0, f, root) && ChosenPair(f, c1, c2)
    requires Deepened(f0, cs, root, c1, c2, cs') && PseudoDeepest(f0, f, cs, root)
    requires var t := root[PSEUDO]; t != c1 && t != c2 ==> Precedes(Merge(f, c1, c2), t, c1)
    ensures PseudoDeepest(f0, Merge(f, c1, c2), cs', Rerooted(root, c1, c2))
  {
    var t := root[PSEUDO];
    var f', root' := Merge(f, c1, c2), Rerooted(root, c1, c2);
    forall s | 0 <= s < SYMBOLS && f0[s] > 0
      ensures cs'[s] <= cs'[PSEUDO]
      ensures root'[s] != root'[PSEUDO] && cs'[s] == cs'[PSEUDO] ==> Precedes(f', root'[PSEUDO], root'[s])
    {
      if t != c1 && t != c2 && (root[s] == c1 || root[s] == c2) {
        assert Precedes(f, c1, t) && Precedes(f, c2, t);
        assert cs[s] < cs[PSEUDO];
      }
    }
  }

  // ----- The chains of the others[] links -----

  ghost predicate Linked(others: seq<int>, ch: seq<nat>) {
    && (forall k :: 0 <= k < |ch| ==> ch[k] < |others|)
    && (forall k :: 0 <= k < |ch| - 1 ==> others[ch[k]] == ch[k + 1])
    && (|ch| > 0 ==> others[ch[|ch| - 1]] == -1)
  }

  ghost predicate Distinct(ch: seq<nat>) {
    forall j, k :: 0 <= j < k < |ch| ==> ch[j] != ch[k]
  }

  ghost predicate Disjoint(a: seq<nat>, b: seq<nat>) {
    forall j, k :: 0 <= j < |a| && 0 <= k < |b| ==> a[j] != b[k]
  }

  ghost predicate AllLinked(others: seq<int>, chain: seq<seq<nat>>) {
    && |others| == |chain| == SYMBOLS
    && forall i :: 0 <= i < SYMBOLS ==> Linked(others, chain[i]) && Distinct(chain[i])
  }

  ghost predicate InTree(f0: seq<nat>, root: seq<nat>, ch: seq<nat>, i: nat)
    requires |f0| == |root|
  {
    forall k :: 0 <= k < |ch| ==> ch[k] < |f0| && f0[ch[k]] > 0 && root[ch[k]] == i
  }

  /** The chain of i holds exactly the counted symbols below root i. */
  ghost predicate Covers(f0: seq<nat>, root: seq<nat>, chain: seq<seq<nat>>) {
    && |f0| == |root| == |chain| == SYMBOLS
    && (forall s :: 0 <= s < SYMBOLS ==> root[s] < SYMBOLS)
    && (forall i :: 0 <= i < SYMBOLS ==> InTree(f0, root, chain[i], i))
    && (forall s :: 0 <= s < SYMBOLS && f0[s] > 0 ==> s in chain[root[s]])
  }

  ghost predicate Headed(f: seq<nat>, chain: seq<seq<nat>>) {
    && |f| == |chain| == SYMBOLS
    && forall i :: 0 <= i < SYMBOLS && f[i] > 0 ==> |chain[i]| > 0 && chain[i][0] == i
  }

  /** Each live root heads a chain that runs through exactly the symbols of its tree. */
  ghost predicate Chained(f0: seq<nat>, f: seq<nat>, root: seq<nat>, others: seq<int>, chain: seq<seq<nat>>) {
    AllLinked(others, chain) && Covers(f0, root, chain) && Headed(f, chain)
  }

  ghost function Joined(chain: seq<seq<nat>>, c1: nat, c2: nat): seq<seq<nat>>
    requires c1 < |chain| && c2 < |chain|
  {
    chain[c1 := chain[c1] + chain[c2]][c2 := []]
  }

  lemma NextOnChain(others: seq<int>, ch: seq<nat>, k: nat)
    requires Linked(others, ch) && k < |ch|
    ensures others[ch[k]] >= 0 <==> k < |ch| - 1
  {
    assert k < |ch| - 1 ==> others[ch[k]] == ch[k + 1];
  }

  lemma JoinedLinks(others: seq<int>, a: seq<nat>, b: seq<nat>)
    requires Linked(others, a) && Linked(others, b) && |a| > 0 && |b| > 0
    requires Distinct(a) && Distinct(b) && Disjoint(a, b)
    ensures Linked(others[a[|a| - 1] := b[0]], a + b) && Distinct(a + b)
  {
  }

  lemma UntouchedLinks(others: seq<int>, ch: seq<nat>, i: nat, x: int)
    requires Linked(others, ch) && i < |others| && i !in ch
    ensures Linked(others[i := x], ch)
  {
  }

  lemma CoversStep(f0: seq<nat>, root: seq<nat>, chain: seq<seq<nat>>, c1: nat, c2: nat)
    requires Covers(f0, root, chain) && c1 < SYMBOLS && c2 < SYMBOLS && c1 != c2
    ensures Covers(f0, Rerooted(root, c1, c2), Joined(chain, c1, c2))
  {
    var chain', root' := Joined(chain, c1, c2), Rerooted(root, c1, c2);
    forall i | 0 <= i < SYMBOLS ensures InTree(f0, root', chain'[i], i) {
      assert InTree(f0, root, chain[i], i) && InTree(f0, root, chain[c2], c2);
    }
    forall s | 0 <= s < SYMBOLS && f0[s] > 0 ensures s in chain'[root'[s]] {
      assert s in chain[c1] + chain[c2] <==> s in chain[c1] || s in chain[c2];
    }
  }

  lemma DisjointChains(f0: seq<nat>, root: seq<nat>, a: seq<nat>, b: seq<nat>, i: nat, j: nat)
    requires |f0| == |root| && InTree(f0, root, a, i) && InTree(f0, root, b, j) && i != j
    ensures Disjoint(a, b)
  {
  }

  lemma LinksStep(others: seq<int>, chain: seq<seq<nat>>, c1: nat, c2: nat)
    requires AllLinked(others, chain) && c1 < SYMBOLS && c2 < SYMBOLS && c1 != c2
    requires |chain[c1]| > 0 && |chain[c2]| > 0 && chain[c2][0] == c2
    requires forall i :: 0 <= i < SYMBOLS && i != c1 ==> Disjoint(chain[c1], chain[i])
    ensures AllLinked(others[chain[c1][|chain[c1]| - 1] := c2], Joined(chain, c1, c2))
  {
    var last := chain[c1][|chain[c1]| - 1];
    JoinedLinks(others, chain[c1], chain[c2]);
    forall i | 0 <= i < SYMBOLS
      ensures Linked(others[last := c2], Joined(chain, c1, c2)[i]) && Distinct(Joined(chain, c1, c2)[i])
    {
      if i != c1 && i != c2 {
        assert Disjoint(chain[c1], chain[i]);
        UntouchedLinks(others, chain[i], last, c2);
      }
    }
  }

  lemma HeadedStep(f: seq<nat>, chain: seq<seq<nat>>, c1: nat, c2: nat)
    requires Headed(f, chain) && c1 < SYMBOLS && c2 < SYMBOLS && c1 != c2 && f[c1] > 0 && f[c2] > 0
    ensures Headed(Merge(f, c1, c2), Joined(chain, c1, c2))
    ensures |chain[c1]| > 0 && |chain[c2]| > 0 && chain[c2][0] == c2
  {
  }

  lemma ChainedStep(f0: seq<nat>, f: seq<nat>, root: seq<nat>, others: seq<int>, chain: seq<seq<nat>>, c1: nat, c2: nat)
    requires Chained(f0, f, root, others, chain)
    requires c1 < SYMBOLS && c2 < SYMBOLS && c1 != c2 && f[c1] > 0 && f[c2] > 0
    ensures |chain[c1]| > 0
    ensures Chained(f0, Merge(f, c1, c2), Rerooted(root, c1, c2), others[chain[c1][|chain[c1]| - 1] := c2], Joined(chain, c1, c2))
  {
    HeadedStep(f, chain, c1, c2);
    CoversStep(f0, root, chain, c1, c2);
    AllDisjoint(f0, root, chain, c1);
    LinksStep(others, chain, c1, c2);
  }

  lemma AllDisjoint(f0: seq<nat>, root: seq<nat>, chain: seq<seq<nat>>, c1: nat)
    requires Covers(f0, root, chain) && c1 < SYMBOLS
    ensures forall i :: 0 <= i < SYMBOLS && i != c1 ==> Disjoint(chain[c1], chain[i])
  {
    forall i | 0 <= i < SYMBOLS && i != c1 ensures Disjoint(chain[c1], chain[i]) {
      assert InTree(f0, root, chain[c1], c1) && InTree(f0, root, chain[i], i);
      DisjointChains(f0, root, chain[c1], chain[i], c1, i);
    }
  }

  lemma ChainsEntry(f: seq<nat>, root: seq<nat>, others: seq<int>, chain: seq<seq<nat>>)
    requires |f| == |root| == |others| == |chain| == SYMBOLS
    requires forall i :: 0 <= i < SYMBOLS ==> root[i] == i && others[i] == -1 && chain[i] == if f[i] > 0 then [i] else []
    ensures Chained(f, f, root, others, chain)
  {
  }

  // ----- The code -----

  /** The search for a least frequency; the symbol skip is passed over. */
  method FindLeast(freq: array<nat>, skip: int) returns (c: int)
    requires freq.Length == SYMBOLS
    ensures -1 <= c < SYMBOLS
    ensures c == -1 <==> forall i :: 0 <= i < SYMBOLS && i != skip ==> freq[i] == 0 || freq[i] > MAX_FREQ
    ensures c >= 0 ==> c != skip && 0 < freq[c] <= MAX_FREQ
    ensures c >= 0 ==> forall i :: 0 <= i < SYMBOLS && freq[i] > 0 && i != skip && i != c ==> Precedes(freq[..], c, i)
  {
    c := -1;
    var v := MAX_FREQ;
    var i := 0;
    while i < SYMBOLS
      invariant 0 <= i <= SYMBOLS
      invariant -1 <= c < i
      invariant v == if c >= 0 then freq[c] else MAX_FREQ
      invariant c == -1 <==> forall k :: 0 <= k < i && k != skip ==> freq[k] == 0 || freq[k] > MAX_FREQ
      invariant c >= 0 ==> c != skip && 0 < freq[c] <= MAX_FREQ
      invariant c >= 0 ==> forall k :: 0 <= k < i && freq[k] > 0 && k != skip && k != c ==> freq[c] < freq[k] || (freq[c] == freq[k] && c > k)
    {
      if freq[i] != 0 && freq[i] <= v && i != skip {
        v := freq[i];
        c := i;
      }
      i := i + 1;
    }
  }

  /** The two least frequencies, c2 == -1 when there are no two within the search limit. */
  method FindPair(freq: array<nat>) returns (c1: int, c2: int)
    requires freq.Length == SYMBOLS
    ensures c2 >= 0 ==> c1 >= 0 && ChosenPair(freq[..], c1, c2) && freq[c1] <= MAX_FREQ && freq[c2] <= MAX_FREQ
    ensures c2 < 0 ==> forall i :: 0 <= i < SYMBOLS && i != c1 ==> freq[..][i] == 0 || freq[..][i] > MAX_FREQ
  {
    c1 := FindLeast(freq, -1);
    c2 := FindLeast(freq, c1);
  }

  /** Increment the code size of everything on the chain from c; returns the end of the chain. */
  method Deepen(codesize: array<nat>, others: array<int>, c: nat, ghost ch: seq<nat>) returns (last: nat)
    requires codesize.Length == SYMBOLS && others.Length == SYMBOLS && others as object != codesize
    requires Linked(others[..], ch) && Distinct(ch) && |ch| > 0 && ch[0] == c
    modifies codesize
    ensures last == ch[|ch| - 1]
    ensures forall s :: 0 <= s < SYMBOLS ==> codesize[s] == if s in ch then old(codesize[s]) + 1 else old(codesize[s])
  {
    last := c;
    ghost var k := 0;
    ghost var links := others[..];
    assert c in ch;
    codesize[last] := codesize[last] + 1;
    while others[last] >= 0
      invariant 0 <= k < |ch| && last == ch[k]
      invariant forall s :: 0 <= s < SYMBOLS ==> codesize[s] == if s in ch[..k + 1] then old(codesize[s]) + 1 else old(codesize[s])
      decreases |ch| - k
    {
      assert links[ch[k]] == others[last];
      last := others[last];
      k := k + 1;
      assert ch[..k + 1] == ch[..k] + [ch[k]];
      codesize[last] := codesize[last] + 1;
    }
    assert links[ch[k]] == others[last];
    NextOnChain(links, ch, k);
    assert ch[..k + 1] == ch;
  }

  /** The lengths cs are what Huffman's procedure promises for the counts f. */
  ghost predicate OptimalLengths(f: seq<nat>, cs: seq<nat>) {
    && |f| == |cs| == SYMBOLS
    && (forall s :: 0 <= s < SYMBOLS ==> cs[s] <= Depth(f))
    && (forall s :: 0 <= s < SYMBOLS ==> (cs[s] > 0 <==> f[s] > 0))
    && Total(Shares(f, cs, Depth(f))) == Pow2(Depth(f))
    && (forall s :: 0 <= s < SYMBOLS ==> cs[s] <= cs[PSEUDO])
    && AtLeast(f, Cost(f, cs))
  }

  /** Optimal lengths are the word lengths of a prefix code, and no prefix code costs less. */
  lemma LeastCode(f: seq<nat>, cs: seq<nat>) returns (w: seq<seq<bool>>)
    requires OptimalLengths(f, cs) && f[PSEUDO] > 0
    ensures PrefixCode(f, w) && WordLengths(w) == cs
    ensures forall v :: PrefixCode(f, v) ==> Cost(f, WordLengths(v)) >= Cost(f, WordLengths(w))
  {
    hide Total, Shares, Cost, Costs;
    w := KraftConverse(f, cs, Depth(f));
    forall v | PrefixCode(f, v) ensures Cost(f, WordLengths(v)) >= Cost(f, cs) {
      PrefixCodeCost(f, v, Cost(f, cs));
    }
  }

  lemma {:induction false} SelfMask(f: seq<nat>, root: seq<nat>, i: nat)
    requires |root| == |f| && i < |f| && forall s :: 0 <= s < |f| ==> root[s] == s
    ensures Total(Mask(f, root, i)) == f[i]
  {
    SingleTerm(Mask(f, root, i), i);
  }

  lemma {:induction false} LiveBounds(f: seq<nat>)
    ensures 0 <= Total(Live(f)) <= |f|
  {
    if f != [] {
      LiveBounds(f[..|f| - 1]);
      assert Live(f)[..|f| - 1] == Live(f[..|f| - 1]);
    }
  }

  lemma InitialShape(f: seq<nat>, cs: seq<nat>, root: seq<nat>)
    requires |f| == |cs| == |root| == SYMBOLS && f[PSEUDO] == 1
    requires forall s :: 0 <= s < SYMBOLS ==> root[s] == s && cs[s] == 0
    ensures Shaped(f, f, cs, root) && PseudoLast(f, f, cs, root, 1)
  {
    LiveBounds(f);
    TotalNonNegative(Live(f));
    assert Live(f)[PSEUDO] == 1;
  }

  lemma InitialTrees(f: seq<nat>, cs: seq<nat>, root: seq<nat>)
    requires |f| == |cs| == |root| == SYMBOLS
    requires forall s :: 0 <= s < SYMBOLS ==> root[s] == s && cs[s] == 0
    ensures Weighted(f, f, root) && Complete(f, f, cs, root)
  {
    forall i | 0 <= i < SYMBOLS ensures f[i] == Total(Mask(f, root, i)) {
      SelfMask(f, root, i);
    }
    forall i | 0 <= i < SYMBOLS && f[i] > 0 ensures Total(Shares(Mask(f, root, i), cs, Depth(f))) == Pow2(Depth(f)) {
      SingleTerm(Shares(Mask(f, root, i), cs, Depth(f)), i);
    }
  }

  lemma InitialCost(f: seq<nat>, cs: seq<nat>)
    requires |f| == |cs| && forall s :: 0 <= s < |f| ==> cs[s] == 0
    ensures Cost(f, cs) == 0
  {
    forall s | 0 <= s < |f| ensures Costs(f, cs)[s] == 0 {
      assert f[s] * 0 == 0;
    }
    AllZero(Costs(f, cs));
  }

  /** The pairs led from f0 to f, always least first, and every merged weight is a bit spent in cs. */
  ghost predicate Spent(f0: seq<nat>, f: seq<nat>, cs: seq<nat>, pairs: seq<Pair>) {
    && |cs| == |f0|
    && LeastFirst(f0, pairs) && f == After(f0, pairs) && Cost(f0, cs) == MergedWeight(f0, pairs)
  }

  lemma SpentStep(f0: seq<nat>, f: seq<nat>, cs: seq<nat>, root: seq<nat>, c1: nat, c2: nat, cs': seq<nat>, pairs: seq<Pair>)
    requires Weighted(f0, f, root) && ChosenPair(f, c1, c2) && Deepened(f0, cs, root, c1, c2, cs')
    requires Spent(f0, f, cs, pairs)
    ensures Spent(f0, Merge(f, c1, c2), cs', pairs + [Pair(c1, c2)])
  {
    CostStep(f0, f, cs, root, c1, c2, cs');
    RunStep(f0, pairs, c1, c2);
  }

  lemma SpentIsLeast(f0: seq<nat>, pairs: seq<Pair>)
    requires LeastFirst(f0, pairs)
    ensures AtLeast(f0, MergedWeight(f0, pairs))
  {
    var f := After(f0, pairs);
    forall l, m | Fits(f, l, m) ensures Cost(f, l) >= 0 {
      CostNonNegative(f, l);
    }
    RunLowerBound(f0, pairs, 0);
  }

  /** When one tree is left, its code is complete, covers exactly the counted symbols, and is optimal. */
  lemma FinalForest(f0: seq<nat>, f: seq<nat>, cs: seq<nat>, root: seq<nat>, pairs: seq<Pair>, c: nat, x: nat)
    requires Forest(f0, f, cs, root) && PseudoDeepest(f0, f, cs, root)
    requires Spent(f0, f, cs, pairs)
    requires c < SYMBOLS && f[c] > 0 && forall i :: 0 <= i < SYMBOLS && i != c ==> f[i] == 0
    requires x < SYMBOLS && x != PSEUDO && f0[x] > 0
    ensures OptimalLengths(f0, cs)
  {
    assert Mask(f0, root, c) == f0;
    assert Fits(f0, cs, Depth(f0));
    forall s | 0 <= s < SYMBOLS && f0[s] > 0 ensures cs[s] > 0 {
      TwoLiveNeedBits(f0, cs, Depth(f0), s, if s == x then PSEUDO else x);
    }
    SpentIsLeast(f0, pairs);
  }

  /** The least pair is among all live frequencies once the total is within the search limit. */
  lemma OneTreeLeft(f0: seq<nat>, f: seq<nat>, cs: seq<nat>, root: seq<nat>, c1: int)
    requires Forest(f0, f, cs, root) && Total(f0) <= MAX_FREQ
    requires forall i :: 0 <= i < SYMBOLS && i != c1 ==> f[i] == 0 || f[i] > MAX_FREQ
    ensures forall i :: 0 <= i < SYMBOLS && i != c1 ==> f[i] == 0
  {
    forall i | 0 <= i < SYMBOLS ensures f[i] <= MAX_FREQ {
      TotalMonotone(Mask(f0, root, i), f0);
    }
  }

  method MergeCounts(freq: array<nat>, c1: nat, c2: nat)
    requires c1 < freq.Length && c2 < freq.Length && c1 != c2
    modifies freq
    ensures freq[..] == Merge(old(freq[..]), c1, c2)
  {
    freq[c1] := freq[c1] + freq[c2];
    freq[c2] := 0;
  }

  lemma ChainMembers(f0: seq<nat>, root: seq<nat>, chain: seq<seq<nat>>, c: nat)
    requires Covers(f0, root, chain) && c < SYMBOLS
    ensures forall s :: 0 <= s < SYMBOLS ==> (s in chain[c] <==> f0[s] > 0 && root[s] == c)
  {
    assert InTree(f0, root, chain[c], c);
  }

  /** The body of the merge: two branches made one, every symbol below one bit deeper. */
  method MergeBranches(freq: array<nat>, codesize: array<nat>, others: array<int>, c1: nat, c2: nat,
                       ghost f0: seq<nat>, ghost root: seq<nat>, ghost chain: seq<seq<nat>>)
    requires freq.Length == SYMBOLS && codesize.Length == SYMBOLS && others.Length == SYMBOLS
    requires freq != codesize && others as object != codesize && others as object != freq
    requires Chained(f0, freq[..], root, others[..], chain)
    requires c1 < SYMBOLS && c2 < SYMBOLS && c1 != c2 && freq[c1] > 0 && freq[c2] > 0
    modifies freq, codesize, others
    ensures freq[..] == Merge(old(freq[..]), c1, c2)
    ensures Deepened(f0, old(codesize[..]), root, c1, c2, codesize[..])
    ensures Chained(f0, freq[..], Rerooted(root, c1, c2), others[..], Joined(chain, c1, c2))
  {
    ghost var f, links := freq[..], others[..];
    ChainedStep(f0, f, root, links, chain, c1, c2);
    MergeCounts(freq, c1, c2);
    var last := Deepen(codesize, others, c1, chain[c1]);
    others[last] := c2;
    assert others[..] == links[last := c2];
    ChainMembers(f0, root, chain, c1);
    ChainMembers(f0, root, chain, c2);
    UntouchedLinks(links, chain[c2], last, c2);
    var _ := Deepen(codesize, others, c2, chain[c2]);
    assert others[..] == links[last := c2];
  }

  lemma PseudoStep(f0: seq<nat>, f: seq<nat>, cs: seq<nat>, root: seq<nat>, c1: nat, c2: nat, cs': seq<nat>, wb: nat)
      returns (wb': nat)
    requires Rooted(f0, f, root) && PseudoLast(f0, f, cs, root, wb) && ChosenPair(f, c1, c2)
    requires Deepened(f0, cs, root, c1, c2, cs')
    ensures PseudoLast(f0, Merge(f, c1, c2), cs', Rerooted(root, c1, c2), wb')
  {
    wb' := LightStep(f, root[PSEUDO], wb, c1, c2);
    DeepestStep(f0, f, cs, root, c1, c2, cs');
  }

  ghost predicate HeavyUncoded(f0: seq<nat>, cs: seq<nat>) {
    |f0| == |cs| && forall s :: 0 <= s < |f0| && f0[s] > MAX_FREQ ==> cs[s] == 0
  }

  /** A count above the search limit is never merged. */
  lemma HeavySymbols(f0: seq<nat>, f: seq<nat>, cs: seq<nat>, root: seq<nat>, c1: nat, c2: nat, cs': seq<nat>)
    requires Weighted(f0, f, root) && c1 < SYMBOLS && c2 < SYMBOLS && f[c1] <= MAX_FREQ && f[c2] <= MAX_FREQ
    requires Deepened(f0, cs, root, c1, c2, cs')
    requires HeavyUncoded(f0, cs)
    ensures HeavyUncoded(f0, cs')
  {
    forall s | 0 <= s < SYMBOLS && f0[s] > MAX_FREQ ensures cs'[s] == 0 {
      TotalNonNegative(Mask(f0, root, root[s]));
      assert Mask(f0, root, root[s])[s] == f0[s];
    }
  }

  /** Everything the merge loop keeps; pairs are the merges made so far. */
  ghost predicate LoopInvariant(f0: seq<nat>, f: seq<nat>, cs: seq<nat>, root: seq<nat>, wb: nat, pairs: seq<Pair>) {
    && Forest(f0, f, cs, root) && PseudoLast(f0, f, cs, root, wb) && HeavyUncoded(f0, cs)
    && Spent(f0, f, cs, pairs)
  }

  lemma LoopEntry(f: seq<nat>, cs: seq<nat>, root: seq<nat>)
    requires |f| == |cs| == |root| == SYMBOLS && f[PSEUDO] == 1
    requires forall s :: 0 <= s < SYMBOLS ==> root[s] == s && cs[s] == 0
    ensures LoopInvariant(f, f, cs, root, 1, [])
  {
    InitialShape(f, cs, root);
    InitialTrees(f, cs, root);
    InitialCost(f, cs);
  }

  lemma LoopStep(f0: seq<nat>, f: seq<nat>, cs: seq<nat>, root: seq<nat>, c1: nat, c2: nat, cs': seq<nat>,
                 wb: nat, pairs: seq<Pair>) returns (wb': nat)
    requires LoopInvariant(f0, f, cs, root, wb, pairs) && ChosenPair(f, c1, c2)
    requires f[c1] <= MAX_FREQ && f[c2] <= MAX_FREQ
    requires Deepened(f0, cs, root, c1, c2, cs')
    ensures LoopInvariant(f0, Merge(f, c1, c2), cs', Rerooted(root, c1, c2), wb', pairs + [Pair(c1, c2)])
  {
    ForestStep(f0, f, cs, root, c1, c2, cs');
    SpentStep(f0, f, cs, root, c1, c2, cs', pairs);
    wb' := PseudoStep(f0, f, cs, root, c1, c2, cs', wb);
    HeavySymbols(f0, f, cs, root, c1, c2, cs');
  }

  /** The promise made for the finished code lengths of the counts f. */
  ghost predicate Finished(f: seq<nat>, cs: seq<nat>) {
    && |f| == |cs| == SYMBOLS
    && (Total(f) <= MAX_FREQ && (exists s :: 0 <= s < PSEUDO && f[s] > 0) ==> OptimalLengths(f, cs))
    && (forall s :: 0 <= s < SYMBOLS && (f[s] == 0 || f[s] > MAX_FREQ) ==> cs[s] == 0)
  }

  /** What the code lengths are when the search finds no second branch. */
  lemma LoopExit(f0: seq<nat>, f: seq<nat>, cs: seq<nat>, root: seq<nat>, wb: nat, pairs: seq<Pair>, c1: int)
    requires LoopInvariant(f0, f, cs, root, wb, pairs)
    requires forall i :: 0 <= i < SYMBOLS && i != c1 ==> f[i] == 0 || f[i] > MAX_FREQ
    ensures Finished(f0, cs)
  {
    if Total(f0) <= MAX_FREQ && exists s :: 0 <= s < PSEUDO && f0[s] > 0 {
      var x :| 0 <= x < PSEUDO && f0[x] > 0;
      OneTreeLeft(f0, f, cs, root, c1);
      assert f[root[x]] > 0;
      FinalForest(f0, f, cs, root, pairs, root[x], x);
    }
  }

  // ----- A whole run of the loop -----

  /** Counts, code lengths and roots at some point of the loop. */
  datatype Trees = Trees(f: seq<nat>, cs: seq<nat>, root: seq<nat>)

  ghost function Deeper(f0: seq<nat>, cs: seq<nat>, root: seq<nat>, c1: nat, c2: nat): (r: seq<nat>)
    requires |f0| == |cs| == |root|
    ensures Deepened(f0, cs, root, c1, c2, r)
  {
    seq(|cs|, s requires 0 <= s < |cs| => if f0[s] > 0 && (root[s] == c1 || root[s] == c2) then cs[s] + 1 else cs[s])
  }

  /** The trees of c1 and c2 made one. */
  ghost function Joining(f0: seq<nat>, t: Trees, c1: nat, c2: nat): (t': Trees)
    requires |t.f| == |t.cs| == |t.root| == |f0| && c1 < |f0| && c2 < |f0|
  {
    Trees(Merge(t.f, c1, c2), Deeper(f0, t.cs, t.root, c1, c2), Rerooted(t.root, c1, c2))
  }

  /** The forest after merging the given pairs in turn. */
  ghost function Grown(f0: seq<nat>, pairs: seq<Pair>): (t: Trees)
    ensures |t.f| == |t.cs| == |t.root| == |f0|
  {
    if pairs == [] then Trees(f0, seq(|f0|, _ => 0), seq(|f0|, i => i))
    else
      var t, p := Grown(f0, pairs[..|pairs| - 1]), pairs[|pairs| - 1];
      if p.first < |f0| && p.second < |f0| then Joining(f0, t, p.first, p.second) else t
  }

  /** The search finds this pair. */
  ghost predicate Found(f: seq<nat>, p: Pair) {
    ChosenPair(f, p.first, p.second) && f[p.first] <= MAX_FREQ && f[p.second] <= MAX_FREQ
  }

  /** Each pair was the one the search found. */
  ghost predicate FoundFirst(f0: seq<nat>, pairs: seq<Pair>) {
    pairs != [] ==>
      var earlier, p := pairs[..|pairs| - 1], pairs[|pairs| - 1];
      FoundFirst(f0, earlier) && Found(Grown(f0, earlier).f, p)
  }

  /** The search finds no branch beside c. */
  ghost predicate NoneBut(f: seq<nat>, c: int) {
    forall i :: 0 <= i < |f| && i != c ==> f[i] == 0 || f[i] > MAX_FREQ
  }

  /** The loop leads from the counts f to the code lengths cs by these merges. */
  ghost predicate BuiltBy(f: seq<nat>, cs: seq<nat>, pairs: seq<Pair>) {
    && |f| == SYMBOLS && f[PSEUDO] == 1
    && FoundFirst(f, pairs) && Grown(f, pairs).cs == cs && exists c: int :: NoneBut(Grown(f, pairs).f, c)
  }

  lemma GrownStep(f0: seq<nat>, pairs: seq<Pair>, p: Pair)
    requires FoundFirst(f0, pairs) && Found(Grown(f0, pairs).f, p)
    ensures FoundFirst(f0, pairs + [p]) && p.first < |f0| && p.second < |f0|
    ensures Grown(f0, pairs + [p]) == Joining(f0, Grown(f0, pairs), p.first, p.second)
  {
    assert (pairs + [p])[..|pairs|] == pairs;
  }

  lemma GrownStart(f0: seq<nat>)
    requires |f0| == SYMBOLS && f0[PSEUDO] == 1
    ensures var t := Grown(f0, []); LoopInvariant(f0, t.f, t.cs, t.root, 1, [])
  {
    var t := Grown(f0, []);
    LoopEntry(f0, t.cs, t.root);
  }

  lemma GrownOneMore(f0: seq<nat>, pairs: seq<Pair>, p: Pair, wb: nat) returns (wb': nat)
    requires FoundFirst(f0, pairs) && Found(Grown(f0, pairs).f, p)
    requires var t := Grown(f0, pairs); LoopInvariant(f0, t.f, t.cs, t.root, wb, pairs)
    ensures var t := Grown(f0, pairs + [p]); LoopInvariant(f0, t.f, t.cs, t.root, wb', pairs + [p])
  {
    var t := Grown(f0, pairs);
    GrownStep(f0, pairs, p);
    hide Grown, Total, Shares, Mask, Cost, Live;
    wb' := LoopStep(f0, t.f, t.cs, t.root, p.first, p.second, Deeper(f0, t.cs, t.root, p.first, p.second), wb, pairs);
  }

  lemma LastPair(pairs: seq<Pair>)
    requires pairs != []
    ensures pairs == pairs[..|pairs| - 1] + [pairs[|pairs| - 1]]
  {
  }

  /** The invariant of the loop, along any run of it. */
  lemma {:induction false} GrownHolds(f0: seq<nat>, pairs: seq<Pair>) returns (wb: nat)
    requires |f0| == SYMBOLS && f0[PSEUDO] == 1 && FoundFirst(f0, pairs)
    ensures var t := Grown(f0, pairs); LoopInvariant(f0, t.f, t.cs, t.root, wb, pairs)
  {
    hide Grown, Total, Shares, Mask, Cost, Live;
    if pairs == [] {
      GrownStart(f0);
      wb := 1;
    } else {
      var earlier, p := pairs[..|pairs| - 1], pairs[|pairs| - 1];
      wb := GrownHolds(f0, earlier);
      LastPair(pairs);
      wb := GrownOneMore(f0, earlier, p, wb);
    }
  }

  /** What a finished run promises. */
  lemma BuiltFinished(f: seq<nat>, cs: seq<nat>, pairs: seq<Pair>)
    requires BuiltBy(f, cs, pairs)
    ensures Finished(f, cs)
  {
    hide Grown, Total, Shares, Mask, Cost, Live;
    var t := Grown(f, pairs);
    var wb := GrownHolds(f, pairs);
    var c: int :| NoneBut(t.f, c);
    LoopExit(f, t.f, t.cs, t.root, wb, pairs, c);
  }

  /** The arrays hold the forest grown so far, and the chains of its trees. */
  ghost predicate Holds(f0: seq<nat>, pairs: seq<Pair>, t: Trees, others: seq<int>, chain: seq<seq<nat>>) {
    && |f0| == SYMBOLS && f0[PSEUDO] == 1 && FoundFirst(f0, pairs) && t == Grown(f0, pairs)
    && Chained(f0, t.f, t.root, others, chain)
  }

  /** Once round the loop: the two least branches are merged, unless there are no two. */
  method MergeOnce(freq: array<nat>, codesize: array<nat>, others: array<int>,
                   ghost f0: seq<nat>, ghost pairs: seq<Pair>, ghost t: Trees, ghost chain: seq<seq<nat>>) returns (c1: int, c2: int)
    requires freq.Length == SYMBOLS && codesize.Length == SYMBOLS && others.Length == SYMBOLS
    requires freq != codesize && others as object != codesize && others as object != freq
    requires freq[..] == t.f && codesize[..] == t.cs && Holds(f0, pairs, t, others[..], chain)
    modifies freq, codesize, others
    ensures c2 < 0 ==> freq[..] == old(freq[..]) && codesize[..] == old(codesize[..]) && NoneBut(t.f, c1)
    ensures c2 >= 0 ==> 0 <= c1 < SYMBOLS && c2 < SYMBOLS && |chain| == SYMBOLS
    ensures c2 >= 0 ==> 0 <= Total(Live(Joining(f0, t, c1, c2).f)) < Total(Live(t.f))
    ensures c2 >= 0 ==> freq[..] == Joining(f0, t, c1, c2).f && codesize[..] == Joining(f0, t, c1, c2).cs
    ensures c2 >= 0 ==> Holds(f0, pairs + [Pair(c1, c2)], Joining(f0, t, c1, c2), others[..], Joined(chain, c1, c2))
  {
    hide Total, Live, Grown;
    c1, c2 := FindPair(freq);
    if c2 >= 0 {
      MergeBranches(freq, codesize, others, c1, c2, f0, t.root, chain);
      GrownStep(f0, pairs, Pair(c1, c2));
      LiveStep(t.f, c1, c2);
      LiveBounds(Merge(t.f, c1, c2));
      DeepenedIs(f0, t.cs, t.root, c1, c2, codesize[..]);
    }
  }

  /** Huffman's basic algorithm: merge the two least branches until none is left to merge. */
  method MergeAll(freq: array<nat>, codesize: array<nat>, others: array<int>) returns (ghost pairs: seq<Pair>)
    requires freq.Length == SYMBOLS && codesize.Length == SYMBOLS && others.Length == SYMBOLS
    requires freq != codesize && others as object != codesize && others as object != freq
    requires freq[PSEUDO] == 1
    requires forall i :: 0 <= i < SYMBOLS ==> codesize[i] == 0 && others[i] == -1
    modifies freq, codesize, others
    ensures BuiltBy(old(freq[..]), codesize[..], pairs)
    ensures Finished(old(freq[..]), codesize[..])
  {
    hide Total, Live, Grown, Finished, Joining, Chained;
    ghost var f0 := freq[..];
    pairs := [];
    ghost var t := Trees(f0, codesize[..], seq(SYMBOLS, i => i));
    ghost var chain: seq<seq<nat>> := seq(SYMBOLS, i requires 0 <= i < SYMBOLS => if f0[i] > 0 then [i] else []);
    GrownEntry(f0, t);
    ChainsEntry(f0, t.root, others[..], chain);
    while true
      invariant freq[..] == t.f && codesize[..] == t.cs && Holds(f0, pairs, t, others[..], chain)
      decreases Total(Live(t.f))
    {
      var c1, c2 := MergeOnce(freq, codesize, others, f0, pairs, t, chain);
      if c2 < 0 {
        break;
      }
      pairs, t, chain := pairs + [Pair(c1, c2)], Joining(f0, t, c1, c2), Joined(chain, c1, c2);
    }
    BuiltFinished(f0, codesize[..], pairs);
  }

  lemma DeepenedIs(f0: seq<nat>, cs: seq<nat>, root: seq<nat>, c1: nat, c2: nat, cs': seq<nat>)
    requires Deepened(f0, cs, root, c1, c2, cs')
    ensures cs' == Deeper(f0, cs, root, c1, c2)
  {
  }

  lemma GrownEntry(f0: seq<nat>, t: Trees)
    requires |t.cs| == |t.root| == |f0| && t.f == f0 && forall s :: 0 <= s < |f0| ==> t.cs[s] == 0 && t.root[s] == s
    ensures Grown(f0, []) == t
  {
  }

  /** Code lengths for the counts, the pseudo-symbol included. */
  method BuildLengths(freq: array<nat>) returns (codesize: array<nat>, ghost pairs: seq<Pair>)
    requires freq.Length == SYMBOLS
    modifies freq
    ensures fresh(codesize)
    ensures BuiltBy(old(freq[..])[PSEUDO := 1], codesize[..], pairs)
    ensures Finished(old(freq[..])[PSEUDO := 1], codesize[..])
  {
    codesize := new nat[SYMBOLS](_ => 0);
    var others := new int[SYMBOLS](_ => -1);
    ghost var f := freq[..];
    freq[PSEUDO] := 1;
    assert freq[..] == f[PSEUDO := 1];
    pairs := MergeAll(freq, codesize, others);
  }
}
