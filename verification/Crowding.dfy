/** For which counts 256 symbols share a code length, which the UINT8 entries of bits[] cannot hold. */
module Crowding {
  import opened BitStrings
  import opened HuffmanOptimality
  import opened HuffmanTree
  import opened HuffmanRun
  import opened EvenCounts
  import opened LengthLimit

  /** One real symbol is not counted, and the others are all counted equally often. */
  ghost predicate Level(f: seq<nat>) {
    exists x: nat, m: nat :: Even(f, x, m) && f[x] == 0
  }

  /** All real symbols are counted, equally often but for one that towers over the others. */
  ghost predicate Tower(f: seq<nat>) {
    exists x: nat, m: nat :: Even(f, x, m) && f[x] > 0 && Towers(f, x, m)
  }

  // ----- Tallies of nearly constant lengths -----

  lemma {:induction false} CountOfBound(cs: seq<nat>, k: nat)
    ensures CountOf(cs, k) <= |cs|
  {
    if cs != [] && k > 0 {
      CountOfBound(cs[..|cs| - 1], k);
    }
  }

  /** Symbols of another length keep the tally below the number of symbols. */
  lemma {:induction false} CountOfMisses(cs: seq<nat>, k: nat, i: nat, j: nat)
    requires i < j < |cs| && cs[i] != k && cs[j] != k
    ensures CountOf(cs, k) <= |cs| - 2
    decreases |cs|
  {
    var n := |cs| - 1;
    if k > 0 {
      if j < n {
        CountOfMisses(cs[..n], k, i, j);
      } else {
        CountOfOneMiss(cs[..n], k, i);
      }
    }
  }

  lemma {:induction false} CountOfOneMiss(cs: seq<nat>, k: nat, i: nat)
    requires i < |cs| && cs[i] != k
    ensures CountOf(cs, k) <= |cs| - 1
    decreases |cs|
  {
    var n := |cs| - 1;
    if k > 0 {
      if i < n {
        CountOfOneMiss(cs[..n], k, i);
      } else {
        CountOfBound(cs[..n], k);
      }
    }
  }

  lemma {:induction false} CountOfAll(cs: seq<nat>, k: nat)
    requires k > 0 && forall s :: 0 <= s < |cs| ==> cs[s] == k
    ensures CountOf(cs, k) == |cs|
  {
    if cs != [] {
      CountOfAll(cs[..|cs| - 1], k);
    }
  }

  lemma {:induction false} CountOfAllBut(cs: seq<nat>, k: nat, x: nat)
    requires k > 0 && x < |cs| && cs[x] != k && forall s :: 0 <= s < |cs| && s != x ==> cs[s] == k
    ensures CountOf(cs, k) == |cs| - 1
    decreases |cs|
  {
    var n := |cs| - 1;
    if x < n {
      CountOfAllBut(cs[..n], k, x);
    } else {
      CountOfAll(cs[..n], k);
    }
  }

  lemma {:induction false} CountOfSome(cs: seq<nat>, i: nat)
    requires i < |cs| && cs[i] > 0
    ensures CountOf(cs, cs[i]) >= 1
    decreases |cs|
  {
    if i < |cs| - 1 {
      CountOfSome(cs[..|cs| - 1], i);
    }
  }

  /** All lengths are k but one. */
  lemma OneOther(cs: seq<nat>, k: nat) returns (x: nat)
    requires k > 0 && |cs| > 0 && CountOf(cs, k) == |cs| - 1
    ensures x < |cs| && cs[x] != k && forall s :: 0 <= s < |cs| && s != x ==> cs[s] == k
  {
    if forall s :: 0 <= s < |cs| ==> cs[s] == k {
      CountOfAll(cs, k);
    }
    x :| 0 <= x < |cs| && cs[x] != k;
    forall s | 0 <= s < |cs| && s != x ensures cs[s] == k {
      if cs[s] != k {
        CountOfMisses(cs, k, if s < x then s else x, if s < x then x else s);
      }
    }
  }

  /** The one symbol outside a crowded length is a real one: uncounted, or with a word of one bit. */
  lemma OddOneOut(f: seq<nat>, cs: seq<nat>, k: nat) returns (x: nat)
    requires OptimalLengths(f, cs) && f[PSEUDO] > 0 && (forall s :: 0 <= s < SYMBOLS ==> cs[s] <= MAX_CLEN)
    requires k <= MAX_CLEN && Counts(cs)[k] > 255
    ensures x < PSEUDO && ((k == 8 && cs[x] == 0) || (k == 9 && cs[x] == 1))
    ensures forall s :: 0 <= s < SYMBOLS && s != x ==> cs[s] == k
  {
    hide Total, Cost, Shares;
    CountsComplete(f, cs);
    CrowdedShape(Counts(cs), k);
    x := OneOther(cs, k);
    assert Counts(cs)[1] == CountOf(cs, 1);
    if cs[x] > 0 {
      CountOfSome(cs, x);
      assert Counts(cs)[cs[x]] > 0;
    } else if k == 9 {
      CountOfNone1(cs);
    }
  }

  lemma {:induction false} CountOfNone1(cs: seq<nat>)
    requires forall s :: 0 <= s < |cs| ==> cs[s] != 1
    ensures CountOf(cs, 1) == 0
  {
    if cs != [] {
      CountOfNone1(cs[..|cs| - 1]);
    }
  }

  /** A crowded length means even counts. */
  lemma CrowdedEven(f: seq<nat>, cs: seq<nat>, pairs: seq<Pair>, k: nat) returns (x: nat, m: nat)
    requires BuiltBy(f, cs, pairs) && Total(f) <= MAX_FREQ && OptimalLengths(f, cs)
    requires forall s :: 0 <= s < SYMBOLS ==> cs[s] <= MAX_CLEN
    requires k <= MAX_CLEN && Counts(cs)[k] > 255
    ensures Even(f, x, m)
    ensures (k == 8 && f[x] == 0) || (k == 9 && f[x] > 0 && Towers(f, x, m))
  {
    hide Total, Cost, Shares, Grown;
    x := OddOneOut(f, cs, k);
    var y := if x == 0 then 1 else 0;
    m := f[y];
    forall s | 0 <= s < PSEUDO && s != x ensures f[s] == m {
      if f[y] < f[s] {
        OnlyRarestDeepest(f, cs, pairs, s, y);
      } else if f[s] < f[y] {
        OnlyRarestDeepest(f, cs, pairs, y, s);
      }
    }
    EvenLengths(f, cs, pairs, x, m);
  }

  /** 256 symbols share a length exactly for level counts, where it is 8, and for counts with a tower, where it is 9. */
  lemma CrowdedIff(f: seq<nat>, cs: seq<nat>, pairs: seq<Pair>)
    requires BuiltBy(f, cs, pairs) && Total(f) <= MAX_FREQ && OptimalLengths(f, cs)
    ensures Level(f) ==> CountOf(cs, 8) == 256 && forall s :: 0 <= s < SYMBOLS ==> cs[s] <= MAX_CLEN
    ensures Tower(f) ==> CountOf(cs, 9) == 256 && forall s :: 0 <= s < SYMBOLS ==> cs[s] <= MAX_CLEN
    ensures (forall s :: 0 <= s < SYMBOLS ==> cs[s] <= MAX_CLEN) ==>
      && (Level(f) <==> CountOf(cs, 8) == 256) && (Tower(f) <==> CountOf(cs, 9) == 256)
      && (Narrow(Counts(cs)) <==> !Level(f) && !Tower(f))
  {
    hide Total, Cost, Shares, Grown, AtLeast, Even, BuiltBy;
    if Level(f) {
      LevelCrowds(f, cs, pairs);
    }
    if Tower(f) {
      TowerCrowds(f, cs, pairs);
    }
    if forall s :: 0 <= s < SYMBOLS ==> cs[s] <= MAX_CLEN {
      var b := Counts(cs);
      forall k | 0 <= k < |b| && b[k] > 255 ensures (k == 8 && Level(f)) || (k == 9 && Tower(f)) {
        var x, m := CrowdedEven(f, cs, pairs, k);
      }
      assert b[8] == CountOf(cs, 8) && b[9] == CountOf(cs, 9);
    }
  }

  lemma LevelCrowds(f: seq<nat>, cs: seq<nat>, pairs: seq<Pair>)
    requires BuiltBy(f, cs, pairs) && Total(f) <= MAX_FREQ && Level(f)
    ensures CountOf(cs, 8) == 256 && forall s :: 0 <= s < |cs| ==> cs[s] <= MAX_CLEN
  {
    hide Total, Grown;
    var x: nat, m: nat :| Even(f, x, m) && f[x] == 0;
    EvenLengths(f, cs, pairs, x, m);
    CountOfAllBut(cs, 8, x);
  }

  lemma TowerCrowds(f: seq<nat>, cs: seq<nat>, pairs: seq<Pair>)
    requires BuiltBy(f, cs, pairs) && Total(f) <= MAX_FREQ && Tower(f)
    ensures CountOf(cs, 9) == 256 && forall s :: 0 <= s < |cs| ==> cs[s] <= MAX_CLEN
  {
    hide Total, Grown;
    var x: nat, m: nat :| Even(f, x, m) && f[x] > 0 && Towers(f, x, m);
    EvenLengths(f, cs, pairs, x, m);
    CountOfAllBut(cs, 9, x);
  }
}
