/** Canonical Huffman tables: T.81 Annex C on the encoding side, Figures F.15 and F.16 on the decoding side. */
module HuffmanTable {
  import opened BitStrings
  import opened JpegTypes

  const MAX_LEN := 16

  /** JHUFF_TBL: bits[l] symbols have codes of l bits (bits[0] unused); huffval lists symbols by code length. */
  datatype HuffTable = HuffTable(bits: seq<nat>, huffval: seq<nat>) {
    ghost predicate WellTyped() {
      && |bits| == MAX_LEN + 1
      && |huffval| == 256
      && (forall l :: 0 <= l <= MAX_LEN ==> bits[l] < 256)
      && (forall p :: 0 <= p < 256 ==> huffval[p] < 256)
    }
  }

  /** c_derived_tbl: code word and code length of each symbol; length 0 means no code. */
  datatype Derived = Derived(code: seq<nat>, size: seq<nat>) {
    ghost predicate WellTyped() {
      |code| == |size| == 256 && forall s :: 0 <= s < 256 ==> size[s] <= MAX_LEN
    }
  }

  // ----- Specification: code lengths, Kraft sum, canonical code words -----

  /** The code lengths of the table's entries, in order, up to length l. */
  function Sizes(bits: seq<nat>, l: nat): (s: seq<nat>)
    requires l < |bits|
    ensures forall p :: 0 <= p < |s| ==> 1 <= s[p] <= l
  {
    if l == 0 then [] else Sizes(bits, l - 1) + seq(bits[l], _ => l)
  }

  ghost predicate Lengths(s: seq<nat>) {
    && (forall p :: 0 <= p < |s| ==> 1 <= s[p] <= MAX_LEN)
    && (forall p, q :: 0 <= p <= q < |s| ==> s[p] <= s[q])
  }

  /** The Kraft sum of the code lengths, in units of 2^-16. */
  function Slots(s: seq<nat>): (k: nat)
    requires forall p :: 0 <= p < |s| ==> s[p] <= MAX_LEN
  {
    if s == [] then 0 else Slots(s[..|s| - 1]) + Pow2(MAX_LEN - s[|s| - 1])
  }

  /** The canonical code of entry p: the room its predecessors take, in units of 2^-s[p]. */
  function Code(s: seq<nat>, p: nat): nat
    requires forall i :: 0 <= i < |s| ==> s[i] <= MAX_LEN
    requires p < |s|
  {
    Shr(Slots(s[..p]), MAX_LEN - s[p])
  }

  function Word(s: seq<nat>, p: nat): seq<bool>
    requires forall i :: 0 <= i < |s| ==> s[i] <= MAX_LEN
    requires p < |s|
  {
    ToBits(Code(s, p), s[p])
  }

  /** Exactly the tables jpeg_make_c_derived_tbl lets through. */
  ghost predicate Acceptable(isDC: bool, t: HuffTable)
    requires t.WellTyped()
  {
    var s := Sizes(t.bits, MAX_LEN);
    && |s| <= 256
    && Slots(s) < SPACE_16
    && (forall p :: 0 <= p < |s| ==> t.huffval[p] <= if isDC then 15 else 255)
    && (forall p, q :: 0 <= p < q < |s| ==> t.huffval[p] != t.huffval[q])
  }

  /** d holds, for every entry of t, its canonical code, and no other symbol has a code. */
  ghost predicate Derives(t: HuffTable, d: Derived)
    requires t.WellTyped()
  {
    var s := Sizes(t.bits, MAX_LEN);
    && d.WellTyped()
    && |s| <= 256
    && (forall p :: 0 <= p < |s| ==> d.size[t.huffval[p]] == s[p] && d.code[t.huffval[p]] == Code(s, p))
    && (forall v :: 0 <= v < 256 && (forall p :: 0 <= p < |s| ==> t.huffval[p] != v) ==> d.size[v] == 0)
  }

  // ----- Lemmas about Sizes -----

  lemma {:induction false} SizesShape(bits: seq<nat>, l: nat)
    requires l <= MAX_LEN < |bits|
    ensures Lengths(Sizes(bits, l))
    ensures l > 0 ==> |Sizes(bits, l)| == |Sizes(bits, l - 1)| + bits[l]
    ensures l > 0 ==> Sizes(bits, l)[..|Sizes(bits, l - 1)|] == Sizes(bits, l - 1)
  {
    if l > 0 {
      SizesShape(bits, l - 1);
    }
  }

  lemma {:induction false} SizesPrefix(bits: seq<nat>, l: nat, m: nat)
    requires l <= m <= MAX_LEN < |bits|
    ensures Sizes(bits, l) <= Sizes(bits, m)
    ensures forall p :: |Sizes(bits, l)| <= p < |Sizes(bits, m)| ==> Sizes(bits, m)[p] > l
    decreases m - l
  {
    if l < m {
      SizesPrefix(bits, l, m - 1);
    }
  }

  // ----- Lemmas about the Kraft sum and canonical codes -----

  lemma {:induction false} SlotsMonotone(s: seq<nat>, p: nat, q: nat)
    requires Lengths(s) && p <= q <= |s|
    ensures Slots(s[..p]) + (if p < q then Pow2(MAX_LEN - s[p]) else 0) <= Slots(s[..q])
    decreases q - p
  {
    if p < q {
      assert s[..q][..q - 1] == s[..q - 1];
      if p < q - 1 {
        SlotsMonotone(s, p, q - 1);
      }
    }
  }

  /** The room taken by codes no longer than n bits is a whole number of n-bit codes. */
  lemma {:induction false} SlotsMultiple(s: seq<nat>, p: nat, n: nat) returns (k: nat)
    requires Lengths(s) && p <= |s| && n <= MAX_LEN
    requires forall q :: 0 <= q < p ==> s[q] <= n
    ensures Slots(s[..p]) == Shl(k, MAX_LEN - n)
  {
    if p == 0 {
      k := 0;
      ShlZero(MAX_LEN - n);
    } else {
      var j := SlotsMultiple(s, p - 1, n);
      assert s[..p][..p - 1] == s[..p - 1];
      ShlPow2(n - s[p - 1], MAX_LEN - n);
      k := j + Pow2(n - s[p - 1]);
      ShlAdd(j, Pow2(n - s[p - 1]), MAX_LEN - n);
    }
  }

  lemma CodeExact(s: seq<nat>, p: nat)
    requires Lengths(s) && p < |s|
    ensures Slots(s[..p]) == Shl(Code(s, p), MAX_LEN - s[p])
  {
    var k := SlotsMultiple(s, p, s[p]);
    ShrShl(k, MAX_LEN - s[p]);
  }

  /** A later code, cut to the length of an earlier one, is strictly larger. */
  lemma CodeOrder(s: seq<nat>, p: nat, q: nat)
    requires Lengths(s) && p < q < |s|
    ensures Shr(Code(s, q), s[q] - s[p]) > Code(s, p)
    ensures Code(s, q) > Code(s, p)
  {
    var a, b, d := Code(s, p), Code(s, q), s[q] - s[p];
    CodeExact(s, p);
    CodeExact(s, q);
    SlotsMonotone(s, p, q);
    ShlOne(MAX_LEN - s[p]);
    ShlAdd(a, 1, MAX_LEN - s[p]);
    ShlShl(a + 1, d, MAX_LEN - s[q]);
    ShlOrder(b, Shl(a + 1, d), MAX_LEN - s[q]);
    assert b >= Shl(a + 1, d);
    ShrOrder(Shl(a + 1, d), b, d);
    ShrShl(a + 1, d);
    ShlGrows(a + 1, d);
  }

  /** Figure C.2: codes of one length are consecutive; for a longer length the next code is doubled bit by bit. */
  lemma NextCode(s: seq<nat>, p: nat)
    requires Lengths(s) && p < |s|
    ensures p == 0 ==> Code(s, p) == 0
    ensures p > 0 ==> Code(s, p) == Shl(Code(s, p - 1) + 1, s[p] - s[p - 1])
  {
    var m := MAX_LEN - s[p];
    CodeExact(s, p);
    if p == 0 {
      ShlZero(m);
      ShlOrder(Code(s, p), 0, m);
    } else {
      var a, n := Code(s, p - 1), MAX_LEN - s[p - 1];
      CodeExact(s, p - 1);
      assert s[..p][..p - 1] == s[..p - 1];
      ShlOne(n);
      ShlAdd(a, 1, n);
      ShlShl(a + 1, s[p] - s[p - 1], m);
      ShlOrder(Code(s, p), Shl(a + 1, s[p] - s[p - 1]), m);
    }
  }

  lemma {:induction false} ShlGrows(x: nat, n: nat)
    ensures Shl(x, n) >= x
  {
    if n > 0 {
      ShlGrows(x, n - 1);
    }
  }

  /** Every code fits its length and is not all ones. */
  lemma CodeFits(s: seq<nat>, p: nat)
    requires Lengths(s) && p < |s| && Slots(s) < SPACE_16
    ensures Code(s, p) + 1 < Pow2(s[p])
  {
    CodeExact(s, p);
    SlotsMonotone(s, p, |s|);
    assert s[..|s|] == s;
    Split16(s[p], MAX_LEN - s[p]);
    RoomForOneMore(Code(s, p), s[p], MAX_LEN - s[p]);
  }

  lemma RoomForOneMore(c: nat, n: nat, m: nat)
    requires Shl(c, m) + Pow2(m) < Shl(Pow2(n), m)
    ensures c + 1 < Pow2(n)
  {
    ShlOne(m);
    ShlAdd(c, 1, m);
    ShlOrder(c + 1, Pow2(n), m);
  }

  /** The bits of an entry's code word, cut to l bits, read as the code shifted right. */
  lemma WordPrefixValue(s: seq<nat>, p: nat, l: nat)
    requires Lengths(s) && p < |s| && Slots(s) < SPACE_16 && l <= s[p]
    ensures FromBits(Word(s, p)[..l]) == Shr(Code(s, p), s[p] - l)
    ensures l == s[p] ==> FromBits(Word(s, p)[..l]) == Code(s, p)
  {
    CodeFits(s, p);
    FromBitsPrefix(Code(s, p), s[p], l);
  }

  /** No code word of an accepted table is a prefix of another. */
  lemma PrefixFree(s: seq<nat>, p: nat, q: nat)
    requires Lengths(s) && p < |s| && q < |s| && p != q && Slots(s) < SPACE_16
    ensures !(Word(s, p) <= Word(s, q))
  {
    hide Code, Slots, Shr, FromBits, ToBits;
    if Word(s, p) <= Word(s, q) {
      WordPrefixValue(s, q, s[p]);
      WordPrefixValue(s, p, s[p]);
      assert Word(s, q)[..s[p]] == Word(s, p) == Word(s, p)[..s[p]];
      if p < q {
        CodeOrder(s, p, q);
      } else {
        assert s[q] == s[p];
        CodeOrder(s, q, p);
      }
    }
  }

  /** A code word whose bits are all ones never occurs, so padding cannot be mistaken for a code. */
  lemma NeverAllOnes(s: seq<nat>, p: nat)
    requires Lengths(s) && p < |s| && Slots(s) < SPACE_16
    ensures false in Word(s, p)
  {
    if false !in Word(s, p) {
      CodeFits(s, p);
      FromToBits(Code(s, p), s[p]);
      ShlZero(s[p]);
      SplitUnique(Code(s, p), s[p], 0, Code(s, p));
      OnesValue(Word(s, p));
    }
  }

  lemma {:induction false} OnesValue(w: seq<bool>)
    requires false !in w
    ensures FromBits(w) == Pow2(|w|) - 1
  {
    if w == [] {
    } else {
      assert w[|w| - 1];
      OnesValue(w[..|w| - 1]);
    }
  }

  // ----- jpeg_make_c_derived_tbl -----

  /** Figure C.1: the code length of each entry, with a terminating zero. */
  method FillSizes(bits: seq<nat>, huffsize: array<nat>) returns (lastp: Option<nat>)
    requires |bits| == MAX_LEN + 1 && huffsize.Length == 257
    modifies huffsize
    ensures lastp.Some? <==> |Sizes(bits, MAX_LEN)| <= 256
    ensures lastp.Some? ==> lastp.value == |Sizes(bits, MAX_LEN)|
    ensures lastp.Some? ==> huffsize[..lastp.value] == Sizes(bits, MAX_LEN) && huffsize[lastp.value] == 0
  {
    hide Sizes;
    NoSizesYet(bits);
    var p: nat := 0;
    var l: nat := 1;
    while l <= MAX_LEN
      invariant 1 <= l <= MAX_LEN + 1
      invariant p <= 256
      invariant huffsize[..p] == Sizes(bits, l - 1)
    {
      SizesStep(bits, l);
      SizesPrefix(bits, l, MAX_LEN);
      if p + bits[l] > 256 {
        return None;
      }
      p := FillLength(huffsize, p, bits[l], l);
      l := l + 1;
    }
    assert l - 1 == MAX_LEN;
    huffsize[p] := 0;
    return Some(p);
  }

  lemma NoSizesYet(bits: seq<nat>)
    requires |bits| == MAX_LEN + 1
    ensures Sizes(bits, 0) == []
  {
  }

  lemma SizesStep(bits: seq<nat>, l: nat)
    requires |bits| == MAX_LEN + 1 && 1 <= l <= MAX_LEN
    ensures Sizes(bits, l) == Sizes(bits, l - 1) + seq(bits[l], _ => l)
  {
  }

  /** The inner loop of Figure C.1: i entries of length l. */
  method FillLength(huffsize: array<nat>, p0: nat, i0: nat, l: nat) returns (p: nat)
    requires p0 + i0 <= huffsize.Length
    modifies huffsize
    ensures p == p0 + i0 && huffsize[..p] == old(huffsize[..p0]) + seq(i0, _ => l)
  {
    p := p0;
    var i := i0;
    while i > 0
      invariant 0 <= i <= i0 && p == p0 + (i0 - i)
      invariant huffsize[..p] == old(huffsize[..p0]) + seq(i0 - i, _ => l)
    {
      huffsize[p] := l;
      p := p + 1;
      i := i - 1;
      assert huffsize[..p] == huffsize[..p - 1] + [l];
    }
  }

  lemma TakeCode(s: seq<nat>, p: nat, code: nat)
    requires Lengths(s) && p < |s| && Shl(code, MAX_LEN - s[p]) == Slots(s[..p])
    ensures code == Code(s, p)
    ensures Shl(code + 1, MAX_LEN - s[p]) == Slots(s[..p + 1])
  {
    CodeExact(s, p);
    ShlOrder(code, Code(s, p), MAX_LEN - s[p]);
    assert s[..p + 1][..p] == s[..p];
    ShlOne(MAX_LEN - s[p]);
    ShlAdd(code, 1, MAX_LEN - s[p]);
  }

  /** The overflow test at one length is a test of the Kraft sum so far; shifting keeps that sum. */
  lemma CheckCode(code: nat, si: nat)
    requires 1 <= si <= MAX_LEN
    ensures code >= Pow2(si) <==> Shl(code, MAX_LEN - si) >= SPACE_16
    ensures si < MAX_LEN ==> Shl(2 * code, MAX_LEN - si - 1) == Shl(code, MAX_LEN - si)
  {
    Split16(si, MAX_LEN - si);
    ShlOrder(code, Pow2(si), MAX_LEN - si);
    if si < MAX_LEN {
      ShlDouble(code, MAX_LEN - si - 1);
    }
  }

  /** The inner loop of Figure C.2: consecutive codes for the entries of one length. */
  method CodesOfLength(huffsize: array<nat>, huffcode: array<nat>, ghost s: seq<nat>, p0: nat, code0: nat, si: nat)
      returns (p: nat, code: nat)
    requires huffsize.Length == 257 && huffcode.Length == 257 && huffsize != huffcode
    requires |s| <= 256 && Lengths(s) && p0 < |s| && 1 <= si <= s[p0]
    requires (forall q :: 0 <= q < |s| ==> huffsize[q] == s[q]) && huffsize[|s|] == 0
    requires Shl(code0, MAX_LEN - si) == Slots(s[..p0])
    requires forall q :: 0 <= q < p0 ==> huffcode[q] == Code(s, q)
    modifies huffcode
    ensures p0 <= p <= |s| && (p < |s| ==> si < s[p]) && (si == s[p0] ==> p0 < p)
    ensures Shl(code, MAX_LEN - si) == Slots(s[..p])
    ensures forall q :: 0 <= q < p ==> huffcode[q] == Code(s, q)
  {
    p, code := p0, code0;
    while huffsize[p] == si
      invariant p0 <= p <= |s|
      invariant p < |s| ==> si <= s[p]
      invariant (forall q :: 0 <= q < |s| ==> huffsize[q] == s[q]) && huffsize[|s|] == 0
      invariant Shl(code, MAX_LEN - si) == Slots(s[..p])
      invariant forall q :: 0 <= q < p ==> huffcode[q] == Code(s, q)
      decreases |s| - p
    {
      TakeCode(s, p, code);
      huffcode[p] := code;
      p := p + 1;
      code := code + 1;
    }
  }

  /** Figure C.2: the codes, with the check that no length overflows. */
  method GenerateCodes(huffsize: array<nat>, huffcode: array<nat>, ghost s: seq<nat>) returns (ok: bool)
    requires huffsize.Length == 257 && huffcode.Length == 257 && huffsize != huffcode
    requires |s| <= 256 && Lengths(s)
    requires (forall q :: 0 <= q < |s| ==> huffsize[q] == s[q]) && huffsize[|s|] == 0
    modifies huffcode
    ensures ok <==> Slots(s) < SPACE_16
    ensures ok ==> forall p :: 0 <= p < |s| ==> huffcode[p] == Code(s, p)
  {
    var code: nat := 0;
    var si := huffsize[0];
    if |s| > 0 {
      ShlZero(MAX_LEN - s[0]);
    }
    var p := 0;
    assert s[..|s|] == s;
    while huffsize[p] != 0
      invariant p <= |s|
      invariant p < |s| ==> 1 <= si <= s[p]
      invariant (forall q :: 0 <= q < |s| ==> huffsize[q] == s[q]) && huffsize[|s|] == 0
      invariant Slots(s[..p]) < SPACE_16
      invariant p < |s| ==> Shl(code, MAX_LEN - si) == Slots(s[..p])
      invariant forall q :: 0 <= q < p ==> huffcode[q] == Code(s, q)
      decreases |s| - p, if p < |s| then s[p] - si else 0
    {
      p, code := CodesOfLength(huffsize, huffcode, s, p, code, si);
      CheckCode(code, si);
      if code >= Pow2(si) {
        SlotsMonotone(s, p, |s|);
        return false;
      }
      code := 2 * code;
      si := si + 1;
    }
    return true;
  }

  /** Figure C.3: code and length indexed by symbol; rejects out-of-range and repeated symbols. */
  method IndexBySymbol(t: HuffTable, isDC: bool, lastp: nat, huffsize: array<nat>, huffcode: array<nat>)
      returns (r: Result<Derived>)
    requires t.WellTyped() && huffsize.Length == 257 && huffcode.Length == 257 && lastp <= 256
    requires forall p :: 0 <= p < lastp ==> 1 <= huffsize[p] <= MAX_LEN
    ensures r.Ok? <==>
      && (forall p :: 0 <= p < lastp ==> t.huffval[p] <= if isDC then 15 else 255)
      && (forall p, q :: 0 <= p < q < lastp ==> t.huffval[p] != t.huffval[q])
    ensures r.Err? ==> r.error == BadHuffTable
    ensures r.Ok? ==> r.value.WellTyped()
    ensures r.Ok? ==> forall p :: 0 <= p < lastp ==>
      r.value.size[t.huffval[p]] == huffsize[p] && r.value.code[t.huffval[p]] == huffcode[p]
    ensures r.Ok? ==> forall v :: 0 <= v < 256 && (forall p :: 0 <= p < lastp ==> t.huffval[p] != v) ==> r.value.size[v] == 0
  {
    hide Indexed, Taken;
    var ehufco := new nat[256];
    var ehufsi := new nat[256](_ => 0);
    var maxsymbol := if isDC then 15 else 255;
    ghost var sizes, codes := huffsize[..lastp], huffcode[..lastp];
    NoneIndexed(t.huffval, sizes, codes, ehufsi[..], ehufco[..]);
    var p := 0;
    while p < lastp
      invariant 0 <= p <= lastp && huffsize[..lastp] == sizes && huffcode[..lastp] == codes
      invariant forall q :: 0 <= q < p ==> t.huffval[q] <= maxsymbol
      invariant Indexed(t.huffval, p, sizes, codes, ehufsi[..], ehufco[..])
    {
      var i := t.huffval[p];
      if i > maxsymbol || ehufsi[i] != 0 {
        IndexedOnce(t.huffval, p, sizes, codes, ehufsi[..], ehufco[..], i);
        return Err(BadHuffTable);
      }
      IndexStep(t.huffval, p, sizes, codes, ehufsi[..], ehufco[..]);
      ghost var si, co := ehufsi[..], ehufco[..];
      ehufco[i] := huffcode[p];
      ehufsi[i] := huffsize[p];
      assert ehufsi[..] == si[i := sizes[p]] && ehufco[..] == co[i := codes[p]];
      p := p + 1;
    }
    AllIndexed(t.huffval, sizes, codes, ehufsi[..], ehufco[..]);
    return Ok(Derived(ehufco[..], ehufsi[..]));
  }

  lemma NoneIndexed(huffval: seq<nat>, sizes: seq<nat>, codes: seq<nat>, si: seq<nat>, co: seq<nat>)
    requires |huffval| == |si| == |co| == 256 && |sizes| == |codes| <= 256 && forall q :: 0 <= q < 256 ==> huffval[q] < 256
    requires forall v :: 0 <= v < 256 ==> si[v] == 0
    ensures Indexed(huffval, 0, sizes, codes, si, co)
  {
  }

  lemma IndexedOnce(huffval: seq<nat>, p: nat, sizes: seq<nat>, codes: seq<nat>, si: seq<nat>, co: seq<nat>, i: nat)
    requires Indexed(huffval, p, sizes, codes, si, co) && i < 256
    ensures si[i] != 0 ==> exists q :: 0 <= q < p && huffval[q] == i
  {
  }

  lemma AllIndexed(huffval: seq<nat>, sizes: seq<nat>, codes: seq<nat>, si: seq<nat>, co: seq<nat>)
    requires Indexed(huffval, |sizes|, sizes, codes, si, co)
    ensures forall v :: 0 <= v < 256 ==> si[v] <= MAX_LEN
    ensures forall q, u :: 0 <= q < u < |sizes| ==> huffval[q] != huffval[u]
    ensures forall q :: 0 <= q < |sizes| ==> si[huffval[q]] == sizes[q] && co[huffval[q]] == codes[q]
    ensures forall v :: 0 <= v < 256 && (forall q :: 0 <= q < |sizes| ==> huffval[q] != v) ==> si[v] == 0
  {
  }

  ghost predicate Taken(huffval: seq<nat>, p: nat, v: nat)
    requires p <= |huffval|
  {
    exists q :: 0 <= q < p && huffval[q] == v
  }

  /** The first p entries are indexed: no symbol twice, and no symbol besides theirs. */
  ghost predicate Indexed(huffval: seq<nat>, p: nat, sizes: seq<nat>, codes: seq<nat>, si: seq<nat>, co: seq<nat>) {
    && |huffval| == |si| == |co| == 256 && p <= |sizes| == |codes| <= 256
    && (forall q :: 0 <= q < 256 ==> huffval[q] < 256)
    && (forall q, u :: 0 <= q < u < p ==> huffval[q] != huffval[u])
    && (forall q :: 0 <= q < p ==> 1 <= sizes[q] && si[huffval[q]] == sizes[q] && co[huffval[q]] == codes[q])
    && (forall v :: 0 <= v < 256 && si[v] != 0 ==> si[v] <= MAX_LEN && Taken(huffval, p, v))
  }

  lemma IndexStep(huffval: seq<nat>, p: nat, sizes: seq<nat>, codes: seq<nat>, si: seq<nat>, co: seq<nat>)
    requires Indexed(huffval, p, sizes, codes, si, co) && p < |sizes| && si[huffval[p]] == 0 && 1 <= sizes[p] <= MAX_LEN
    ensures Indexed(huffval, p + 1, sizes, codes, si[huffval[p] := sizes[p]], co[huffval[p] := codes[p]])
  {
    var i, n, now := huffval[p], p + 1, si[huffval[p] := sizes[p]];
    assert forall q :: 0 <= q < p ==> huffval[q] != i;
    forall v | 0 <= v < 256 && now[v] != 0 ensures Taken(huffval, n, v) {
      assert v != i ==> Taken(huffval, p, v);
    }
  }

  /** Accepts exactly the acceptable tables, and derives the canonical code from them. */
  method DeriveTable(isDC: bool, t: HuffTable) returns (r: Result<Derived>)
    requires t.WellTyped()
    ensures r.Ok? <==> Acceptable(isDC, t)
    ensures r.Err? ==> r.error == BadHuffTable
    ensures r.Ok? ==> Derives(t, r.value)
  {
    hide Sizes, Code, Slots, Lengths;
    var huffsize := new nat[257];
    var huffcode := new nat[257];
    var lastp := FillSizes(t.bits, huffsize);
    if lastp.None? {
      return Err(BadHuffTable);
    }
    ghost var s := Sizes(t.bits, MAX_LEN);
    SizesShape(t.bits, MAX_LEN);
    assert forall q :: 0 <= q < |s| ==> huffsize[..|s|][q] == huffsize[q];
    var ok := GenerateCodes(huffsize, huffcode, s);
    if !ok {
      return Err(BadHuffTable);
    }
    r := IndexBySymbol(t, isDC, lastp.value, huffsize, huffcode);
  }

  /** jpeg_make_c_derived_tbl, with the search for the table in its slot. */
  method MakeDerivedTable(isDC: bool, tblno: int, tables: seq<Option<HuffTable>>) returns (r: Result<Derived>)
    requires |tables| == 4 && forall i :: 0 <= i < 4 && tables[i].Some? ==> tables[i].value.WellTyped()
    ensures var found := 0 <= tblno < 4 && tables[tblno].Some?;
      && (r.Ok? <==> found && Acceptable(isDC, tables[tblno].value))
      && (r.Ok? ==> Derives(tables[tblno].value, r.value))
      && (r.Err? ==> r.error == if found then BadHuffTable else NoHuffTable)
  {
    if tblno < 0 || tblno >= NUM_HUFF_TBLS {
      return Err(NoHuffTable);
    }
    var htbl := tables[tblno];
    if htbl.None? {
      return Err(NoHuffTable);
    }
    r := DeriveTable(isDC, htbl.value);
  }

  /** The code words of one derived table are prefix-free, fit their lengths and are never all ones. */
  lemma DerivedPrefixFree(isDC: bool, t: HuffTable, d: Derived, x: nat, y: nat)
    requires t.WellTyped() && Acceptable(isDC, t) && Derives(t, d)
    requires x < 256 && y < 256 && x != y && d.size[x] > 0 && d.size[y] > 0
    ensures !(ToBits(d.code[x], d.size[x]) <= ToBits(d.code[y], d.size[y]))
    ensures d.code[x] < Pow2(d.size[x]) - 1
  {
    var s := Sizes(t.bits, MAX_LEN);
    SizesShape(t.bits, MAX_LEN);
    var p :| 0 <= p < |s| && t.huffval[p] == x;
    var q :| 0 <= q < |s| && t.huffval[q] == y;
    PrefixFree(s, p, q);
    CodeFits(s, p);
  }

  // ----- Decoding: Figures F.15 and F.16 -----

  /** Largest code of l bits, -1 when there is none. */
  function MaxCode(bits: seq<nat>, l: nat): int
    requires |bits| == MAX_LEN + 1 && 1 <= l <= MAX_LEN
  {
    if bits[l] == 0 then -1 else Code(Sizes(bits, l), |Sizes(bits, l)| - 1)
  }

  /** Index of the first symbol of length l, minus the first code of that length. */
  function ValOffset(bits: seq<nat>, l: nat): int
    requires |bits| == MAX_LEN + 1 && 1 <= l <= MAX_LEN && bits[l] != 0
  {
    |Sizes(bits, l - 1)| - Code(Sizes(bits, l), |Sizes(bits, l - 1)|)
  }

  /** DECODE: take bits one at a time until the value read is a code of that length. */
  function DecodeSymbol(t: HuffTable, s: seq<bool>, l: nat): (r: Decoded<nat>)
    requires t.WellTyped() && 1 <= l
    ensures r.Got? ==> r.value < 256 && |r.rest| < |s|
    decreases MAX_LEN + 1 - l
  {
    if l > MAX_LEN || l > |s| then Corrupt
    else
      var code := FromBits(s[..l]);
      if code > MaxCode(t.bits, l) then DecodeSymbol(t, s, l + 1)
      else
        var i := code + ValOffset(t.bits, l);
        if 0 <= i < 256 then Got(t.huffval[i], s[l..]) else Corrupt
  }

  lemma CodePrefixIndependent(bits: seq<nat>, l: nat, p: nat)
    requires |bits| == MAX_LEN + 1 && l <= MAX_LEN && p < |Sizes(bits, l)|
    ensures p < |Sizes(bits, MAX_LEN)| && Sizes(bits, MAX_LEN)[p] == Sizes(bits, l)[p]
    ensures Code(Sizes(bits, l), p) == Code(Sizes(bits, MAX_LEN), p)
  {
    SizesPrefix(bits, l, MAX_LEN);
    assert Sizes(bits, MAX_LEN)[..p] == Sizes(bits, l)[..p];
  }

  /** Codes of one length are consecutive. */
  lemma {:induction false} CodeConsecutive(s: seq<nat>, p: nat, q: nat)
    requires Lengths(s) && p <= q < |s| && s[p] == s[q]
    ensures Code(s, q) == Code(s, p) + (q - p)
    decreases q - p
  {
    if p < q {
      assert s[p] <= s[q - 1] <= s[q];
      CodeConsecutive(s, p, q - 1);
      NextCode(s, q);
    }
  }

  /** Where the entries of length l sit in the list, and how their codes run. */
  lemma LengthClass(bits: seq<nat>, s: seq<nat>, l: nat) returns (first: nat, last: nat)
    requires |bits| == MAX_LEN + 1 && s == Sizes(bits, MAX_LEN)
    requires 1 <= l <= MAX_LEN && bits[l] != 0
    ensures first == |Sizes(bits, l - 1)| && last == |Sizes(bits, l)| - 1
    ensures first <= last < |s| && s[first] == s[last] == l
    ensures MaxCode(bits, l) == Code(s, last) && ValOffset(bits, l) == first - Code(s, first)
  {
    hide Sizes, Code;
    SizesStep(bits, l);
    SizesPrefix(bits, l, MAX_LEN);
    first, last := |Sizes(bits, l - 1)|, |Sizes(bits, l)| - 1;
    CodePrefixIndependent(bits, l, first);
    CodePrefixIndependent(bits, l, last);
  }

  /** An entry of length l lies among those of its length; a longer one lies after them. */
  lemma LengthPosition(bits: seq<nat>, p: nat, l: nat)
    requires |bits| == MAX_LEN + 1 && 1 <= l <= MAX_LEN
    requires p < |Sizes(bits, MAX_LEN)| && l <= Sizes(bits, MAX_LEN)[p]
    ensures |Sizes(bits, l - 1)| <= p
    ensures if Sizes(bits, MAX_LEN)[p] == l then p < |Sizes(bits, l)| else |Sizes(bits, l)| <= p
    ensures Sizes(bits, MAX_LEN)[p] == l ==> bits[l] != 0
  {
    SizesShape(bits, l);
    SizesPrefix(bits, l, MAX_LEN);
    SizesPrefix(bits, l - 1, MAX_LEN);
  }

  /** The largest code of a shorter length is below any longer code cut to that length. */
  lemma MaxCodeBelow(bits: seq<nat>, s: seq<nat>, p: nat, l: nat)
    requires |bits| == MAX_LEN + 1 && s == Sizes(bits, MAX_LEN) && Lengths(s)
    requires p < |s| && 1 <= l < s[p]
    ensures MaxCode(bits, l) < Shr(Code(s, p), s[p] - l)
  {
    if bits[l] != 0 {
      var first, last := LengthClass(bits, s, l);
      LengthPosition(bits, p, l);
      CodeOrder(s, last, p);
    }
  }

  /** Too few bits of a code word never look like a shorter code. */
  lemma TooShort(bits: seq<nat>, s: seq<nat>, p: nat, l: nat)
    requires |bits| == MAX_LEN + 1 && s == Sizes(bits, MAX_LEN) && Lengths(s)
    requires p < |s| && 1 <= l < s[p] && Slots(s) < SPACE_16
    ensures FromBits(Word(s, p)[..l]) > MaxCode(bits, l)
  {
    WordPrefixValue(s, p, l);
    MaxCodeBelow(bits, s, p, l);
  }

  /** The whole code word is recognised at its own length, as the entry it belongs to. */
  lemma JustRight(bits: seq<nat>, s: seq<nat>, p: nat)
    requires |bits| == MAX_LEN + 1 && s == Sizes(bits, MAX_LEN) && Lengths(s)
    requires p < |s| && Slots(s) < SPACE_16
    ensures bits[s[p]] != 0 && FromBits(Word(s, p)) <= MaxCode(bits, s[p])
    ensures FromBits(Word(s, p)) + ValOffset(bits, s[p]) == p
  {
    LengthPosition(bits, p, s[p]);
    var first, last := LengthClass(bits, s, s[p]);
    assert first <= p <= last;
    WordPrefixValue(s, p, s[p]);
    assert Word(s, p)[..s[p]] == Word(s, p);
    CodeConsecutive(s, first, p);
    CodeConsecutive(s, p, last);
  }

  /** Decoding a code word followed by anything yields its symbol and leaves the rest. */
  lemma {:induction false} DecodeWord(t: HuffTable, s: seq<nat>, p: nat, rest: seq<bool>, l: nat)
    requires t.WellTyped() && s == Sizes(t.bits, MAX_LEN) && Lengths(s)
    requires |s| <= 256 && p < |s| && 1 <= l <= s[p] && Slots(s) < SPACE_16
    ensures DecodeSymbol(t, Word(s, p) + rest, l) == Got(t.huffval[p], rest)
    decreases s[p] - l
  {
    var w := Word(s, p) + rest;
    assert w[..l] == Word(s, p)[..l];
    if l < s[p] {
      TooShort(t.bits, s, p, l);
      DecodeWord(t, s, p, rest, l + 1);
    } else {
      assert w[l..] == rest;
      assert Word(s, p)[..l] == Word(s, p);
      JustRight(t.bits, s, p);
    }
  }

  /** Symbol round trip through an accepted table. */
  lemma DecodeEncoded(isDC: bool, t: HuffTable, d: Derived, v: nat, rest: seq<bool>)
    requires t.WellTyped() && Acceptable(isDC, t) && Derives(t, d) && v < 256 && d.size[v] > 0
    ensures DecodeSymbol(t, ToBits(d.code[v], d.size[v]) + rest, 1) == Got(v, rest)
  {
    var s := Sizes(t.bits, MAX_LEN);
    SizesShape(t.bits, MAX_LEN);
    var p :| 0 <= p < |s| && t.huffval[p] == v;
    DecodeWord(t, s, p, rest, 1);
  }
}
