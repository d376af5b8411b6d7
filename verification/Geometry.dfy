/** Image and scan geometry of a compression (jcmaster.c): block counts, iMCU rows, and the composition of an MCU. */
module Geometry {

  /** a * b by repeated addition. */
  function Times(a: nat, b: nat): nat
    decreases a, b
  {
    if a == 0 then 0 else Times(a - 1, b) + b
  }

  lemma {:induction false} TimesIs(a: nat, b: nat)
    ensures Times(a, b) == a * b
  {
    if a > 0 {
      TimesIs(a - 1, b);
      assert a * b == (a - 1) * b + b;
    }
  }

  lemma TimesStep(a: nat, b: nat)
    ensures Times(0, b) == 0 && Times(a + 1, b) == Times(a, b) + b
  {
  }

  lemma {:induction false} TimesMonotone(a: nat, b: nat, c: nat)
    requires a <= b
    ensures Times(a, c) <= Times(b, c)
    decreases b
  {
    if a < b {
      TimesMonotone(a, b - 1, c);
    }
  }

  const MAX_SAMP_FACTOR := 4
  const MAX_BLOCKS_IN_MCU := 10    // C_MAX_BLOCKS_IN_MCU

  /** A component: its sampling factors and its size in blocks. */
  datatype Component = Component(h: nat, v: nat, width: nat, height: nat)

  /** The frame: its components and its size in fully interleaved MCUs (total_iMCU_rows for the rows). */
  datatype Frame = Frame(comps: seq<Component>, rows: nat, cols: nat) {
    /** The last iMCU row and column hold at least one and at most all of each component's blocks. */
    ghost predicate Valid() {
      && rows > 0 && cols > 0
      && forall c :: 0 <= c < |comps| ==> Covers(comps[c])
    }

    ghost predicate Covers(c: Component)
      requires rows > 0 && cols > 0
    {
      && c.h > 0 && c.v > 0
      && Times(cols - 1, c.h) < c.width <= Times(cols, c.h)
      && Times(rows - 1, c.v) < c.height <= Times(rows, c.v)
    }
  }

  /** A component of the scan; index is its place in the frame. */
  datatype ScanComponent = ScanComponent(index: nat, mcuWidth: nat, mcuHeight: nat, lastColWidth: nat, lastRowHeight: nat)

  datatype ScanPlan = ScanPlan(parts: seq<ScanComponent>, mcusPerRow: nat) {
    ghost predicate Valid(f: Frame) {
      && f.Valid() && |parts| > 0 && mcusPerRow > 0
      && (forall i :: 0 <= i < |parts| ==> parts[i].index < |f.comps|)
      && (forall i :: 0 <= i < |parts| ==> Fits(f, parts[i], f.comps[parts[i].index]))
      && Blocks(parts, |parts|) <= MAX_BLOCKS_IN_MCU
    }

    /** Interleaved: an MCU holds h by v blocks, and MCU rows are iMCU rows. Otherwise an MCU is one block. */
    ghost predicate Fits(f: Frame, p: ScanComponent, c: Component)
      requires f.rows > 0 && f.cols > 0
    {
      && p.lastRowHeight == c.height - Times(f.rows - 1, c.v)
      && (if |parts| > 1
          then p.mcuWidth == c.h && p.mcuHeight == c.v && mcusPerRow == f.cols && p.lastColWidth == c.width - Times(f.cols - 1, c.h)
          else p.mcuWidth == 1 && p.mcuHeight == 1 && mcusPerRow == c.width && p.lastColWidth == 1)
    }

    /** MCU_rows_per_iMCU_row for iMCU row r. */
    function McuRows(f: Frame, r: nat): nat
      requires |parts| > 0 && parts[0].index < |f.comps|
    {
      if |parts| > 1 then 1
      else if r + 1 < f.rows then f.comps[parts[0].index].v
      else parts[0].lastRowHeight
    }
  }

  /** The blocks of an MCU that belong to the first n parts; for all of them, blocks_in_MCU. */
  function Blocks(parts: seq<ScanComponent>, n: nat): nat
    requires n <= |parts|
  {
    if n == 0 then 0 else Blocks(parts, n - 1) + Times(parts[n - 1].mcuHeight, parts[n - 1].mcuWidth)
  }

  // ----- Rounding up -----

  /** jdiv_round_up */
  function DivRoundUp(a: nat, b: nat): nat
    requires b > 0
  {
    (a + b - 1) / b
  }

  lemma MulMonotone(a: nat, b: nat, c: nat)
    requires a <= b
    ensures a * c <= b * c
  {
  }

  lemma MulStrict(a: nat, b: nat, c: nat)
    requires c > 0 && a * c < b * c
    ensures a < b
  {
    if a >= b {
      MulMonotone(b, a, c);
    }
  }

  lemma RoundUpBounds(a: nat, b: nat)
    requires b > 0
    ensures a <= DivRoundUp(a, b) * b < a + b
  {
    var q, r := (a + b - 1) / b, (a + b - 1) % b;
    assert a + b - 1 == q * b + r;
  }

  /** Rounding up gives the least number of units that hold a. */
  lemma RoundUpLeast(a: nat, b: nat, q: nat)
    requires b > 0
    ensures q * b >= a <==> q >= DivRoundUp(a, b)
  {
    var d := DivRoundUp(a, b);
    RoundUpBounds(a, b);
    if q >= d {
      MulMonotone(d, q, b);
    } else {
      MulMonotone(q + 1, d, b);
      assert (q + 1) * b == q * b + b;
    }
  }

  lemma CeilingAbove(size: nat, factor: nat, unit: nat, cols: nat, blocks: nat)
    requires factor > 0 && unit > 0 && size <= cols * unit && blocks * unit < size * factor + unit
    ensures blocks <= cols * factor
  {
    MulMonotone(size, cols * unit, factor);
    Rearrange(cols, unit, factor);
    var limit := cols * factor;
    assert (limit + 1) * unit == limit * unit + unit;
    MulStrict(blocks, limit + 1, unit);
  }

  lemma CeilingBelow(size: nat, factor: nat, unit: nat, less: nat, blocks: nat)
    requires factor > 0 && unit > 0 && less * unit < size && size * factor <= blocks * unit
    ensures less * factor < blocks
  {
    MulMonotone(less * unit + 1, size, factor);
    assert (less * unit + 1) * factor == (less * unit) * factor + factor;
    Rearrange(less, unit, factor);
    MulStrict(less * factor, blocks, unit);
  }

  /**
   Nested ceilings: dividing the scaled size into blocks and the blocks into MCUs counts the same MCUs
   as dividing the size into MCUs at once.
   */
  lemma NestedCeilings(size: nat, factor: nat, unit: nat)
    requires size > 0 && factor > 0 && unit > 0
    ensures var cols, blocks := DivRoundUp(size, unit), DivRoundUp(size * factor, unit);
      cols > 0 && Times(cols - 1, factor) < blocks <= Times(cols, factor)
  {
    var cols, blocks := DivRoundUp(size, unit), DivRoundUp(size * factor, unit);
    TimesIs(cols, factor);
    RoundUpBounds(size, unit);
    RoundUpBounds(size * factor, unit);
    CeilingAbove(size, factor, unit, cols, blocks);
    if cols == 0 {
      assert false;
    }
    assert (cols - 1) * unit == cols * unit - unit;
    TimesIs(cols - 1, factor);
    CeilingBelow(size, factor, unit, cols - 1, blocks);
  }

  lemma Rearrange(a: nat, b: nat, c: nat)
    ensures (a * b) * c == (a * c) * b
  {
  }

  /** tmp = size % step, or step itself when that is 0: the blocks in the last of the steps. */
  function LastPart(size: nat, step: nat): nat
    requires step > 0
  {
    if size % step == 0 then step else size % step
  }

  lemma DivModUnique(a: nat, b: nat, q: nat, r: nat)
    requires a == q * b + r && r < b
    ensures a / b == q && a % b == r
  {
    var d, m := a / b, a % b;
    assert a == d * b + m;
    assert (d + 1) * b == d * b + b && (q + 1) * b == q * b + b;
    MulStrict(q, d + 1, b);
    MulStrict(d, q + 1, b);
  }

  lemma LastPartIs(size: nat, step: nat, n: nat)
    requires step > 0 && n > 0 && Times(n - 1, step) < size <= Times(n, step)
    ensures LastPart(size, step) == size - Times(n - 1, step)
  {
    var left := size - Times(n - 1, step);
    TimesIs(n - 1, step);
    TimesIs(n, step);
    DivModUnique(size, step, if left == step then n else n - 1, if left == step then 0 else left);
  }

  // ----- initial_setup and per_scan_setup -----

  const MAX_DIMENSION := 65500      // JPEG_MAX_DIMENSION
  const MAX_COMPONENTS := 10
  const MAX_COMPS_IN_SCAN := 4
  const SAMPLE_BITS := 8                 // BITS_IN_JSAMPLE
  const DIMENSIONS := 0x1_0000_0000      // the values of a JDIMENSION

  /** What a scanline's samples must fit: the product, taken in a long of 64 bits, is a JDIMENSION. */
  predicate WidthFits(width: nat, inputComponents: nat) {
    Times(width, inputComponents) < DIMENSIONS
  }

  datatype Setup<+T> =
    | Ready(value: T) | EmptyImage | ImageTooBig | WidthOverflow | BadPrecision | BadSampling | BadComponentCount | BadMcuSize

  /** max_h_samp_factor and max_v_samp_factor of the first n components. */
  function MaxH(factors: seq<(nat, nat)>, n: nat): (h: nat)
    requires n <= |factors|
    ensures h >= 1 && forall c :: 0 <= c < n ==> factors[c].0 <= h
  {
    if n == 0 then 1 else if factors[n - 1].0 > MaxH(factors, n - 1) then factors[n - 1].0 else MaxH(factors, n - 1)
  }

  function MaxV(factors: seq<(nat, nat)>, n: nat): (v: nat)
    requires n <= |factors|
    ensures v >= 1 && forall c :: 0 <= c < n ==> factors[c].1 <= v
  {
    if n == 0 then 1 else if factors[n - 1].1 > MaxV(factors, n - 1) then factors[n - 1].1 else MaxV(factors, n - 1)
  }

  /** The maxima are 1 or the factors of some component. */
  lemma {:induction false} MaxReached(factors: seq<(nat, nat)>, n: nat)
    requires n <= |factors|
    ensures MaxH(factors, n) == 1 || exists c :: 0 <= c < n && factors[c].0 == MaxH(factors, n)
    ensures MaxV(factors, n) == 1 || exists c :: 0 <= c < n && factors[c].1 == MaxV(factors, n)
  {
    if n > 0 {
      MaxReached(factors, n - 1);
      assert factors[n - 1].0 <= MaxH(factors, n) && factors[n - 1].1 <= MaxV(factors, n);
    }
  }

  /** The largest sampling factors. */
  method MaxFactors(factors: seq<(nat, nat)>) returns (ok: bool, h: nat, v: nat)
    ensures ok <==> forall c :: 0 <= c < |factors| ==> 0 < factors[c].0 <= MAX_SAMP_FACTOR && 0 < factors[c].1 <= MAX_SAMP_FACTOR
    ensures ok ==> h == MaxH(factors, |factors|) && v == MaxV(factors, |factors|)
  {
    ok, h, v := true, 1, 1;
    var ci := 0;
    while ci < |factors|
      invariant ci <= |factors| && h == MaxH(factors, ci) && v == MaxV(factors, ci)
      invariant forall c :: 0 <= c < ci ==> 0 < factors[c].0 <= MAX_SAMP_FACTOR && 0 < factors[c].1 <= MAX_SAMP_FACTOR
    {
      var f := factors[ci];
      if f.0 == 0 || f.0 > MAX_SAMP_FACTOR || f.1 == 0 || f.1 > MAX_SAMP_FACTOR {
        ok := false;
        return;
      }
      h := if f.0 > h then f.0 else h;
      v := if f.1 > v then f.1 else v;
      ci := ci + 1;
    }
  }

  /** The component of an image with these sampling factors, h and v being the largest of the image. */
  function Scaled(width: nat, height: nat, factor: (nat, nat), h: nat, v: nat): Component
    requires h > 0 && v > 0
  {
    Component(factor.0, factor.1, DivRoundUp(width * factor.0, h * 8), DivRoundUp(height * factor.1, v * 8))
  }

  /**
   A component's size in blocks is the least number of 8 by 8 blocks that hold its share of the samples, factor out of
   the largest factor; the size in iMCUs is the least that hold the image.
   */
  lemma LeastSizes(width: nat, height: nat, factor: (nat, nat), h: nat, v: nat, q: nat)
    requires h > 0 && v > 0
    ensures q * (8 * h) >= width * factor.0 <==> q >= Scaled(width, height, factor, h, v).width
    ensures q * (8 * v) >= height * factor.1 <==> q >= Scaled(width, height, factor, h, v).height
    ensures q * (8 * h) >= width <==> q >= DivRoundUp(width, h * 8)
    ensures q * (8 * v) >= height <==> q >= DivRoundUp(height, v * 8)
  {
    hide DivRoundUp;
    RoundUpLeast(width * factor.0, h * 8, q);
    RoundUpLeast(height * factor.1, v * 8, q);
    RoundUpLeast(width, h * 8, q);
    RoundUpLeast(height, v * 8, q);
  }

  lemma ScaledCovers(width: nat, height: nat, factor: (nat, nat), h: nat, v: nat, f: Frame)
    requires h > 0 && v > 0 && width > 0 && height > 0 && factor.0 > 0 && factor.1 > 0
    requires f.rows == DivRoundUp(height, v * 8) && f.cols == DivRoundUp(width, h * 8)
    ensures f.rows > 0 && f.cols > 0 && f.Covers(Scaled(width, height, factor, h, v))
  {
    NestedCeilings(width, factor.0, h * 8);
    NestedCeilings(height, factor.1, v * 8);
  }

  /** initial_setup: the frame of an image, covered exactly by its iMCUs whatever the sampling factors. */
  method InitialSetup(width: nat, height: nat, inputComponents: nat, precision: nat, factors: seq<(nat, nat)>) returns (r: Setup<Frame>)
    ensures r.Ready? <==>
      && 0 < width <= 65500 && 0 < height <= 65500 && 0 < |factors| <= 10
      && inputComponents > 0 && Times(width, inputComponents) < 0x1_0000_0000 && precision == 8
      && forall c :: 0 <= c < |factors| ==> 0 < factors[c].0 <= 4 && 0 < factors[c].1 <= 4
    ensures r.EmptyImage? <==> width == 0 || height == 0 || factors == [] || inputComponents == 0
    ensures r.ImageTooBig? <==> !r.EmptyImage? && (width > 65500 || height > 65500)
    ensures r.WidthOverflow? <==> !r.EmptyImage? && !r.ImageTooBig? && Times(width, inputComponents) >= 0x1_0000_0000
    ensures r.BadPrecision? <==> !r.EmptyImage? && !r.ImageTooBig? && !r.WidthOverflow? && precision != 8
    ensures r.BadComponentCount? <==>
      !r.EmptyImage? && !r.ImageTooBig? && !r.WidthOverflow? && !r.BadPrecision? && |factors| > 10
    ensures !r.BadMcuSize?
    ensures r.Ready? ==>
      var f, h, v := r.value, MaxH(factors, |factors|), MaxV(factors, |factors|);
      && f.Valid() && f.rows == DivRoundUp(height, v * 8) && f.cols == DivRoundUp(width, h * 8) && |f.comps| == |factors|
      && forall c :: 0 <= c < |factors| ==> f.comps[c] == Scaled(width, height, factors[c], h, v)
  {
    hide DivRoundUp, MaxH, MaxV, Scaled, Times;
    if height == 0 || width == 0 || factors == [] || inputComponents == 0 {
      return EmptyImage;
    }
    if height > MAX_DIMENSION || width > MAX_DIMENSION {
      return ImageTooBig;
    }
    if !WidthFits(width, inputComponents) {
      return WidthOverflow;
    }
    if precision != SAMPLE_BITS {
      return BadPrecision;
    }
    if |factors| > MAX_COMPONENTS {
      return BadComponentCount;
    }
    var ok, h, v := MaxFactors(factors);
    if !ok {
      return BadSampling;
    }
    var f := Frame([], DivRoundUp(height, v * 8), DivRoundUp(width, h * 8));
    ScaledCovers(width, height, (1, 1), h, v, f);
    while |f.comps| < |factors|
      invariant |f.comps| <= |factors| && f == Frame(f.comps, DivRoundUp(height, v * 8), DivRoundUp(width, h * 8)) && f.Valid()
      invariant forall c :: 0 <= c < |f.comps| ==> f.comps[c] == Scaled(width, height, factors[c], h, v)
    {
      var factor := factors[|f.comps|];
      ScaledCovers(width, height, factor, h, v, f);
      f := f.(comps := f.comps + [Scaled(width, height, factor, h, v)]);
    }
    return Ready(f);
  }

  /** MCU_membership for the first n parts of the scan. */
  function Membership(parts: seq<ScanComponent>, n: nat): (m: seq<nat>)
    requires n <= |parts|
    ensures |m| == Blocks(parts, n)
    ensures forall b :: 0 <= b < |m| ==> m[b] < n
  {
    if n == 0 then []
    else Membership(parts, n - 1) + seq(Times(parts[n - 1].mcuHeight, parts[n - 1].mcuWidth), _ => n - 1)
  }

  lemma {:induction false} EveryPartCoded(parts: seq<ScanComponent>, n: nat, c: nat)
    requires c < n <= |parts| && Times(parts[c].mcuHeight, parts[c].mcuWidth) > 0
    ensures c in Membership(parts, n)
  {
    if c < n - 1 {
      EveryPartCoded(parts, n - 1, c);
    } else {
      assert Membership(parts, n)[|Membership(parts, n - 1)|] == n - 1;
    }
  }

  /** Only the parts counted matter. */
  lemma {:induction false} PartsPrefix(parts: seq<ScanComponent>, more: seq<ScanComponent>, n: nat)
    requires n <= |parts| <= |more| && parts == more[..|parts|]
    ensures Blocks(more, n) == Blocks(parts, n) && Membership(more, n) == Membership(parts, n)
  {
    if n > 0 {
      PartsPrefix(parts, more, n - 1);
    }
  }

  /** The noninterleaved case: always one block per MCU. */
  method SinglePlan(f: Frame, index: nat) returns (plan: ScanPlan)
    requires f.Valid() && index < |f.comps|
    ensures plan.Valid(f) && |plan.parts| == 1 && plan.parts[0].index == index && Membership(plan.parts, 1) == [0]
  {
    var c := f.comps[index];
    assert f.Covers(c);
    LastPartIs(c.height, c.v, f.rows);
    var p := ScanComponent(index, 1, 1, 1, LastPart(c.height, c.v));
    assert Times(1, 1) == Times(0, 1) + 1;
    assert Blocks([p], 1) == Blocks([p], 0) + 1;
    assert Membership([p], 1) == [] + seq(1, _ => 0);
    plan := ScanPlan([p], c.width);
  }

  /** The blocks that an MCU of the first n listed components would hold. */
  function MemberBlocks(f: Frame, members: seq<nat>, n: nat): nat
    requires n <= |members| && forall i :: 0 <= i < |members| ==> members[i] < |f.comps|
  {
    if n == 0 then 0 else MemberBlocks(f, members, n - 1) + Times(f.comps[members[n - 1]].v, f.comps[members[n - 1]].h)
  }

  lemma {:induction false} MemberBlocksGrow(f: Frame, members: seq<nat>, n: nat, m: nat)
    requires n <= m <= |members| && forall i :: 0 <= i < |members| ==> members[i] < |f.comps|
    ensures MemberBlocks(f, members, n) <= MemberBlocks(f, members, m)
    decreases m
  {
    if n < m {
      MemberBlocksGrow(f, members, n, m - 1);
    }
  }

  /** The entry of a component in an interleaved scan. */
  method PartOf(f: Frame, index: nat) returns (p: ScanComponent)
    requires f.Valid() && index < |f.comps|
    ensures p.index == index && Interleaved(f, p)
  {
    var c := f.comps[index];
    assert f.Covers(c);
    LastPartIs(c.width, c.h, f.cols);
    LastPartIs(c.height, c.v, f.rows);
    p := ScanComponent(index, c.h, c.v, LastPart(c.width, c.h), LastPart(c.height, c.v));
  }

  lemma NoParts(f: Frame, members: seq<nat>)
    requires forall i :: 0 <= i < |members| ==> members[i] < |f.comps|
    ensures Blocks([], 0) == MemberBlocks(f, members, 0) == 0 && Membership([], 0) == []
  {
  }

  /** One more part. */
  lemma NextPart(f: Frame, members: seq<nat>, parts: seq<ScanComponent>, p: ScanComponent)
    requires f.rows > 0 && f.cols > 0 && |parts| < |members| && forall i :: 0 <= i < |members| ==> members[i] < |f.comps|
    requires p.index == members[|parts|] && Interleaved(f, p)
    requires Blocks(parts, |parts|) == MemberBlocks(f, members, |parts|)
    ensures var n, size := |parts|, p.mcuWidth * p.mcuHeight;
      && Blocks(parts + [p], n + 1) == MemberBlocks(f, members, n + 1) == Blocks(parts, n) + size
      && MemberBlocks(f, members, n + 1) <= MemberBlocks(f, members, |members|)
      && Membership(parts + [p], n + 1) == Membership(parts, n) + seq(size, _ => n)
  {
    TimesIs(p.mcuHeight, p.mcuWidth);
    MemberBlocksGrow(f, members, |parts| + 1, |members|);
    PartsPrefix(parts, parts + [p], |parts|);
  }

  /** A plan whose parts are all interleaved. */
  lemma InterleavedPlan(f: Frame, parts: seq<ScanComponent>)
    requires f.Valid() && |parts| > 1 && Blocks(parts, |parts|) <= MAX_BLOCKS_IN_MCU
    requires forall i :: 0 <= i < |parts| ==> Interleaved(f, parts[i])
    ensures ScanPlan(parts, f.cols).Valid(f)
  {
  }

  /** The loop of the interleaved case: the parts, unless an MCU would hold too many blocks. */
  method InterleavedParts(f: Frame, members: seq<nat>) returns (ok: bool, parts: seq<ScanComponent>, membership: seq<nat>)
    requires f.Valid() && forall i :: 0 <= i < |members| ==> members[i] < |f.comps|
    ensures ok <==> MemberBlocks(f, members, |members|) <= MAX_BLOCKS_IN_MCU
    ensures ok ==> |parts| == |members| && Blocks(parts, |parts|) <= MAX_BLOCKS_IN_MCU && membership == Membership(parts, |parts|)
    ensures ok ==> forall i :: 0 <= i < |parts| ==> parts[i].index == members[i] && Interleaved(f, parts[i])
  {
    hide Membership, Blocks, Times, MemberBlocks, Interleaved;
    parts, membership := [], [];
    NoParts(f, members);
    while |parts| < |members|
      invariant |parts| <= |members| && membership == Membership(parts, |parts|)
      invariant Blocks(parts, |parts|) == MemberBlocks(f, members, |parts|) <= MAX_BLOCKS_IN_MCU
      invariant forall i :: 0 <= i < |parts| ==> parts[i].index == members[i] && Interleaved(f, parts[i])
    {
      var p := PartOf(f, members[|parts|]);
      NextPart(f, members, parts, p);
      var mcublks := p.mcuWidth * p.mcuHeight;
      if |membership| + mcublks > MAX_BLOCKS_IN_MCU {
        return false, parts, membership;
      }
      membership := membership + seq(mcublks, _ => |parts|);
      parts := parts + [p];
    }
    ok := true;
  }

  /** per_scan_setup for the listed components of the frame, with the MCU composition. */
  method PerScanSetup(f: Frame, members: seq<nat>) returns (r: Setup<ScanPlan>, membership: seq<nat>)
    requires f.Valid() && forall i :: 0 <= i < |members| ==> members[i] < |f.comps|
    ensures r.BadComponentCount? <==> !(1 <= |members| <= 4)
    ensures r.BadMcuSize? <==> 2 <= |members| <= 4 && MemberBlocks(f, members, |members|) > 10
    ensures r.Ready? || r.BadComponentCount? || r.BadMcuSize?
    ensures r.Ready? ==> r.value.Valid(f) && |r.value.parts| == |members|
    ensures r.Ready? ==> forall i :: 0 <= i < |members| ==> r.value.parts[i].index == members[i]
    ensures r.Ready? ==> membership == Membership(r.value.parts, |r.value.parts|)
  {
    membership := [];
    if |members| == 1 {
      var plan := SinglePlan(f, members[0]);
      return Ready(plan), [0];
    }
    if |members| == 0 || |members| > MAX_COMPS_IN_SCAN {
      return BadComponentCount, membership;
    }
    var ok, parts;
    ok, parts, membership := InterleavedParts(f, members);
    if !ok {
      return BadMcuSize, membership;
    }
    InterleavedPlan(f, parts);
    return Ready(ScanPlan(parts, f.cols)), membership;
  }

  ghost predicate Interleaved(f: Frame, p: ScanComponent)
    requires f.rows > 0 && f.cols > 0
  {
    && p.index < |f.comps|
    && var c := f.comps[p.index];
      && p.mcuWidth == c.h && p.mcuHeight == c.v
      && p.lastColWidth == c.width - Times(f.cols - 1, c.h) && p.lastRowHeight == c.height - Times(f.rows - 1, c.v)
  }
}
