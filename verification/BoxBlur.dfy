/** The sliding-window box blur over rows and columns, in exact arithmetic. */
module BoxBlur {

  function Min(a: int, b: int): int {
    if a < b then a else b
  }

  /** The weight of one pixel of the window. */
  function Divisor(length: nat): real {
    1.0 / (length * 2 + 1) as real
  }

  // ----- Windows -----

  /**
   What the blur takes for position k of a line, of which it covers the first w pixels: before the line its first
   pixel, past the covered part its last.
   */
  function Pick(a: seq<real>, w: nat, k: int): real
    requires 1 <= w <= |a|
  {
    if k < 0 then a[0] else if k < w then a[k] else a[|a| - 1]
  }

  /** The sum over the positions from lo to hi. */
  function Window(a: seq<real>, w: nat, lo: int, hi: int): real
    requires 1 <= w <= |a|
    decreases hi - lo + 1
  {
    if hi < lo then 0.0 else Window(a, w, lo, hi - 1) + Pick(a, w, hi)
  }

  /** The value the blur puts at x. */
  function Blurred(a: seq<real>, w: nat, length: nat, x: int): real
    requires 1 <= w <= |a|
  {
    Window(a, w, x - length, x + length) * Divisor(length)
  }

  lemma {:induction false} WindowFront(a: seq<real>, w: nat, lo: int, hi: int)
    requires 1 <= w <= |a| && lo <= hi
    ensures Window(a, w, lo, hi) == Pick(a, w, lo) + Window(a, w, lo + 1, hi)
    decreases hi - lo
  {
    if lo < hi {
      WindowFront(a, w, lo, hi - 1);
    } else {
      assert Window(a, w, lo, lo - 1) == 0.0 && Window(a, w, lo + 1, lo) == 0.0;
    }
  }

  /** Sliding the window on by one drops its first position and takes in the next. */
  lemma Slide(a: seq<real>, w: nat, lo: int, hi: int)
    requires 1 <= w <= |a| && lo <= hi
    ensures Window(a, w, lo + 1, hi + 1) == Window(a, w, lo, hi) - Pick(a, w, lo) + Pick(a, w, hi + 1)
  {
    WindowFront(a, w, lo, hi);
  }

  /** The positions before the line all take its first pixel. */
  lemma {:induction false} BeforeLine(a: seq<real>, w: nat, lo: int)
    requires 1 <= w <= |a| && lo <= 0
    ensures Window(a, w, lo, -1) == a[0] * (0 - lo) as real
    decreases 0 - lo
  {
    if lo < 0 {
      BeforeLine(a, w, lo + 1);
      WindowFront(a, w, lo, -1);
      Once(a[0], (0 - (lo + 1)) as real);
    }
  }

  lemma Once(p: real, m: real)
    ensures p + p * m == p * (m + 1.0)
  {
  }

  // ----- Rows -----

  /** The pixels of row y from column x on. */
  ghost function RowFrom(s: array2<real>, x: nat, y: nat): (a: seq<real>)
    requires y < s.Length0 && x <= s.Length1
    reads s
    ensures |a| == s.Length1 - x && forall k :: 0 <= k < |a| ==> a[k] == s[y, x + k]
  {
    seq(s.Length1 - x, k requires 0 <= k < s.Length1 - x reads s => s[y, x + k])
  }

  /** One pass of the outer loop of hbox_blur: the pen at column x of row y, the output pen at column ox of row oy. */
  method BlurRow(pen: array2<real>, x: nat, y: nat, w: nat, length: nat, outpen: array2<real>, ox: nat, oy: nat)
    requires pen != outpen && y < pen.Length0 && 1 <= w && x + w <= pen.Length1 && length <= w
    requires oy < outpen.Length0 && ox + w <= outpen.Length1
    modifies outpen
    ensures forall j :: ox <= j < ox + w ==> outpen[oy, j] == Blurred(RowFrom(pen, x, y), w, length, j - ox)
    ensures forall i, j :: 0 <= i < outpen.Length0 && 0 <= j < outpen.Length1 && !(i == oy && ox <= j < ox + w) ==>
      outpen[i, j] == old(outpen[i, j])
  {
    hide Blurred, Window;
    ghost var a := RowFrom(pen, x, y);
    var end := pen.Length1;
    var divisor := Divisor(length);
    var tot := pen[y, x] * (length + 1) as real;
    BeforeLine(a, w, -1 - length);
    var iter, k := x, 0;
    while k < length && iter != end
      invariant 0 <= k <= length && iter == x + k && tot == Window(a, w, -1 - length, k - 1)
      modifies {}
    {
      WindowNext(a, w, -1 - length, k - 1);
      tot := tot + pen[y, iter];
      k, iter := k + 1, iter + 1;
    }
    iter, k := x, 0;
    while k < w && iter != end
      invariant 0 <= k <= w && iter == x + k && tot == Window(a, w, k - length - 1, k + length - 1)
      invariant forall j :: ox <= j < ox + k ==> outpen[oy, j] == Blurred(a, w, length, j - ox)
      invariant forall i, j :: 0 <= i < outpen.Length0 && 0 <= j < outpen.Length1 && !(i == oy && ox <= j < ox + k) ==>
        outpen[i, j] == old(outpen[i, j])
    {
      Slide(a, w, k - length - 1, k + length - 1);
      tot := tot - if k > length then pen[y, iter - length - 1] else pen[y, x];
      tot := tot + if k + length < w then pen[y, iter + length] else pen[y, end - 1];
      BlurredIs(a, w, length, k);
      outpen[oy, ox + k] := tot * divisor;
      k, iter := k + 1, iter + 1;
    }
  }

  lemma WindowNext(a: seq<real>, w: nat, lo: int, hi: int)
    requires 1 <= w <= |a| && lo <= hi + 1
    ensures Window(a, w, lo, hi + 1) == Window(a, w, lo, hi) + Pick(a, w, hi + 1)
  {
  }

  lemma BlurredIs(a: seq<real>, w: nat, length: nat, x: int)
    requires 1 <= w <= |a|
    ensures Blurred(a, w, length, x) == Window(a, w, x - length, x + length) * Divisor(length)
  {
  }

  /** hbox_blur: the spread is length, or the width of the region when that is less. */
  method HboxBlur(pen: array2<real>, x: nat, y: nat, w: nat, h: nat, length: nat, outpen: array2<real>, ox: nat, oy: nat)
    requires pen != outpen && y + h <= pen.Length0 && x + w <= pen.Length1 && (h > 0 ==> 1 <= w)
    requires oy + h <= outpen.Length0 && ox + w <= outpen.Length1
    modifies outpen
    ensures forall i, j :: oy <= i < oy + h && ox <= j < ox + w ==>
      outpen[i, j] == Blurred(RowFrom(pen, x, y + (i - oy)), w, if length <= w then length else w, j - ox)
    ensures forall i, j :: 0 <= i < outpen.Length0 && 0 <= j < outpen.Length1 && !(oy <= i < oy + h && ox <= j < ox + w) ==>
      outpen[i, j] == old(outpen[i, j])
  {
    hide Blurred;
    var length: nat := Min(w, length);
    var row := 0;
    while row < h
      invariant 0 <= row <= h
      invariant forall i, j :: oy <= i < oy + row && ox <= j < ox + w ==>
        outpen[i, j] == Blurred(RowFrom(pen, x, y + (i - oy)), w, length, j - ox)
      invariant forall i, j :: 0 <= i < outpen.Length0 && 0 <= j < outpen.Length1 && !(oy <= i < oy + row && ox <= j < ox + w) ==>
        outpen[i, j] == old(outpen[i, j])
    {
      BlurRow(pen, x, y + row, w, length, outpen, ox, oy + row);
      row := row + 1;
    }
  }

  // ----- Columns -----

  /** The pixels of column x from row y on. */
  ghost function ColumnFrom(s: array2<real>, x: nat, y: nat): (a: seq<real>)
    requires y <= s.Length0 && x < s.Length1
    reads s
    ensures |a| == s.Length0 - y && forall k :: 0 <= k < |a| ==> a[k] == s[y + k, x]
  {
    seq(s.Length0 - y, k requires 0 <= k < s.Length0 - y reads s => s[y + k, x])
  }

  /** One pass of the outer loop of vbox_blur. */
  method BlurColumn(pen: array2<real>, x: nat, y: nat, h: nat, length: nat, outpen: array2<real>, ox: nat, oy: nat)
    requires pen != outpen && x < pen.Length1 && 1 <= h && y + h <= pen.Length0 && length <= h
    requires ox < outpen.Length1 && oy + h <= outpen.Length0
    modifies outpen
    ensures forall i :: oy <= i < oy + h ==> outpen[i, ox] == Blurred(ColumnFrom(pen, x, y), h, length, i - oy)
    ensures forall i, j :: 0 <= i < outpen.Length0 && 0 <= j < outpen.Length1 && !(j == ox && oy <= i < oy + h) ==>
      outpen[i, j] == old(outpen[i, j])
  {
    hide Blurred, Window;
    ghost var a := ColumnFrom(pen, x, y);
    var end := pen.Length0;
    var divisor := Divisor(length);
    var tot := pen[y, x] * (length + 1) as real;
    BeforeLine(a, h, -1 - length);
    var iter, k := y, 0;
    while k < length && iter != end
      invariant 0 <= k <= length && iter == y + k && tot == Window(a, h, -1 - length, k - 1)
      modifies {}
    {
      WindowNext(a, h, -1 - length, k - 1);
      tot := tot + pen[iter, x];
      k, iter := k + 1, iter + 1;
    }
    iter, k := y, 0;
    while k < h && iter != end
      invariant 0 <= k <= h && iter == y + k && tot == Window(a, h, k - length - 1, k + length - 1)
      invariant forall i :: oy <= i < oy + k ==> outpen[i, ox] == Blurred(a, h, length, i - oy)
      invariant forall i, j :: 0 <= i < outpen.Length0 && 0 <= j < outpen.Length1 && !(j == ox && oy <= i < oy + k) ==>
        outpen[i, j] == old(outpen[i, j])
    {
      Slide(a, h, k - length - 1, k + length - 1);
      tot := tot - if k > length then pen[iter - length - 1, x] else pen[y, x];
      tot := tot + if k + length < h then pen[iter + length, x] else pen[end - 1, x];
      BlurredIs(a, h, length, k);
      outpen[oy + k, ox] := tot * divisor;
      k, iter := k + 1, iter + 1;
    }
  }

  /** vbox_blur: the same for columns. */
  method VboxBlur(pen: array2<real>, x: nat, y: nat, w: nat, h: nat, length: nat, outpen: array2<real>, ox: nat, oy: nat)
    requires pen != outpen && y + h <= pen.Length0 && x + w <= pen.Length1 && (w > 0 ==> 1 <= h)
    requires oy + h <= outpen.Length0 && ox + w <= outpen.Length1
    modifies outpen
    ensures forall i, j :: oy <= i < oy + h && ox <= j < ox + w ==>
      outpen[i, j] == Blurred(ColumnFrom(pen, x + (j - ox), y), h, if length <= h then length else h, i - oy)
    ensures forall i, j :: 0 <= i < outpen.Length0 && 0 <= j < outpen.Length1 && !(oy <= i < oy + h && ox <= j < ox + w) ==>
      outpen[i, j] == old(outpen[i, j])
  {
    hide Blurred;
    var length: nat := Min(h, length);
    var column := 0;
    while column < w
      invariant 0 <= column <= w
      invariant forall i, j :: oy <= i < oy + h && ox <= j < ox + column ==>
        outpen[i, j] == Blurred(ColumnFrom(pen, x + (j - ox), y), h, length, i - oy)
      invariant forall i, j :: 0 <= i < outpen.Length0 && 0 <= j < outpen.Length1 && !(oy <= i < oy + h && ox <= j < ox + column) ==>
        outpen[i, j] == old(outpen[i, j])
    {
      BlurColumn(pen, x + column, y, h, length, outpen, ox + column, oy);
      column := column + 1;
    }
  }

  // ----- What the window sum is -----

  /** The nearest position on a line of n pixels. */
  function Clamp(k: int, n: nat): (c: nat)
    requires n >= 1
    ensures c < n
  {
    if k < 0 then 0 else if k < n then k else n - 1
  }

  /** The naive sum: the nearest pixels of the line to the positions from lo to hi. */
  function ClampedSum(a: seq<real>, lo: int, hi: int): real
    requires |a| >= 1
    decreases hi - lo + 1
  {
    if hi < lo then 0.0 else ClampedSum(a, lo, hi - 1) + a[Clamp(hi, |a|)]
  }

  lemma {:induction false} WindowIsClamped(a: seq<real>, w: nat, lo: int, hi: int)
    requires 1 <= w <= |a| && (w == |a| || hi < w)
    ensures Window(a, w, lo, hi) == ClampedSum(a[..w], lo, hi)
    decreases hi - lo + 1
  {
    if lo <= hi {
      WindowIsClamped(a, w, lo, hi - 1);
    }
  }

  ghost predicate Agree(a: seq<real>, w: nat, length: nat, x: nat)
    requires 1 <= w <= |a|
  {
    Window(a, w, x - length, x + length) == ClampedSum(a[..w], x - length, x + length)
  }

  /** Whether the blur of the first w of n pixels is the naive one of that part, whatever the pixels. */
  ghost predicate Naive(n: nat, w: nat, length: nat)
    requires 1 <= w <= n
  {
    forall a: seq<real>, x: nat | |a| == n && x < w :: Agree(a, w, length, x)
  }

  /** It is exactly for a region that ends where the line does, or without any spread: past the region the line's last pixel counts. */
  lemma NaiveIff(n: nat, w: nat, length: nat)
    requires 1 <= w <= n
    ensures Naive(n, w, length) <==> w == n || length == 0
  {
    if w == n || length == 0 {
      forall a: seq<real>, x: nat | |a| == n && x < w
        ensures Agree(a, w, length, x)
      {
        WindowIsClamped(a, w, x - length, x + length);
      }
    } else {
      var a := seq(n, k => if k == n - 1 then 1.0 else 0.0);
      var x: nat := w - 1;
      Lit(a, w, x - length, x + length);
      Dark(a[..w], x - length, x + length);
      assert !Agree(a, w, length, x);
    }
  }

  /** With only the line's last pixel lit, a window past the region is not dark, */
  lemma {:induction false} Lit(a: seq<real>, w: nat, lo: int, hi: int)
    requires 1 <= w < |a| && forall k :: 0 <= k < |a| ==> a[k] == if k == |a| - 1 then 1.0 else 0.0
    ensures Window(a, w, lo, hi) >= if lo <= w <= hi then 1.0 else 0.0
    decreases hi - lo + 1
  {
    if lo <= hi {
      Lit(a, w, lo, hi - 1);
    }
  }

  /** and the naive one is. */
  lemma {:induction false} Dark(a: seq<real>, lo: int, hi: int)
    requires |a| >= 1 && forall k :: 0 <= k < |a| ==> a[k] == 0.0
    ensures ClampedSum(a, lo, hi) == 0.0
    decreases hi - lo + 1
  {
    if lo <= hi {
      Dark(a, lo, hi - 1);
    }
  }

  /** n times p. */
  function Share(p: real, n: int): real {
    p * n as real
  }

  lemma ShareNext(p: real, n: int)
    ensures Share(p, n + 1) == Share(p, n) + p && Share(p, 0) == 0.0
  {
  }

  lemma {:induction false} WindowBetween(a: seq<real>, w: nat, lo: int, hi: int, least: real, most: real)
    requires 1 <= w <= |a| && lo <= hi + 1 && forall k :: 0 <= k < |a| ==> least <= a[k] <= most
    ensures Share(least, hi - lo + 1) <= Window(a, w, lo, hi) <= Share(most, hi - lo + 1)
    decreases hi - lo + 1
  {
    hide Share;
    ShareNext(least, hi - lo);
    ShareNext(most, hi - lo);
    if lo <= hi {
      WindowBetween(a, w, lo, hi - 1, least, most);
      assert hi - 1 - lo + 1 == hi - lo;
    }
  }

  lemma DivisorIs(length: nat)
    ensures Divisor(length) > 0.0 && (length * 2 + 1) as real * Divisor(length) == 1.0
  {
  }

  lemma Scaled(least: real, s: real, most: real, n: real, d: real)
    requires d > 0.0 && n * d == 1.0 && least * n <= s <= most * n
    ensures least <= s * d <= most
  {
    Shrunk(least, s, n, d);
    Shrunk(0.0 - most, 0.0 - s, n, d);
  }

  lemma Shrunk(p: real, s: real, n: real, d: real)
    requires d > 0.0 && n * d == 1.0 && p * n <= s
    ensures p <= s * d
  {
    assert (s - p * n) * d >= 0.0;
    assert p * n * d == p * (n * d);
  }

  /** A blurred pixel lies between the darkest and the brightest of the line; a line of one brightness stays as it is. */
  lemma BlurBetween(a: seq<real>, w: nat, length: nat, x: int, least: real, most: real)
    requires 1 <= w <= |a| && forall k :: 0 <= k < |a| ==> least <= a[k] <= most
    ensures least <= Blurred(a, w, length, x) <= most
  {
    WindowBetween(a, w, x - length, x + length, least, most);
    DivisorIs(length);
    hide Window, Divisor;
    Scaled(least, Window(a, w, x - length, x + length), most, (length * 2 + 1) as real, Divisor(length));
  }
}
