/** The proportion bar that `drawBarChart` rasterises: a 300 x 5 canvas filled
    with a background colour, foreground segments stacked left to right with
    widths proportional to their lengths, and vertical gridlines on top.

    The canvas is an `array2<Colour>` indexed `[x, y]`; the servlet's
    `Graphics2D` calls are replaced by the two drawing methods below. */
module BarChart {
  import Decimal

  /** A colour as the request carries it: six hex digits without the `#`. */
  type Colour = string

  const Width: int := 300
  const Height: int := 5
  /** The colour of the gridlines. */
  const GridColour: Colour := "666666"
  /** A new `TYPE_INT_RGB` image is black before anything is drawn. */
  const Black: Colour := "000000"

  function Min(a: int, b: int): int { if a <= b then a else b }
  function Max(a: int, b: int): int { if a <= b then b else a }

  /** Pixel (x, y) lies in the rectangle `fillRect(left, top, w, h)` covers;
      a rectangle of negative width or height covers nothing. */
  predicate InRect(left: int, top: int, w: int, h: int, x: int, y: int) {
    left <= x < left + w && top <= y < top + h
  }

  /** Fills the part of the rectangle that lies on the canvas with `c`. */
  method FillRect(img: array2<Colour>, left: int, top: int, w: int, h: int, c: Colour)
    modifies img
    ensures forall x, y :: 0 <= x < img.Length0 && 0 <= y < img.Length1 ==>
      img[x, y] == if InRect(left, top, w, h, x, y) then c else old(img[x, y])
  {
    var x0, x1 := Max(left, 0), Min(left + w, img.Length0);
    var y0, y1 := Max(top, 0), Min(top + h, img.Length1);
    var x := x0;
    while x < x1
      invariant x0 <= x <= Max(x0, x1)
      invariant forall i, j :: 0 <= i < img.Length0 && 0 <= j < img.Length1 ==>
        img[i, j] == if x0 <= i < x && y0 <= j < y1 then c else old(img[i, j])
    {
      var y := y0;
      while y < y1
        invariant y0 <= y <= Max(y0, y1)
        invariant forall i, j :: 0 <= i < img.Length0 && 0 <= j < img.Length1 ==>
          img[i, j] == if (x0 <= i < x && y0 <= j < y1) || (i == x && y0 <= j < y) then c else old(img[i, j])
      {
        img[x, y] := c;
        y := y + 1;
      }
      x := x + 1;
    }
  }

  /** `drawLine(x, top, x, bottom)` with a one-pixel pen: both end points and
      every pixel between them, as far as they lie on the canvas. The servlet
      draws vertical lines only. */
  method DrawVerticalLine(img: array2<Colour>, x: int, top: int, bottom: int, c: Colour)
    modifies img
    ensures forall i, j :: 0 <= i < img.Length0 && 0 <= j < img.Length1 ==>
      img[i, j] == if i == x && Min(top, bottom) <= j <= Max(top, bottom) then c else old(img[i, j])
  {
    if 0 <= x < img.Length0 {
      var y0, y1 := Max(Min(top, bottom), 0), Min(Max(top, bottom) + 1, img.Length1);
      var y := y0;
      while y < y1
        invariant y0 <= y <= Max(y0, y1)
        invariant forall i, j :: 0 <= i < img.Length0 && 0 <= j < img.Length1 ==>
          img[i, j] == if i == x && y0 <= j < y then c else old(img[i, j])
      {
        img[x, y] := c;
        y := y + 1;
      }
    }
  }

  /** Width in pixels of foreground segment `i` (i >= 1): `width * length / fullLength`,
      truncated; with non-negative operands Dafny's `/` is Java's. */
  function SegmentWidth(lengths: seq<int>, i: nat): int
    requires 1 <= i < |lengths| && lengths[0] > 0
  {
    Width * lengths[i] / lengths[0]
  }

  /** The running offset `left` when foreground segment `i` is drawn: the sum
      of the widths of segments 1 .. i-1. */
  function Offset(lengths: seq<int>, i: nat): int
    requires 1 <= i <= |lengths| && (i > 1 ==> lengths[0] > 0)
    decreases i
  {
    if i == 1 then 0 else Offset(lengths, i - 1) + SegmentWidth(lengths, i - 1)
  }

  /** Sum of the foreground lengths of segments 1 .. i-1. */
  function ForegroundSum(lengths: seq<int>, i: nat): int
    requires 1 <= i <= |lengths|
    decreases i
  {
    if i == 1 then 0 else ForegroundSum(lengths, i - 1) + lengths[i - 1]
  }

  /** Lengths every one of which is non-negative, with a positive first length
      whenever there is a foreground segment to divide by it. */
  predicate Proportions(lengths: seq<int>, n: nat) {
    1 <= n <= |lengths| &&
    (forall i :: 0 <= i < n ==> 0 <= lengths[i]) &&
    (n > 1 ==> lengths[0] > 0)
  }

  /** What `drawBarChart` needs to run without an exception and without
      overflowing a Java `int` in a value it uses: at least one colour, a
      length for every colour, proportions as above, `width * length` in range
      for every foreground length (the first length is only divided by),
      `i * width` in range for every gridline index i < d, and the offset of the
      last segment drawn in range. The offset computed after the last segment
      is never read, so it may overflow. */
  predicate Drawable(colors: seq<Colour>, lengths: seq<int>, d: int) {
    Proportions(lengths, |colors|) &&
    (forall i :: 1 <= i < |colors| ==> lengths[i] <= Decimal.MaxInt / Width) &&
    d - 1 <= Decimal.MaxInt / Width &&
    (|colors| > 1 ==> Offset(lengths, |colors| - 1) <= Decimal.MaxInt)
  }

  /** Colour of pixel (x, y) once the background and foreground segments
      1 .. k-1 have been drawn. */
  function Painted(colors: seq<Colour>, lengths: seq<int>, k: nat, x: int, y: int): Colour
    requires 1 <= k <= |colors| <= |lengths| && (k > 1 ==> lengths[0] > 0)
    decreases k
  {
    if k == 1 then colors[0]
    else if InRect(Offset(lengths, k - 1), 0, SegmentWidth(lengths, k - 1), Height - 1, x, y) then colors[k - 1]
    else Painted(colors, lengths, k - 1, x, y)
  }

  /** The x positions of the gridlines, in drawing order: `i * width / d` for
      `i = 0 .. d-1`, none when `d <= 0`. */
  function GridLines(d: int): seq<int> {
    if d <= 0 then [] else seq(d, i requires 0 <= i < d => i * Width / d)
  }

  /** Colour of pixel (x, y) of the finished chart. */
  function ChartPixel(colors: seq<Colour>, lengths: seq<int>, d: int, x: int, y: int): Colour
    requires 1 <= |colors| <= |lengths| && (|colors| > 1 ==> lengths[0] > 0)
  {
    if x in GridLines(d) && 0 <= y < Height then GridColour
    else Painted(colors, lengths, |colors|, x, y)
  }

  lemma {:induction false} SegmentWidthBounds(lengths: seq<int>, i: nat)
    requires Proportions(lengths, i + 1) && i >= 1
    ensures 0 <= SegmentWidth(lengths, i)
    ensures SegmentWidth(lengths, i) * lengths[0] <= Width * lengths[i]
    ensures Width * lengths[i] - SegmentWidth(lengths, i) * lengths[0] < lengths[0]
  {
    var a, b := Width * lengths[i], lengths[0];
    assert a == (a / b) * b + a % b;
  }

  /** Segments abut: segment i starts where segment i-1 ended, and every later
      segment starts at or after the end of segment i, so no two overlap. */
  lemma {:induction false} SegmentsAbut(lengths: seq<int>, n: nat, i: nat, j: nat)
    requires Proportions(lengths, n)
    requires 1 <= i < j <= n
    ensures Offset(lengths, i + 1) == Offset(lengths, i) + SegmentWidth(lengths, i)
    ensures Offset(lengths, i) + SegmentWidth(lengths, i) <= Offset(lengths, j)
    decreases j
  {
    if j > i + 1 {
      SegmentsAbut(lengths, n, i, j - 1);
      SegmentWidthBounds(lengths, j - 1);
    }
  }

  /** The running offset never decreases, and never goes below 0. */
  lemma {:induction false} OffsetMonotone(lengths: seq<int>, n: nat, i: nat, j: nat)
    requires Proportions(lengths, n)
    requires 1 <= i <= j <= n
    ensures 0 <= Offset(lengths, i) <= Offset(lengths, j)
    decreases j
  {
    if j > i {
      OffsetMonotone(lengths, n, i, j - 1);
      SegmentWidthBounds(lengths, j - 1);
    } else if i > 1 {
      OffsetMonotone(lengths, n, 1, i - 1);
      OffsetMonotone(lengths, n, i - 1, i - 1);
      SegmentWidthBounds(lengths, i - 1);
      assert Offset(lengths, i) == Offset(lengths, i - 1) + SegmentWidth(lengths, i - 1);
    }
  }

  /** Each truncation loses less than one pixel: scaled by the denominator,
      the offset is the exact proportional width minus a rounding loss of at
      most `fullLength - 1` per segment. */
  lemma {:induction false} OffsetRounding(lengths: seq<int>, k: nat)
    requires Proportions(lengths, k) && lengths[0] > 0
    ensures 0 <= Width * ForegroundSum(lengths, k) - Offset(lengths, k) * lengths[0]
                <= (k - 1) * (lengths[0] - 1)
    decreases k
  {
    if k > 1 {
      OffsetRounding(lengths, k - 1);
      SegmentWidthBounds(lengths, k - 1);
      var L := lengths[0];
      calc {
        Width * ForegroundSum(lengths, k) - Offset(lengths, k) * L;
        (Width * ForegroundSum(lengths, k - 1) - Offset(lengths, k - 1) * L)
          + (Width * lengths[k - 1] - SegmentWidth(lengths, k - 1) * L);
      }
      assert (k - 1) * (L - 1) == (k - 2) * (L - 1) + (L - 1);
    }
  }

  /** When the foreground lengths add up to at most the first length, the
      segments end within the canvas. */
  lemma FinalOffsetFits(lengths: seq<int>, n: nat)
    requires Proportions(lengths, n) && lengths[0] > 0
    requires ForegroundSum(lengths, n) <= lengths[0]
    ensures Offset(lengths, n) <= Width
  {
    OffsetRounding(lengths, n);
    var L := lengths[0];
    assert Offset(lengths, n) * L <= Width * L by {
      assert Width * ForegroundSum(lengths, n) <= Width * L;
    }
  }

  /** After segments 1 .. k-1, a pixel inside segment i (i < k) shows that
      segment's colour: no later segment draws over it. */
  lemma {:induction false} SegmentVisibleAfter(colors: seq<Colour>, lengths: seq<int>, k: nat, i: nat, x: int, y: int)
    requires |colors| <= |lengths| && Proportions(lengths, |colors|)
    requires 1 <= i < k <= |colors|
    requires InRect(Offset(lengths, i), 0, SegmentWidth(lengths, i), Height - 1, x, y)
    ensures Painted(colors, lengths, k, x, y) == colors[i]
    decreases k
  {
    if k > i + 1 {
      SegmentsAbut(lengths, |colors|, i, k - 1);
      SegmentVisibleAfter(colors, lengths, k - 1, i, x, y);
    }
  }

  /** After segments 1 .. k-1, a pixel that none of them covers (left of the
      bar, right of the last segment's end, or outside rows 0 .. height-2)
      still has the background colour. */
  lemma {:induction false} UncoveredIsBackground(colors: seq<Colour>, lengths: seq<int>, k: nat, x: int, y: int)
    requires |colors| <= |lengths| && Proportions(lengths, |colors|)
    requires 1 <= k <= |colors|
    requires x < 0 || x >= Offset(lengths, k) || !(0 <= y < Height - 1)
    ensures Painted(colors, lengths, k, x, y) == colors[0]
    decreases k
  {
    if k > 1 {
      OffsetMonotone(lengths, |colors|, 1, k - 1);
      SegmentsAbut(lengths, |colors|, k - 1, k);
      UncoveredIsBackground(colors, lengths, k - 1, x, y);
    }
  }

  /** The finished chart: a pixel of foreground segment i shows colors[i]
      unless a gridline runs through it. */
  lemma SegmentPixel(colors: seq<Colour>, lengths: seq<int>, d: int, i: nat, x: int, y: int)
    requires |colors| <= |lengths| && Proportions(lengths, |colors|)
    requires 1 <= i < |colors|
    requires InRect(Offset(lengths, i), 0, SegmentWidth(lengths, i), Height - 1, x, y)
    ensures ChartPixel(colors, lengths, d, x, y) == if x in GridLines(d) then GridColour else colors[i]
  {
    SegmentVisibleAfter(colors, lengths, |colors|, i, x, y);
  }

  /** Foreground rectangles stop one row short of the bottom, so every
      bottom-row pixel is either background or gridline. */
  lemma BottomRow(colors: seq<Colour>, lengths: seq<int>, d: int, x: int)
    requires |colors| <= |lengths| && Proportions(lengths, |colors|)
    ensures ChartPixel(colors, lengths, d, x, Height - 1) == if x in GridLines(d) then GridColour else colors[0]
  {
    UncoveredIsBackground(colors, lengths, |colors|, x, Height - 1);
  }

  lemma DivMonotone(a: int, b: int, d: int)
    requires 0 <= a <= b && d > 0
    ensures a / d <= b / d
  {
    var qa, qb := a / d, b / d;
    assert qa * d <= a by { assert a == qa * d + a % d; }
    assert b < qb * d + d by { assert b == qb * d + b % d; }
    assert (qb + 1 - qa) * d > 0 by {
      assert (qb + 1 - qa) * d == qb * d + d - qa * d;
    }
    PositiveFactor(qb + 1 - qa, d);
  }

  lemma PositiveFactor(x: int, d: int)
    requires d > 0 && x * d > 0
    ensures x > 0
  {
  }

  /** Exactly d gridlines for d > 0 and none otherwise; the first at x = 0,
      all on the canvas, in non-decreasing order. */
  lemma GridLinesShape(d: int)
    ensures |GridLines(d)| == Max(d, 0)
    ensures d > 0 ==> GridLines(d)[0] == 0
    ensures forall i :: 0 <= i < |GridLines(d)| ==> GridLines(d)[i] == i * Width / d
    ensures forall i :: 0 <= i < |GridLines(d)| ==> 0 <= GridLines(d)[i] < Width
    ensures forall i, j :: 0 <= i <= j < |GridLines(d)| ==> GridLines(d)[i] <= GridLines(d)[j]
  {
    if d > 0 {
      var g := GridLines(d);
      forall i | 0 <= i < d
        ensures 0 <= g[i] < Width
      {
        assert g[i] == i * Width / d;
        assert i * Width < d * Width;
        assert (i * Width) / d * d <= i * Width by {
          assert i * Width == (i * Width) / d * d + (i * Width) % d;
        }
      }
      forall i, j | 0 <= i <= j < d
        ensures g[i] <= g[j]
      {
        DivMonotone(i * Width, j * Width, d);
      }
    }
  }

  /** drawBarChart: fill the canvas with the first colour, draw foreground
      segment i as a rectangle `width * l[i] / l[0]` pixels wide and
      `height - 1` tall at the running offset, then draw `d` full-height
      gridlines at `x = i * width / d`. */
  method DrawBarChart(colors: seq<Colour>, lengths: seq<int>, d: int) returns (img: array2<Colour>)
    requires Drawable(colors, lengths, d)
    ensures fresh(img) && img.Length0 == Width && img.Length1 == Height
    ensures forall x, y :: 0 <= x < Width && 0 <= y < Height ==>
      img[x, y] == ChartPixel(colors, lengths, d, x, y)
  {
    img := new Colour[Width, Height]((x, y) => Black);
    FillRect(img, 0, 0, Width, Height, colors[0]);

    var fullLength := lengths[0];
    var left := 0;
    var pixels := 0;
    var i := 1;
    while i < |colors|
      invariant 1 <= i <= |colors|
      invariant left == Offset(lengths, i) && 0 <= left
      invariant i < |colors| ==> left <= Decimal.MaxInt
      invariant forall x, y :: 0 <= x < Width && 0 <= y < Height ==>
        img[x, y] == Painted(colors, lengths, i, x, y)
    {
      var length := lengths[i];
      assert 0 <= Width * length <= Decimal.MaxInt;
      pixels := Width * length / fullLength;
      FillRect(img, left, 0, pixels, Height - 1, colors[i]);
      if i + 1 < |colors| {
        OffsetMonotone(lengths, |colors|, i + 1, |colors| - 1);
      } else {
        OffsetMonotone(lengths, |colors|, i + 1, |colors|);
      }
      left := left + pixels;
      i := i + 1;
    }

    GridLinesShape(d);
    var k := 0;
    while k < d
      invariant 0 <= k <= |GridLines(d)|
      invariant forall x, y :: 0 <= x < Width && 0 <= y < Height ==>
        img[x, y] == if x in GridLines(d)[..k] then GridColour else Painted(colors, lengths, |colors|, x, y)
    {
      assert k * Width <= Decimal.MaxInt;
      var x := k * Width / d;
      DrawVerticalLine(img, x, 0, Height - 1, GridColour);
      assert GridLines(d)[..k + 1] == GridLines(d)[..k] + [x];
      k := k + 1;
    }
    assert GridLines(d)[..k] == GridLines(d);
  }
}
