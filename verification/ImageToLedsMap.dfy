/** The mapping object: built once per image size and border, then used to average pixels per led. */
module ImageToLedsMaps {
  import opened Colors
  import opened Sequences
  import opened Images
  import opened LedsMapGeometry

  function Sum(img: Image, indices: seq<nat>, ch: Channel): nat
    requires forall i | 0 <= i < |indices| :: indices[i] < |img.pixels|
  {
    if indices == [] then 0
    else Sum(img, indices[..|indices|-1], ch) + Get(img.pixels[indices[|indices|-1]], ch)
  }

  /// c is the mean of the listed pixels, rounded down per channel; black for an empty list.
  ghost predicate IsMean(img: Image, indices: seq<nat>, c: Color)
    requires forall i | 0 <= i < |indices| :: indices[i] < |img.pixels|
  {
    if indices == [] then c == BLACK
    else forall ch :: Get(c, ch) == Sum(img, indices, ch) / |indices|
  }

  /** The sum of one pixel is its channel, and sums add up over lists: so every listed pixel counts once. */
  lemma SumOfOne(img: Image, p: nat, ch: Channel)
    requires p < |img.pixels|
    ensures Sum(img, [p], ch) == Get(img.pixels[p], ch)
  {
    var one: seq<nat> := [p];
    assert one[..0] == [] && Sum(img, one[..0], ch) == 0;
  }

  lemma {:induction false} SumConcat(img: Image, a: seq<nat>, b: seq<nat>, ch: Channel)
    requires forall i | 0 <= i < |a| :: a[i] < |img.pixels|
    requires forall i | 0 <= i < |b| :: b[i] < |img.pixels|
    ensures Sum(img, a + b, ch) == Sum(img, a, ch) + Sum(img, b, ch)
    decreases |b|
  {
    if b == [] {
      assert a + b == a;
    } else {
      var n := |b| - 1;
      assert (a + b)[..|a + b| - 1] == a + b[..n];
      SumConcat(img, a, b[..n], ch);
    }
  }

  /** Each channel of a mean, times the number of pixels, is at most the sum and within one of it per pixel. */
  lemma MeanExactly(img: Image, indices: seq<nat>, c: Color, ch: Channel)
    requires forall i | 0 <= i < |indices| :: indices[i] < |img.pixels|
    requires indices != [] && IsMean(img, indices, c)
    ensures Get(c, ch) * |indices| <= Sum(img, indices, ch) < Get(c, ch) * |indices| + |indices|
  {
    QuotientBounds(Sum(img, indices, ch), |indices|);
  }

  lemma QuotientBounds(s: nat, n: nat)
    requires n > 0
    ensures s / n * n <= s < s / n * n + n
  {}

  lemma OneMore(lo: nat, hi: nat, n: nat, s: nat, v: nat)
    requires lo * n <= s <= hi * n && lo <= v <= hi
    ensures lo * (n + 1) <= s + v <= hi * (n + 1)
  {
    assert lo * (n + 1) == lo * n + lo && hi * (n + 1) == hi * n + hi;
  }

  /** The mean lies between any bounds on the pixels, so it fits a byte. */
  lemma {:induction false} SumBounds(img: Image, indices: seq<nat>, ch: Channel, lo: nat, hi: nat)
    requires forall i | 0 <= i < |indices| :: indices[i] < |img.pixels| && lo <= Get(img.pixels[indices[i]], ch) <= hi
    ensures lo * |indices| <= Sum(img, indices, ch) <= hi * |indices|
    decreases |indices|
  {
    if indices != [] {
      var n := |indices| - 1;
      SumBounds(img, indices[..n], ch, lo, hi);
      var v := Get(img.pixels[indices[n]], ch);
      OneMore(lo, hi, n, Sum(img, indices[..n], ch), v);
    }
  }

  lemma DivideBounds(s: nat, n: nat, lo: nat, hi: nat)
    requires 0 < n && lo * n <= s <= hi * n
    ensures lo <= s / n <= hi
  {
    var q := s / n;
    assert q * n <= s < (q + 1) * n;
    RowsAscend(n, hi);
    if q > hi { MulMonotone(hi + 1, q, n); }
    if q < lo { MulMonotone(q + 1, lo, n); }
  }

  lemma MeanBetween(img: Image, indices: seq<nat>, c: Color, ch: Channel, lo: nat, hi: nat)
    requires forall i | 0 <= i < |indices| :: indices[i] < |img.pixels| && lo <= Get(img.pixels[indices[i]], ch) <= hi
    requires indices != [] && IsMean(img, indices, c)
    ensures lo <= Get(c, ch) <= hi
  {
    SumBounds(img, indices, ch, lo, hi);
    DivideBounds(Sum(img, indices, ch), |indices|, lo, hi);
  }

  class ImageToLedsMap {
    const b: Bounds
    var colorsMap: seq<seq<nat>>

    ghost predicate Valid(leds: seq<Led>)
      reads this
    {
      && b.Ok() && (forall l | l in leds :: ValidLed(l))
      && colorsMap == AllIndices(b, leds)
    }

    constructor (width: nat, height: nat, horizontalBorder: nat, verticalBorder: nat, leds: seq<Led>)
      requires width > 2 * verticalBorder && height > 2 * horizontalBorder
      requires forall l | l in leds :: ValidLed(l)
      ensures b == Bounds(width, height, horizontalBorder, verticalBorder) && Valid(leds)
    {
      b := Bounds(width, height, horizontalBorder, verticalBorder);
      colorsMap := [];
      new;
      for n := 0 to |leds|
        invariant |colorsMap| == n
        invariant forall i | 0 <= i < n :: colorsMap[i] == LedIndices(b, leds[i])
      {
        assert leds[n] in leds;
        var ledColors := IndicesOf(b, leds[n]);
        colorsMap := colorsMap + [ledColors];
      }
    }

    /// The body of the led loop: skip leds without area, else collect the clamped rectangle.
    static method IndicesOf(b: Bounds, led: Led) returns (ledColors: seq<nat>)
      requires b.Ok() && ValidLed(led)
      ensures ledColors == LedIndices(b, led)
    {
      var xOffset, yOffset := b.verticalBorder, b.horizontalBorder;
      var actualWidth: nat := b.width - 2 * b.verticalBorder;
      var actualHeight: nat := b.height - 2 * b.horizontalBorder;
      if led.maxX - led.minX < AREA_MIN || led.maxY - led.minY < AREA_MIN {
        return [];
      }
      SpanOnAxis(actualWidth, led.minX, led.maxX);
      SpanOnAxis(actualHeight, led.minY, led.maxY);
      var minX, maxX := ClampSpan(xOffset, actualWidth, led.minX, led.maxX);
      var minY, maxY := ClampSpan(yOffset, actualHeight, led.minY, led.maxY);
      ledColors := CollectIndices(b.width, minY, maxY, yOffset + actualHeight, minX, maxX, xOffset + actualWidth);
    }

    /// The index boundaries of one axis, at least one pixel wide.
    static method ClampSpan(offset: nat, actual: nat, lo: real, hi: real) returns (minIdx: nat, maxIdx: nat)
      requires actual > 0 && 0.0 <= lo <= hi <= 1.0
      ensures minIdx == offset + Lower(actual, lo) && maxIdx == offset + Upper(actual, lo, hi)
    {
      RoundAt(actual, lo);
      RoundAt(actual, hi);
      minIdx := offset + Round(actual as real * lo);
      maxIdx := offset + Round(actual as real * hi);
      minIdx := Min(minIdx, offset + actual - 1);
      if minIdx == maxIdx {
        maxIdx := minIdx + 1;
      }
    }

    /// All indices of the rectangle, row by row; both loops also stop at the image's inner edge.
    static method CollectIndices(width: nat, minY: nat, maxY: nat, yEdge: nat, minX: nat, maxX: nat, xEdge: nat)
      returns (ledColors: seq<nat>)
      requires minX < maxX <= xEdge && minY < maxY <= yEdge
      ensures ledColors == RectIndices(width, minY, maxY, minX, maxX)
    {
      ledColors := [];
      ghost var all := RectIndices(width, minY, maxY, minX, maxX);
      var y := minY;
      while y < maxY && y < yEdge
        invariant minY <= y <= maxY
        invariant ledColors + RectIndices(width, y, maxY, minX, maxX) == all
      {
        RowTaken(ledColors, RowIndices(width, y, minX, maxX), RectIndices(width, y + 1, maxY, minX, maxX), all);
        ledColors := CollectRow(ledColors, width, y, minX, maxX, xEdge);
        y := y + 1;
      }
    }

    static lemma RowTaken(done: seq<nat>, row: seq<nat>, rest: seq<nat>, all: seq<nat>)
      requires done + (row + rest) == all
      ensures (done + row) + rest == all
    {
      Assoc(done, row, rest);
    }

    /// The inner loop: the indices of row y are appended.
    static method CollectRow(before: seq<nat>, width: nat, y: nat, minX: nat, maxX: nat, xEdge: nat)
      returns (ledColors: seq<nat>)
      requires minX < maxX <= xEdge
      ensures ledColors == before + RowIndices(width, y, minX, maxX)
    {
      ledColors := before;
      var x := minX;
      while x < maxX && x < xEdge
        invariant minX <= x <= maxX
        invariant ledColors + RowIndices(width, y, x, maxX) == before + RowIndices(width, y, minX, maxX)
      {
        Assoc(ledColors, [y * width + x], RowIndices(width, y, x + 1, maxX));
        ledColors := ledColors + [y * width + x];
        x := x + 1;
      }
    }

    /// Mean colour of the listed pixels.
    static method CalcMeanColor(image: Image, colors: seq<nat>) returns (c: Color)
      requires forall i | 0 <= i < |colors| :: colors[i] < |image.pixels|
      ensures IsMean(image, colors, c)
    {
      if |colors| == 0 { return BLACK; }
      var cummRed, cummGreen, cummBlue := 0, 0, 0;
      for i := 0 to |colors|
        invariant cummRed == Sum(image, colors[..i], Red)
        invariant cummGreen == Sum(image, colors[..i], Green)
        invariant cummBlue == Sum(image, colors[..i], Blue)
      {
        assert colors[..i+1][..i] == colors[..i];
        var pixel := image.pixels[colors[i]];
        cummRed := cummRed + pixel.red;
        cummGreen := cummGreen + pixel.green;
        cummBlue := cummBlue + pixel.blue;
      }
      assert colors[..|colors|] == colors;
      MeanInByte(image, colors, Red);
      MeanInByte(image, colors, Green);
      MeanInByte(image, colors, Blue);
      c := Color(cummRed / |colors|, cummGreen / |colors|, cummBlue / |colors|);
    }

    static lemma MeanInByte(image: Image, colors: seq<nat>, ch: Channel)
      requires colors != [] && forall i | 0 <= i < |colors| :: colors[i] < |image.pixels|
      ensures 0 <= Sum(image, colors, ch) / |colors| < 256
    {
      SumBounds(image, colors, ch, 0, 255);
      DivideBounds(Sum(image, colors, ch), |colors|, 0, 255);
    }

    /// One mean per led, written into ledColors.
    method GetMeanLedColor(image: Image, ledColors: array<Color>, ghost leds: seq<Led>)
      requires Valid(leds) && image.Valid() && image.width == b.width && image.height == b.height
      requires ledColors.Length == |leds|
      modifies ledColors
      ensures forall i, k | 0 <= i < |leds| && 0 <= k < |colorsMap[i]| :: colorsMap[i][k] < |image.pixels|
      ensures forall i | 0 <= i < |leds| :: IsMean(image, colorsMap[i], ledColors[i])
    {
      AllIndicesInImage(b, leds);
      for n := 0 to |colorsMap|
        invariant forall i | 0 <= i < n :: IsMean(image, colorsMap[i], ledColors[i])
      {
        var color := CalcMeanColor(image, colorsMap[n]);
        ledColors[n] := color;
      }
    }

    /// The mean of the whole image for every led.
    method GetUniLedColor(image: Image, ledColors: array<Color>)
      requires image.Valid()
      modifies ledColors
      ensures forall i | 0 <= i < ledColors.Length :: IsMean(image, seq(|image.pixels|, k => k), ledColors[i])
    {
      var all: seq<nat> := seq(|image.pixels|, k => k);
      var color := CalcMeanColor(image, all);
      for i := 0 to ledColors.Length
        invariant forall j | 0 <= j < i :: ledColors[j] == color
      {
        ledColors[i] := color;
      }
    }
  }
}
