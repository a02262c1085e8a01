/** Which pixels of an image feed which led: rounding, clamping and the pixel index lists. */
module LedsMapGeometry {
  import opened Colors

  /// The part of the picture, as fractions of both axes, that one led shows.
  datatype Led = Led(minX: real, maxX: real, minY: real, maxY: real)

  /// Fractions are clamped to [0, 1] and put in order when the configuration is read.
  predicate ValidLed(l: Led) {
    0.0 <= l.minX <= l.maxX <= 1.0 && 0.0 <= l.minY <= l.maxY <= 1.0
  }

  const AREA_MIN: real := 0.000001

  predicate HasArea(l: Led) {
    !(l.maxX - l.minX < AREA_MIN || l.maxY - l.minY < AREA_MIN)
  }

  datatype Bounds = Bounds(width: nat, height: nat, horizontalBorder: nat, verticalBorder: nat) {
    /// The two sanity checks on entry.
    predicate Ok() { width > 2 * verticalBorder && height > 2 * horizontalBorder }
    function ActualWidth(): nat requires Ok() { width - 2 * verticalBorder }
    function ActualHeight(): nat requires Ok() { height - 2 * horizontalBorder }
  }

  /// Nearest integer, halves away from zero (std::round).
  function Round(x: real): int { if x >= 0.0 then (x + 0.5).Floor else -((-x + 0.5).Floor) }

  /// First and one-past-last position of the span [lo, hi] of an axis with `actual` pixels.
  function Lower(actual: nat, lo: real): int { Min(Round(actual as real * lo), actual - 1) }
  function Upper(actual: nat, lo: real, hi: real): int {
    var u := Round(actual as real * hi);
    if Lower(actual, lo) == u then u + 1 else u
  }

  lemma ScaleMonotone(actual: nat, lo: real, hi: real)
    requires lo <= hi
    ensures actual as real * lo <= actual as real * hi
  {}

  lemma RoundMonotone(x: real, y: real)
    requires x <= y
    ensures Round(x) <= Round(y)
  {}

  lemma RoundAt(actual: nat, f: real)
    requires 0.0 <= f <= 1.0
    ensures 0 <= Round(actual as real * f) <= actual
  {
    var a := actual as real;
    var p := a * f;
    ScaleToUnit(a, f);
    assert Round(0.0) == 0 && Round(a) == actual;
    RoundMonotone(0.0, p);
    RoundMonotone(p, a);
  }

  lemma ScaleToUnit(a: real, f: real)
    requires 0.0 <= a && 0.0 <= f <= 1.0
    ensures 0.0 <= a * f <= a
  {}

  /** A span of an axis always keeps at least one pixel and stays on the axis. */
  lemma SpanOnAxis(actual: nat, lo: real, hi: real)
    requires actual > 0 && 0.0 <= lo <= hi <= 1.0
    ensures 0 <= Lower(actual, lo) < Upper(actual, lo, hi) <= actual
  {
    RoundAt(actual, lo);
    RoundAt(actual, hi);
    ScaleMonotone(actual, lo, hi);
    RoundMonotone(actual as real * lo, actual as real * hi);
  }

  /// i is the pixel edge nearest to x; halves go up.
  predicate Nearest(i: int, x: real) { i as real - 0.5 <= x < i as real + 0.5 }

  lemma RoundIsNearest(x: real)
    requires 0.0 <= x
    ensures Nearest(Round(x), x)
  {}

  /** Both edges of a span are the nearest pixel edges, but for a span that would be empty: it is one pixel wide,
      and the last pixel at most. */
  lemma SpanIsNearest(actual: nat, lo: real, hi: real)
    requires actual > 0 && 0.0 <= lo <= hi <= 1.0
    ensures var l, u := Lower(actual, lo), Upper(actual, lo, hi);
            && (Nearest(l, actual as real * lo) || (l == actual - 1 && Nearest(actual, actual as real * lo)))
            && (Nearest(u, actual as real * hi) || (u == l + 1 && Nearest(l, actual as real * hi)))
  {
    RoundAt(actual, lo);
    RoundAt(actual, hi);
    ScaleMonotone(actual, lo, hi);
    RoundMonotone(actual as real * lo, actual as real * hi);
    ScaleToUnit(actual as real, lo);
    ScaleToUnit(actual as real, hi);
    RoundIsNearest(actual as real * lo);
    RoundIsNearest(actual as real * hi);
  }

  // ----- index lists -----

  function RowIndices(width: nat, y: nat, x: nat, xEnd: int): seq<nat>
    decreases xEnd - x
  {
    if x >= xEnd then [] else [y * width + x] + RowIndices(width, y, x + 1, xEnd)
  }

  function RectIndices(width: nat, y: nat, yEnd: int, x: nat, xEnd: int): seq<nat>
    decreases yEnd - y
  {
    if y >= yEnd then [] else RowIndices(width, y, x, xEnd) + RectIndices(width, y + 1, yEnd, x, xEnd)
  }

  /// The pixels of led l: its clamped rectangle, row by row.
  function LedIndices(b: Bounds, l: Led): seq<nat>
    requires b.Ok() && ValidLed(l)
  {
    if !HasArea(l) then [] else
      var aw, ah := b.ActualWidth(), b.ActualHeight();
      SpanOnAxis(aw, l.minX, l.maxX);
      SpanOnAxis(ah, l.minY, l.maxY);
      RectIndices(b.width,
        b.horizontalBorder + Lower(ah, l.minY), b.horizontalBorder + Upper(ah, l.minY, l.maxY),
        b.verticalBorder + Lower(aw, l.minX), b.verticalBorder + Upper(aw, l.minX, l.maxX))
  }

  function AllIndices(b: Bounds, leds: seq<Led>): seq<seq<nat>>
    requires b.Ok() && forall l | l in leds :: ValidLed(l)
  {
    seq(|leds|, i requires 0 <= i < |leds| => LedIndices(b, leds[i]))
  }

  /// Pixel (x, y) belongs to the rectangle of led l.
  predicate Covers(b: Bounds, l: Led, x: nat, y: nat)
    requires b.Ok() && ValidLed(l)
  {
    var aw, ah := b.ActualWidth(), b.ActualHeight();
    && HasArea(l)
    && Lower(aw, l.minX) <= x - b.verticalBorder < Upper(aw, l.minX, l.maxX)
    && Lower(ah, l.minY) <= y - b.horizontalBorder < Upper(ah, l.minY, l.maxY)
  }

  ghost predicate StrictlyIncreasing(s: seq<nat>) { forall i, j | 0 <= i < j < |s| :: s[i] < s[j] }

  lemma {:induction false} RowAt(width: nat, y: nat, x: nat, xEnd: int, k: nat)
    requires x <= xEnd && k < xEnd - x
    ensures |RowIndices(width, y, x, xEnd)| == xEnd - x && RowIndices(width, y, x, xEnd)[k] == y * width + x + k
    decreases xEnd - x
  {
    if x + 1 < xEnd { RowAt(width, y, x + 1, xEnd, if k > 0 then k - 1 else 0); }
  }

  /** A row of a rectangle lists its pixels from left to right, without gaps. */
  lemma RowShape(width: nat, y: nat, x: nat, xEnd: int)
    requires x <= xEnd
    ensures var r := RowIndices(width, y, x, xEnd);
            |r| == xEnd - x && forall k | 0 <= k < |r| :: r[k] == y * width + x + k
  {
    if x < xEnd {
      RowAt(width, y, x, xEnd, 0);
      forall k | 0 <= k < xEnd - x ensures RowIndices(width, y, x, xEnd)[k] == y * width + x + k {
        RowAt(width, y, x, xEnd, k);
      }
    }
  }

  lemma RowsAscend(width: nat, y: nat)
    ensures (y + 1) * width == y * width + width
  {}

  lemma AppendAscending(row: seq<nat>, rest: seq<nat>, lo: int, mid: int, hi: int)
    requires forall k | 0 <= k < |row| :: row[k] == lo + k
    requires lo + |row| <= mid && (rest != [] ==> mid <= hi)
    requires mid <= hi && StrictlyIncreasing(rest) && forall k | 0 <= k < |rest| :: mid <= rest[k] < hi
    ensures StrictlyIncreasing(row + rest) && forall k | 0 <= k < |row + rest| :: lo <= (row + rest)[k] < hi
  {
  }

  lemma RowTimes(n: int, w: int)
    ensures n * w == w + (n - 1) * w
  {}

  /** A rectangle's list is strictly increasing, has one entry per pixel and lies between its corners. */
  lemma {:induction false} RectShape(width: nat, y: nat, yEnd: int, x: nat, xEnd: int)
    requires x <= xEnd <= width && y <= yEnd
    ensures var r := RectIndices(width, y, yEnd, x, xEnd);
            && StrictlyIncreasing(r) && |r| == (yEnd - y) * (xEnd - x)
            && forall k | 0 <= k < |r| :: y * width + x <= r[k] < yEnd * width
    decreases yEnd - y
  {
    if y < yEnd {
      RowShape(width, y, x, xEnd);
      RectShape(width, y + 1, yEnd, x, xEnd);
      RowsAscend(width, y);
      MulMonotone(y + 1, yEnd, width);
      var row, rest := RowIndices(width, y, x, xEnd), RectIndices(width, y + 1, yEnd, x, xEnd);
      AppendAscending(row, rest, y * width + x, (y + 1) * width, yEnd * width);
      RowTimes(yEnd - y, xEnd - x);
      assert RectIndices(width, y, yEnd, x, xEnd) == row + rest;
    }
  }

  lemma MulMonotone(a: int, b: int, c: nat)
    requires a <= b
    ensures a * c <= b * c
  {}

  /** An index list contains exactly the pixels of its rectangle. */
  lemma {:induction false} RectMembers(width: nat, y: nat, yEnd: int, x: nat, xEnd: int, px: nat, py: nat)
    requires x <= xEnd <= width && y <= yEnd && px < width
    ensures py * width + px in RectIndices(width, y, yEnd, x, xEnd) <==> x <= px < xEnd && y <= py < yEnd
    decreases yEnd - y
  {
    if y < yEnd {
      RowMembers(width, y, x, xEnd, px, py);
      RectMembers(width, y + 1, yEnd, x, xEnd, px, py);
    }
  }

  lemma RowMembers(width: nat, y: nat, x: nat, xEnd: int, px: nat, py: nat)
    requires x <= xEnd <= width && px < width
    ensures py * width + px in RowIndices(width, y, x, xEnd) <==> y == py && x <= px < xEnd
  {
    RowShape(width, y, x, xEnd);
    var row, p := RowIndices(width, y, x, xEnd), py * width + px;
    if p in row {
      var k :| 0 <= k < |row| && row[k] == p;
      SameRow(width, y, x + k, py, px);
    }
    if py == y && x <= px < xEnd { assert row[px - x] == p; }
  }

  lemma SameRow(width: nat, y: nat, x: nat, y': nat, x': nat)
    requires x < width && x' < width && y * width + x == y' * width + x'
    ensures y == y' && x == x'
  {
    if y < y' { MulMonotone(y + 1, y', width); RowsAscend(width, y); }
    if y' < y { MulMonotone(y' + 1, y, width); RowsAscend(width, y'); }
  }

  lemma LedListMembers(b: Bounds, l: Led, x: nat, y: nat)
    requires b.Ok() && ValidLed(l) && HasArea(l) && x < b.width
    ensures y * b.width + x in LedIndices(b, l) <==> Covers(b, l, x, y)
  {
    var aw, ah := b.ActualWidth(), b.ActualHeight();
    SpanOnAxis(aw, l.minX, l.maxX);
    SpanOnAxis(ah, l.minY, l.maxY);
    RectMembers(b.width, b.horizontalBorder + Lower(ah, l.minY), b.horizontalBorder + Upper(ah, l.minY, l.maxY),
      b.verticalBorder + Lower(aw, l.minX), b.verticalBorder + Upper(aw, l.minX, l.maxX), x, y);
  }

  /// The size of a led's rectangle.
  function LedSize(b: Bounds, l: Led): int
    requires b.Ok()
  {
    (Upper(b.ActualHeight(), l.minY, l.maxY) - Lower(b.ActualHeight(), l.minY))
    * (Upper(b.ActualWidth(), l.minX, l.maxX) - Lower(b.ActualWidth(), l.minX))
  }

  lemma RectNotEmpty(width: nat, y: nat, yEnd: int, x: nat, xEnd: int)
    requires x < xEnd <= width && y < yEnd
    ensures RectIndices(width, y, yEnd, x, xEnd) != []
  {
    RowShape(width, y, x, xEnd);
  }

  lemma LedListShape(b: Bounds, l: Led)
    requires b.Ok() && ValidLed(l) && HasArea(l)
    ensures var r := LedIndices(b, l);
            && r != [] && StrictlyIncreasing(r) && |r| == LedSize(b, l)
            && forall k | 0 <= k < |r| :: r[k] < b.width * b.height
  {
    var aw, ah := b.ActualWidth(), b.ActualHeight();
    SpanOnAxis(aw, l.minX, l.maxX);
    SpanOnAxis(ah, l.minY, l.maxY);
    var y, yEnd := b.horizontalBorder + Lower(ah, l.minY), b.horizontalBorder + Upper(ah, l.minY, l.maxY);
    var x, xEnd := b.verticalBorder + Lower(aw, l.minX), b.verticalBorder + Upper(aw, l.minX, l.maxX);
    RectShape(b.width, y, yEnd, x, xEnd);
    RectNotEmpty(b.width, y, yEnd, x, xEnd);
    MulMonotone(yEnd, b.height, b.width);
    assert b.height * b.width == b.width * b.height;
  }

  /** For a led with area the list is not empty, strictly increasing, within the image, and exactly
      the pixels of its clamped rectangle. */
  lemma LedListIsRectangle(b: Bounds, l: Led)
    requires b.Ok() && ValidLed(l) && HasArea(l)
    ensures var r := LedIndices(b, l);
            && r != [] && StrictlyIncreasing(r) && |r| == LedSize(b, l)
            && (forall k | 0 <= k < |r| :: r[k] < b.width * b.height)
            && (forall x: nat, y: nat | x < b.width :: y * b.width + x in r <==> Covers(b, l, x, y))
  {
    LedListShape(b, l);
    forall x: nat, y: nat | x < b.width
      ensures y * b.width + x in LedIndices(b, l) <==> Covers(b, l, x, y)
    {
      LedListMembers(b, l, x, y);
    }
  }

  /** A led gets no pixel exactly if it is less than a millionth of the picture wide or high. */
  lemma EmptyListExactly(b: Bounds, l: Led)
    requires b.Ok() && ValidLed(l)
    ensures LedIndices(b, l) == [] <==> l.maxX - l.minX < 0.000001 || l.maxY - l.minY < 0.000001
  {
    if HasArea(l) { LedListShape(b, l); }
  }

  /** Listed pixels lie inside the borders: the vertical border keeps columns out, the horizontal one rows. */
  lemma ListedInsideBorders(b: Bounds, l: Led, x: nat, y: nat)
    requires b.Ok() && ValidLed(l) && x < b.width && y * b.width + x in LedIndices(b, l)
    ensures b.verticalBorder <= x < b.width - b.verticalBorder
    ensures b.horizontalBorder <= y < b.height - b.horizontalBorder
  {
    if HasArea(l) {
      LedListMembers(b, l, x, y);
      SpanOnAxis(b.ActualWidth(), l.minX, l.maxX);
      SpanOnAxis(b.ActualHeight(), l.minY, l.maxY);
    }
  }

  /** Every index of every list can be read from an image of the map's size. */
  lemma AllIndicesInImage(b: Bounds, leds: seq<Led>)
    requires b.Ok() && forall l | l in leds :: ValidLed(l)
    ensures forall i, k | 0 <= i < |leds| && 0 <= k < |AllIndices(b, leds)[i]| ::
      AllIndices(b, leds)[i][k] < b.width * b.height
  {
    forall i | 0 <= i < |leds| && HasArea(leds[i])
      ensures forall k | 0 <= k < |LedIndices(b, leds[i])| :: LedIndices(b, leds[i])[k] < b.width * b.height
    {
      LedListShape(b, leds[i]);
    }
  }
}
