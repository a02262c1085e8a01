/** Single-image black border detection in its three modes. */
module BlackBorderDetectors {
  import opened Colors
  import opened Images
  import opened BorderHysteresis

  datatype Mode = Default | Classic | Osd

  predicate IsBlack(c: Color, threshold: byte) {
    c.red < threshold && c.green < threshold && c.blue < threshold
  }

  /// Column x shows picture on one of the three lines scanned for the vertical border.
  predicate ColumnHit(img: Image, t: byte, x: nat)
    requires img.Valid() && x < img.width / 3
  {
    || !IsBlack(img.At(img.width - 1 - x, img.height / 2), t)
    || !IsBlack(img.At(x, img.height / 3), t)
    || !IsBlack(img.At(x, img.height / 3 * 2), t)
  }

  /// Row y shows picture on one of the three lines scanned for the horizontal border.
  predicate RowHit(img: Image, t: byte, y: nat)
    requires img.Valid() && y < img.height / 3
  {
    || !IsBlack(img.At(img.width / 2, img.height - 1 - y), t)
    || !IsBlack(img.At(img.width / 3, y), t)
    || !IsBlack(img.At(img.width / 3 * 2, y), t)
  }

  /// Row y, or its mirror row, shows picture at column x or its mirror column.
  predicate OsdRowHit(img: Image, t: byte, x: nat, y: nat)
    requires img.Valid() && x <= img.width / 3 && y < img.height / 3
  {
    || !IsBlack(img.At(x, y), t)
    || !IsBlack(img.At(x, img.height - 1 - y), t)
    || !IsBlack(img.At(img.width - 1 - x, y), t)
    || !IsBlack(img.At(img.width - 1 - x, img.height - 1 - y), t)
  }

  function MakeBorder(x: int, y: int): BlackBorder { BlackBorder(x == -1 || y == -1, y, x) }

  /// x is the first column of the left third that shows picture, or -1 when there is none.
  ghost predicate ColumnFound(img: Image, t: byte, x: int)
    requires img.Valid()
  {
    && (x == -1 || (0 <= x < img.width / 3 && ColumnHit(img, t, x)))
    && forall i: nat | i < (if x == -1 then img.width / 3 else x) :: !ColumnHit(img, t, i)
  }

  ghost predicate RowFound(img: Image, t: byte, y: int)
    requires img.Valid()
  {
    && (y == -1 || (0 <= y < img.height / 3 && RowHit(img, t, y)))
    && forall i: nat | i < (if y == -1 then img.height / 3 else y) :: !RowHit(img, t, i)
  }

  /// The column used by the osd row scan: the one found, or the one just past the searched third.
  function OsdColumn(img: Image, x: int): int { if x == -1 then img.width / 3 else x }

  ghost predicate OsdRowFound(img: Image, t: byte, c: nat, y: int)
    requires img.Valid() && c <= img.width / 3
  {
    && (y == -1 || (0 <= y < img.height / 3 && OsdRowHit(img, t, c, y)))
    && forall i: nat | i < (if y == -1 then img.height / 3 else y) :: !OsdRowHit(img, t, c, i)
  }

  /// The i-th pixel on the way from the corner into the top left third.
  function Diagonal(img: Image, i: nat): (nat, nat) {
    (if i < img.width / 3 then i else img.width / 3, if i < img.height / 3 then i else img.height / 3)
  }

  function DiagonalLength(img: Image): nat { Max(img.width / 3, img.height / 3) }

  predicate DiagonalHit(img: Image, t: byte, i: nat)
    requires img.Valid()
  {
    var (x, y) := Diagonal(img, i);
    !IsBlack(img.At(x, y), t)
  }

  ghost predicate FirstOnDiagonal(img: Image, t: byte, i: nat)
    requires img.Valid()
  {
    i < DiagonalLength(img) && DiagonalHit(img, t, i) && forall j: nat | j < i :: !DiagonalHit(img, t, j)
  }

  /// (x, y) is reached from the first picture pixel (x0, y0) by going left, then up, until black.
  ghost predicate Expanded(img: Image, t: byte, x0: nat, y0: nat, x: nat, y: nat)
    requires img.Valid()
  {
    && x <= x0 < img.width && y <= y0 < img.height
    && (forall i | x <= i < x0 :: !IsBlack(img.At(i, y0), t))
    && (x > 0 ==> IsBlack(img.At(x - 1, y0), t))
    && (forall j | y <= j < y0 :: !IsBlack(img.At(x, j), t))
    && (y > 0 ==> IsBlack(img.At(x, y - 1), t))
  }

  ghost predicate ClassicFound(img: Image, t: byte, b: BlackBorder)
    requires img.Valid()
  {
    if forall i: nat | i < DiagonalLength(img) :: !DiagonalHit(img, t, i) then b == MakeBorder(-1, -1)
    else
      exists i: nat :: FirstOnDiagonal(img, t, i)
        && !b.unknown && 0 <= b.verticalSize && 0 <= b.horizontalSize
        && Expanded(img, t, Diagonal(img, i).0, Diagonal(img, i).1, b.verticalSize, b.horizontalSize)
  }

  /// b is the border that the given mode sees in img.
  ghost predicate Detected(mode: Mode, t: byte, img: Image, b: BlackBorder)
    requires img.Valid()
  {
    match mode
    case Default =>
      b == MakeBorder(b.verticalSize, b.horizontalSize)
      && ColumnFound(img, t, b.verticalSize) && RowFound(img, t, b.horizontalSize)
    case Classic => ClassicFound(img, t, b)
    case Osd =>
      b == MakeBorder(b.verticalSize, b.horizontalSize)
      && ColumnFound(img, t, b.verticalSize) && OsdRowFound(img, t, OsdColumn(img, b.verticalSize), b.horizontalSize)
  }

  class BlackBorderDetector {
    const threshold: byte

    constructor (threshold: byte)
      ensures this.threshold == threshold
    {
      this.threshold := threshold;
    }

    method FindColumn(img: Image) returns (x: nat, found: int)
      requires img.Valid()
      ensures ColumnFound(img, threshold, found)
      ensures x == OsdColumn(img, found)
    {
      x, found := 0, -1;
      while x < img.width / 3
        invariant x <= img.width / 3
        invariant forall i: nat | i < x :: !ColumnHit(img, threshold, i)
      {
        var color1 := img.At(img.width - 1 - x, img.height / 2);
        var color2 := img.At(x, img.height / 3);
        var color3 := img.At(x, img.height / 3 * 2);
        if !IsBlack(color1, threshold) || !IsBlack(color2, threshold) || !IsBlack(color3, threshold) {
          found := x;
          return;
        }
        x := x + 1;
      }
    }

    method Process(img: Image) returns (b: BlackBorder)
      requires img.Valid()
      ensures Detected(Default, threshold, img, b)
    {
      var _, firstX := FindColumn(img);
      var firstY := -1;
      var y := 0;
      while y < img.height / 3
        invariant y <= img.height / 3
        invariant forall i: nat | i < y :: !RowHit(img, threshold, i)
      {
        var color1 := img.At(img.width / 2, img.height - 1 - y);
        var color2 := img.At(img.width / 3, y);
        var color3 := img.At(img.width / 3 * 2, y);
        if !IsBlack(color1, threshold) || !IsBlack(color2, threshold) || !IsBlack(color3, threshold) {
          firstY := y;
          break;
        }
        y := y + 1;
      }
      b := MakeBorder(firstX, firstY);
    }

    method ProcessOsd(img: Image) returns (b: BlackBorder)
      requires img.Valid()
      ensures Detected(Osd, threshold, img, b)
    {
      var x, firstX := FindColumn(img);
      var firstY := -1;
      var y := 0;
      while y < img.height / 3
        invariant y <= img.height / 3
        invariant forall i: nat | i < y :: !OsdRowHit(img, threshold, x, i)
      {
        var color1 := img.At(x, y);
        var color2 := img.At(x, img.height - 1 - y);
        var color3 := img.At(img.width - 1 - x, y);
        var color4 := img.At(img.width - 1 - x, img.height - 1 - y);
        if !IsBlack(color1, threshold) || !IsBlack(color2, threshold)
           || !IsBlack(color3, threshold) || !IsBlack(color4, threshold) {
          firstY := y;
          break;
        }
        y := y + 1;
      }
      b := MakeBorder(firstX, firstY);
    }

    /// The first picture pixel on the way into the top left third; (-1, -1) when there is none.
    method FindDiagonal(img: Image) returns (x: int, y: int)
      requires img.Valid()
      ensures if x == -1 || y == -1
              then x == y && forall i: nat | i < DiagonalLength(img) :: !DiagonalHit(img, threshold, i)
              else exists i: nat :: FirstOnDiagonal(img, threshold, i) && Diagonal(img, i) == (x, y)
    {
      var width, height := img.width / 3, img.height / 3;
      var maxSize := Max(width, height);
      x, y := -1, -1;
      var k: nat := 0;
      while k < maxSize
        invariant k <= maxSize
        invariant forall j: nat | j < k :: !DiagonalHit(img, threshold, j)
      {
        var xk, yk := Min(k, width), Min(k, height);
        if !IsBlack(img.At(xk, yk), threshold) {
          assert FirstOnDiagonal(img, threshold, k);
          return xk, yk;
        }
        k := k + 1;
      }
    }

    method ProcessClassic(img: Image) returns (b: BlackBorder)
      requires img.Valid()
      ensures Detected(Classic, threshold, img, b)
    {
      var firstX, firstY := FindDiagonal(img);
      ghost var x0, y0 := firstX, firstY;
      // the start of the picture on this row
      while firstX > 0
        invariant firstX <= x0 && (if x0 >= 0 then firstX >= 0 else firstX == x0)
        invariant forall k | 0 <= firstX <= k < x0 :: !IsBlack(img.At(k, y0), threshold)
      {
        if IsBlack(img.At(firstX - 1, firstY), threshold) { break; }
        firstX := firstX - 1;
      }
      // and on this column
      while firstY > 0
        invariant firstY <= y0 && (if y0 >= 0 then firstY >= 0 else firstY == y0)
        invariant forall k | 0 <= firstY <= k < y0 :: !IsBlack(img.At(firstX, k), threshold)
      {
        if IsBlack(img.At(firstX, firstY - 1), threshold) { break; }
        firstY := firstY - 1;
      }
      b := MakeBorder(firstX, firstY);
      if x0 >= 0 {
        ghost var i: nat :| FirstOnDiagonal(img, threshold, i) && Diagonal(img, i) == (x0, y0);
        assert Expanded(img, threshold, x0, y0, firstX, firstY);
      }
    }
  }

  /** The border of an image is determined by it: any two answers coincide. */
  lemma DetectedIsUnique(mode: Mode, t: byte, img: Image, a: BlackBorder, b: BlackBorder)
    requires img.Valid() && Detected(mode, t, img, a) && Detected(mode, t, img, b)
    ensures a == b
  {
    match mode
    case Default =>
    case Osd =>
    case Classic =>
      if exists i: nat | i < DiagonalLength(img) :: DiagonalHit(img, t, i) {
        ExpandedIsUnique(img, t, a, b);
      }
  }

  lemma ExpandedIsUnique(img: Image, t: byte, a: BlackBorder, b: BlackBorder)
    requires img.Valid() && ClassicFound(img, t, a) && ClassicFound(img, t, b) && !a.unknown && !b.unknown
    ensures a == b
  {
    var i: nat :| FirstOnDiagonal(img, t, i) && 0 <= a.verticalSize && 0 <= a.horizontalSize
      && Expanded(img, t, Diagonal(img, i).0, Diagonal(img, i).1, a.verticalSize, a.horizontalSize);
    var j: nat :| FirstOnDiagonal(img, t, j) && 0 <= b.verticalSize && 0 <= b.horizontalSize
      && Expanded(img, t, Diagonal(img, j).0, Diagonal(img, j).1, b.verticalSize, b.horizontalSize);
    assert i == j;
    EndIsUnique(img, t, Diagonal(img, i).0, Diagonal(img, i).1,
                a.verticalSize, a.horizontalSize, b.verticalSize, b.horizontalSize);
  }

  lemma EndIsUnique(img: Image, t: byte, x0: nat, y0: nat, x: nat, y: nat, x': nat, y': nat)
    requires img.Valid() && Expanded(img, t, x0, y0, x, y) && Expanded(img, t, x0, y0, x', y')
    ensures x == x' && y == y'
  {
    if x < x' || x' < x || y < y' || y' < y { assert false; }
  }
}
