/** Which single pixels the detector looks at, and what counts as black. */
module DetectorPixels {
  import opened Colors
  import opened Images
  import opened BorderHysteresis
  import opened BlackBorderDetectors
  import opened BorderSizes

  /** A pixel is picture as soon as any one channel reaches the threshold. */
  lemma BlackByChannel(c: Color, t: byte)
    ensures !IsBlack(c, t) <==> c.red >= t || c.green >= t || c.blue >= t
  {}

  /// Black but for one pixel.
  function Dot(w: nat, h: nat, px: nat, py: nat, c: Color): Image
    requires 0 < w
  {
    Image(w, h, seq(w * h, p requires 0 <= p < w * h => if p % w == px && p / w == py then c else BLACK))
  }

  lemma DotAt(w: nat, h: nat, px: nat, py: nat, c: Color)
    requires 0 < w && 0 < h
    ensures var img := Dot(w, h, px, py, c);
            && img.Valid() && img.width == w && img.height == h
            && forall x: nat, y: nat | x < w && y < h :: img.At(x, y) == if x == px && y == py then c else BLACK
  {
    var img := Dot(w, h, px, py, c);
    forall x: nat, y: nat | x < w && y < h ensures img.At(x, y) == if x == px && y == py then c else BLACK {
      IndexInRange(x, y, w, h);
      PositionOf(x, y, w);
    }
  }

  /** A column is found through one pixel exactly if that is its own pixel at one or two thirds of the height,
      or its mirror pixel on the middle line. */
  lemma ColumnPixels(t: byte, w: nat, h: nat, px: nat, py: nat, c: Color, x: nat)
    requires 0 < w && 0 < h && t > 0 && !IsBlack(c, t) && x < w / 3
    ensures Dot(w, h, px, py, c).Valid()
    ensures ColumnHit(Dot(w, h, px, py, c), t, x)
       <==> (px == x && (py == h / 3 || py == 2 * (h / 3))) || (px == w - 1 - x && py == h / 2)
  {
    DotAt(w, h, px, py, c);
  }

  /** A row is found exactly through its own pixel at one or two thirds of the width, or its mirror row's
      pixel in the middle column. */
  lemma RowPixels(t: byte, w: nat, h: nat, px: nat, py: nat, c: Color, y: nat)
    requires 0 < w && 0 < h && t > 0 && !IsBlack(c, t) && y < h / 3
    ensures Dot(w, h, px, py, c).Valid()
    ensures RowHit(Dot(w, h, px, py, c), t, y)
       <==> (py == y && (px == w / 3 || px == 2 * (w / 3))) || (py == h - 1 - y && px == w / 2)
  {
    DotAt(w, h, px, py, c);
  }

  /** In osd mode a row is found exactly through the four pixels where the column, its mirror column, the row
      and its mirror row meet. */
  lemma OsdPixels(t: byte, w: nat, h: nat, px: nat, py: nat, c: Color, x: nat, y: nat)
    requires 0 < w && 0 < h && t > 0 && !IsBlack(c, t) && x <= w / 3 && y < h / 3
    ensures Dot(w, h, px, py, c).Valid()
    ensures OsdRowHit(Dot(w, h, px, py, c), t, x, y)
       <==> (px == x || px == w - 1 - x) && (py == y || py == h - 1 - y)
  {
    DotAt(w, h, px, py, c);
  }

  /** In classic mode the scan looks at the clamped diagonal only. */
  lemma DiagonalPixels(t: byte, w: nat, h: nat, px: nat, py: nat, c: Color, i: nat)
    requires 0 < w && 0 < h && t > 0 && !IsBlack(c, t)
    ensures Dot(w, h, px, py, c).Valid()
    ensures DiagonalHit(Dot(w, h, px, py, c), t, i) <==> px == Min(i, w / 3) && py == Min(i, h / 3)
  {
    DotAt(w, h, px, py, c);
  }

  /** From the picture's first diagonal pixel the classic mode goes left before it goes up: a pixel with one
      neighbour on the left and one above yields the left one's column and its own row. */
  lemma LeftBeforeUp(t: byte)
    requires t > 0
    ensures var img := Image(9, 9, seq(81, p => if p == 20 || p == 19 || p == 11 then WHITE else BLACK));
            && img.Valid() && img.At(2, 2) == img.At(1, 2) == img.At(2, 1) == WHITE
            && Detected(Classic, t, img, BlackBorder(false, 2, 1))
            && !Detected(Classic, t, img, BlackBorder(false, 1, 2))
  {
    var img := Image(9, 9, seq(81, p => if p == 20 || p == 19 || p == 11 then WHITE else BLACK));
    assert img.At(0, 0) == BLACK && img.At(1, 1) == BLACK && img.At(0, 2) == BLACK;
    assert img.At(2, 2) == WHITE && img.At(1, 2) == WHITE && img.At(2, 1) == WHITE;
    assert Diagonal(img, 0) == (0, 0) && Diagonal(img, 1) == (1, 1) && Diagonal(img, 2) == (2, 2);
    assert FirstOnDiagonal(img, t, 2) by {
      assert !DiagonalHit(img, t, 0) && !DiagonalHit(img, t, 1) && DiagonalHit(img, t, 2);
    }
    assert Expanded(img, t, 2, 2, 1, 2);
    assert Detected(Classic, t, img, BlackBorder(false, 2, 1));
    if Detected(Classic, t, img, BlackBorder(false, 1, 2)) {
      DetectedIsUnique(Classic, t, img, BlackBorder(false, 2, 1), BlackBorder(false, 1, 2));
    }
  }

  /** What the processor is given for a letterboxed picture: each bar that is there is widened by the blur, a
      bar that is not there stays away, and the border is known. */
  lemma LetterboxBlurred(mode: Mode, t: byte, w: nat, h: nat, a: nat, b: nat, blur: nat, d: BlackBorder)
    requires 0 < w && 0 < h && t > 0 && Searched(mode, w, h, a, b) && Letterbox(w, h, a, b).Valid()
    requires Detected(mode, t, Letterbox(w, h, a, b), d)
    ensures var seen := AddBlur(d, blur);
            && !seen.unknown && seen.verticalSize == (if a > 0 then a + blur else 0)
            && seen.horizontalSize == (if b > 0 then b + blur else 0)
  {
    LetterboxIsDetected(mode, t, w, h, a, b);
    DetectedIsUnique(mode, t, Letterbox(w, h, a, b), d, BlackBorder(false, b, a));
  }
}
