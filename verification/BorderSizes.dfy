/** How large a detected border can get, and exactly when a blurred border leaves picture. */
module BorderSizes {
  import opened Colors
  import opened Images
  import opened BorderHysteresis
  import opened BlackBorderDetectors

  /// The largest border size along a side whose third is `third`, the other side's being `other`.
  function Largest(mode: Mode, third: nat, other: nat): int {
    match mode
    case Default => third - 1
    case Osd => third - 1
    case Classic => Min(Max(third, other) - 1, third)
  }

  function Blurred(size: int, blur: nat): int { if size > 0 then size + blur else size }

  function AddBlur(b: BlackBorder, blur: nat): BlackBorder {
    b.(horizontalSize := Blurred(b.horizontalSize, blur), verticalSize := Blurred(b.verticalSize, blur))
  }

  /// The largest blurred border fits on both axes.
  predicate Fits(mode: Mode, blur: nat, width: nat, height: nat) {
    && width > 2 * Blurred(Largest(mode, width / 3, height / 3), blur)
    && height > 2 * Blurred(Largest(mode, height / 3, width / 3), blur)
  }

  /// In an image of this size a border can be known at all.
  predicate CanReport(mode: Mode, width: nat, height: nat) {
    mode == Classic || (width / 3 > 0 && height / 3 > 0)
  }

  /// The size check on an image; with threshold 0 no pixel is black and every border is zero.
  predicate LargeEnough(mode: Mode, t: byte, blur: nat, width: nat, height: nat) {
    t == 0 || !CanReport(mode, width, height) || Fits(mode, blur, width, height)
  }

  ghost predicate LeavesPicture(img: Image, b: BlackBorder, blur: nat) {
    var c := AddBlur(b, blur);
    && 0 <= c.verticalSize && img.width > 2 * c.verticalSize
    && 0 <= c.horizontalSize && img.height > 2 * c.horizontalSize
  }

  /// b is a known border that the mode sees in img, an image of the given size.
  ghost predicate KnownIn(mode: Mode, t: byte, width: nat, height: nat, img: Image, b: BlackBorder) {
    img.Valid() && img.width == width && img.height == height && Detected(mode, t, img, b) && !b.unknown
  }

  /** With a blur of one pixel every image fits in the default and osd modes, and every image of
      at least 7 x 7 pixels fits in classic mode. */
  lemma BlurOfOneFits(mode: Mode, width: nat, height: nat)
    requires 0 < width && 0 < height && (mode == Classic ==> 7 <= width && 7 <= height)
    ensures Fits(mode, 1, width, height)
  {
  }

  lemma DetectedLeavesPicture(mode: Mode, t: byte, img: Image, b: BlackBorder, blur: nat)
    requires img.Valid() && Detected(mode, t, img, b) && !b.unknown
    requires LargeEnough(mode, t, blur, img.width, img.height)
    ensures LeavesPicture(img, b, blur)
  {
    if t == 0 {
      AllPicture(mode, img, b);
    }
  }

  /** Nothing is below threshold 0, so a known border is zero on both axes. */
  lemma AllPicture(mode: Mode, img: Image, b: BlackBorder)
    requires img.Valid() && Detected(mode, 0, img, b) && !b.unknown
    ensures b == BlackBorder(false, 0, 0)
  {
    if mode == Classic {
      assert forall i: nat | i < DiagonalLength(img) :: DiagonalHit(img, 0, i);
      if DiagonalLength(img) > 0 { assert DiagonalHit(img, 0, 0); }
    } else {
      if img.width / 3 > 0 { assert ColumnHit(img, 0, 0); }
      if img.height / 3 > 0 { assert RowHit(img, 0, 0) && OsdRowHit(img, 0, 0, 0); }
    }
  }

  // ----- letterboxed pictures -----

  const WHITE := Color(255, 255, 255)

  predicate InBox(w: nat, h: nat, a: nat, b: nat, x: int, y: int) { a <= x < w - a && b <= y < h - b }

  /// White with black bars: a columns left and right, b rows above and below.
  function Letterbox(w: nat, h: nat, a: nat, b: nat): Image
    requires 0 < w
  {
    Image(w, h, seq(w * h, p requires 0 <= p < w * h => if InBox(w, h, a, b, p % w, p / w) then WHITE else BLACK))
  }

  lemma PositionOf(x: nat, y: nat, w: nat)
    requires x < w
    ensures (y * w + x) % w == x && (y * w + x) / w == y
  {
    var q, r := (y * w + x) / w, (y * w + x) % w;
    assert q * w + r == y * w + x;
    RowsDiffer(q, r, y, x, w);
  }

  lemma RowsDiffer(q: int, r: nat, y: int, x: nat, w: nat)
    requires r < w && x < w && q * w + r == y * w + x
    ensures q == y && r == x
  {
    assert (q - y) * w == x - r;
    Multiple(q - y, w);
  }

  lemma Multiple(d: int, w: int)
    requires 0 < w
    ensures d >= 1 ==> d * w >= w
    ensures d <= -1 ==> d * w <= -w
  {}

  lemma LetterboxShows(w: nat, h: nat, a: nat, b: nat)
    requires 0 < w && 0 < h
    ensures var img := Letterbox(w, h, a, b);
            && img.Valid() && img.width == w && img.height == h
            && forall x: nat, y: nat | x < w && y < h ::
                 img.At(x, y) == if InBox(w, h, a, b, x, y) then WHITE else BLACK
  {
    var img := Letterbox(w, h, a, b);
    forall x: nat, y: nat | x < w && y < h
      ensures img.At(x, y) == if InBox(w, h, a, b, x, y) then WHITE else BLACK
    {
      IndexInRange(x, y, w, h);
      PositionOf(x, y, w);
    }
  }

  /// Bars of these sizes are within what the mode searches.
  predicate Searched(mode: Mode, w: nat, h: nat, a: nat, b: nat) {
    if mode == Classic then a <= w / 3 && b <= h / 3 && Max(a, b) < Max(w / 3, h / 3)
    else a < w / 3 && b < h / 3
  }

  /** The detector does its job: the bars of a letterboxed picture are found exactly, in every mode. */
  lemma LetterboxIsDetected(mode: Mode, t: byte, w: nat, h: nat, a: nat, b: nat)
    requires 0 < w && 0 < h && t > 0 && Searched(mode, w, h, a, b)
    ensures Letterbox(w, h, a, b).Valid() && Detected(mode, t, Letterbox(w, h, a, b), BlackBorder(false, b, a))
  {
    LetterboxShows(w, h, a, b);
    if mode == Classic {
      ClassicBars(t, w, h, a, b);
    } else {
      BarColumns(t, w, h, a, b);
      BarRows(t, w, h, a, b);
    }
  }

  lemma BarColumns(t: byte, w: nat, h: nat, a: nat, b: nat)
    requires t > 0 && a < w / 3 && b < h / 3
    ensures Letterbox(w, h, a, b).Valid() && ColumnFound(Letterbox(w, h, a, b), t, a)
  {
    LetterboxShows(w, h, a, b);
    var img := Letterbox(w, h, a, b);
    forall x: nat | x < w / 3 ensures ColumnHit(img, t, x) <==> x >= a {
      assert InBox(w, h, a, b, x, h / 3) <==> x >= a;
      assert InBox(w, h, a, b, x, h / 3 * 2) <==> x >= a;
      assert InBox(w, h, a, b, w - 1 - x, h / 2) <==> x >= a;
    }
  }

  lemma BarRows(t: byte, w: nat, h: nat, a: nat, b: nat)
    requires t > 0 && a < w / 3 && b < h / 3
    ensures var img := Letterbox(w, h, a, b);
            img.Valid() && RowFound(img, t, b) && OsdRowFound(img, t, a, b)
  {
    LetterboxShows(w, h, a, b);
    var img := Letterbox(w, h, a, b);
    forall y: nat | y < h / 3 ensures (RowHit(img, t, y) <==> y >= b) && (OsdRowHit(img, t, a, y) <==> y >= b) {
      assert InBox(w, h, a, b, w / 3, y) <==> y >= b;
      assert InBox(w, h, a, b, w / 3 * 2, y) <==> y >= b;
      assert InBox(w, h, a, b, w / 2, h - 1 - y) <==> y >= b;
      assert InBox(w, h, a, b, a, y) <==> y >= b;
    }
  }

  lemma ClassicBars(t: byte, w: nat, h: nat, a: nat, b: nat)
    requires 0 < w && 0 < h && t > 0 && Searched(Classic, w, h, a, b)
    ensures Letterbox(w, h, a, b).Valid() && Detected(Classic, t, Letterbox(w, h, a, b), BlackBorder(false, b, a))
  {
    LetterboxShows(w, h, a, b);
    var img := Letterbox(w, h, a, b);
    var i := Max(a, b);
    forall j: nat | j <= i ensures DiagonalHit(img, t, j) <==> j == i {
      var (x, y) := Diagonal(img, j);
      assert InBox(w, h, a, b, x, y) <==> j == i;
    }
    assert FirstOnDiagonal(img, t, i);
    var (x0, y0) := Diagonal(img, i);
    assert forall x: nat | x <= x0 :: InBox(w, h, a, b, x, y0) <==> a <= x;
    assert forall y: nat | y <= y0 :: InBox(w, h, a, b, a, y) <==> b <= y;
    assert Expanded(img, t, x0, y0, a, b);
  }

  /** Exactly when borders are harmless: every known border of every image of a size leaves picture, blur
      included, if and only if the largest one does, or no border is ever known, or nothing is black. */
  lemma LeavesPictureExactly(mode: Mode, t: byte, width: nat, height: nat, blur: nat)
    requires 0 < width && 0 < height
    ensures (forall img, b | KnownIn(mode, t, width, height, img, b) :: LeavesPicture(img, b, blur))
       <==> LargeEnough(mode, t, blur, width, height)
  {
    if LargeEnough(mode, t, blur, width, height) {
      forall img, b | KnownIn(mode, t, width, height, img, b) ensures LeavesPicture(img, b, blur) {
        DetectedLeavesPicture(mode, t, img, b, blur);
      }
    } else {
      var img, b := LargestBorder(mode, t, width, height, blur);
      assert KnownIn(mode, t, width, height, img, b);
    }
  }

  /// An image whose border is the largest that the mode can report, and too large.
  lemma LargestBorder(mode: Mode, t: byte, width: nat, height: nat, blur: nat) returns (img: Image, b: BlackBorder)
    requires 0 < width && 0 < height && !LargeEnough(mode, t, blur, width, height)
    ensures KnownIn(mode, t, width, height, img, b) && !LeavesPicture(img, b, blur)
  {
    var x: nat, y: nat := Largest(mode, width / 3, height / 3), Largest(mode, height / 3, width / 3);
    img, b := Letterbox(width, height, x, y), BlackBorder(false, y, x);
    LetterboxShows(width, height, x, y);
    LetterboxIsDetected(mode, t, width, height, x, y);
  }

  /** A size that is too small: in classic mode the one bright pixel of a 3 x 6 image gives a border
      that, with a blur of one, covers the whole width. */
  lemma ClassicCanOverrun(t: byte)
    requires t > 0
    ensures !LargeEnough(Classic, t, 1, 3, 6)
    ensures var img := Image(3, 6, seq(18, i => if i == 4 then WHITE else BLACK));
            KnownIn(Classic, t, 3, 6, img, BlackBorder(false, 1, 1)) && !LeavesPicture(img, BlackBorder(false, 1, 1), 1)
  {
    var img := Image(3, 6, seq(18, i => if i == 4 then WHITE else BLACK));
    assert img.At(0, 0) == BLACK && img.At(0, 1) == BLACK && img.At(1, 0) == BLACK;
    assert img.At(1, 1) == WHITE;
    assert Diagonal(img, 0) == (0, 0) && Diagonal(img, 1) == (1, 1);
    assert FirstOnDiagonal(img, t, 1) by { assert !DiagonalHit(img, t, 0) && DiagonalHit(img, t, 1); }
    assert Expanded(img, t, 1, 1, 1, 1);
  }
}
