/** Which source pixels the resampler takes, which bytes it reads for them, and what colour results. */
module ResamplerArithmetic {
  import opened Colors

  datatype VideoMode = Video2D | Video3DSBS | Video3DTAB

  datatype PixelFormat = YUYV | UYVY | BGR16 | BGR24 | RGB32 | BGR32 | NoChange

  /// C's integer division, which truncates towards zero.
  function Truncated(a: int, b: int): int
    requires b > 0
  {
    if a >= 0 then a / b else -(-a / b)
  }

  /// One axis of the source picture: its size, the pixels cropped on both sides and the decimation.
  datatype Axis = Axis(size: int, cropLow: int, cropHigh: int, decimation: int) {
    predicate Valid() { decimation >= 1 }

    function OutputSize(): int
      requires Valid()
    {
      Truncated(size - cropLow - cropHigh - decimation / 2 + decimation - 1, decimation)
    }

    /// Source coordinate of sample i.
    function SampleAt(i: nat): int { cropLow + decimation / 2 + i * decimation }

    /// Coordinate s is left over by the cropping.
    predicate InCrop(s: int) { cropLow <= s < size - cropHigh }
  }

  lemma MultipleBelow(i: nat, n: int, d: int)
    requires d >= 1 && n >= 0
    ensures i < n / d <==> i * d + d <= n
  {
    if i < n / d {
      assert (i + 1) * d <= n / d * d;
    } else {
      assert i * d >= n / d * d;
    }
  }

  /** Sample i is taken exactly when it lies inside the crop: no sample falls outside, and the first
      sample left out would. */
  lemma SamplesFillCrop(a: Axis, i: nat)
    requires a.Valid()
    ensures i < a.OutputSize() <==> a.InCrop(a.SampleAt(i))
  {
    var n, d := a.size - a.cropLow - a.cropHigh - a.decimation / 2 + a.decimation - 1, a.decimation;
    assert i * d >= 0;
    if n >= 0 {
      MultipleBelow(i, n, d);
    } else {
      assert -n / d >= 0;
    }
  }

  /** Every coordinate of the crop, except at most half a step at its end, belongs to one sample whose
      block of `decimation` coordinates contains both. */
  lemma EveryBlockSampled(a: Axis, s: int) returns (i: nat)
    requires a.Valid() && a.InCrop(s)
    ensures a.SampleAt(i) - a.decimation / 2 <= s < a.SampleAt(i) - a.decimation / 2 + a.decimation
    ensures i >= a.OutputSize() ==> a.size - a.cropHigh - s <= a.decimation / 2
  {
    i := (s - a.cropLow) / a.decimation;
    SamplesFillCrop(a, i);
  }

  // ----- bytes -----

  /// The bytes that `width` pixels take; the packed formats hold them in pairs of four bytes.
  function LineBytes(width: nat, format: PixelFormat): nat {
    match format
    case YUYV | UYVY => 4 * ((width + 1) / 2)
    case BGR16 => 2 * width
    case BGR24 => 3 * width
    case RGB32 | BGR32 => 4 * width
    case NoChange => 0
  }

  predicate Packed(format: PixelFormat) { format.YUYV? || format.UYVY? }

  /// Offset in the line of the U byte read for pixel x.
  function UOffset(format: PixelFormat, x: nat): int
    requires Packed(format)
  {
    var index := 2 * x;
    if format.UYVY? then (if x % 2 == 0 then index else index - 2) else if x % 2 == 0 then index + 1 else index - 1
  }

  /// Offset in the line of the V byte read for pixel x.
  function VOffset(format: PixelFormat, x: nat): int
    requires Packed(format)
  {
    var index := 2 * x;
    if format.UYVY? then (if x % 2 == 0 then index + 2 else index) else if x % 2 == 0 then index + 3 else index + 1
  }

  /// Offset in the line of the Y byte read for pixel x.
  function YOffset(format: PixelFormat, x: nat): int
    requires Packed(format)
  {
    if format.UYVY? then 2 * x + 1 else 2 * x
  }

  /** The two pixels of a four-byte macropixel read one U and one V, their own Y, and nothing else:
      together the three kinds of reads cover the macropixel's bytes once each. */
  lemma MacropixelShared(format: PixelFormat, m: nat)
    requires Packed(format)
    ensures UOffset(format, 2 * m) == UOffset(format, 2 * m + 1)
    ensures VOffset(format, 2 * m) == VOffset(format, 2 * m + 1)
    ensures {YOffset(format, 2 * m), UOffset(format, 2 * m), YOffset(format, 2 * m + 1), VOffset(format, 2 * m)}
         == {4 * m, 4 * m + 1, 4 * m + 2, 4 * m + 3}
  {}

  /** The reads for pixel x stay inside a line of whole pairs; they stay inside 2 * width bytes unless x is the
      unpaired last pixel of an odd width. */
  lemma ReadsStayInLine(format: PixelFormat, x: nat, width: nat)
    requires Packed(format) && x < width
    ensures 0 <= YOffset(format, x) < 2 * width && 0 <= UOffset(format, x)
    ensures UOffset(format, x) < 2 * width && 0 <= VOffset(format, x)
    ensures VOffset(format, x) < 2 * width <==> !(x == width - 1 && width % 2 == 1)
    ensures VOffset(format, x) < LineBytes(width, format)
  {}

  /// One line of the source picture holds what the reads of every pixel need.
  predicate LineFits(line: seq<byte>, width: nat, format: PixelFormat) {
    |line| >= LineBytes(width, format)
  }

  // ----- colours -----

  function Clamp(x: int): byte { if x < 0 then 0 else if x > 255 then 255 else x }

  /// r is the byte nearest to num / 256; halves are rounded up.
  predicate NearestByte(r: byte, num: int) {
    && (-128 <= num < 255 * 256 + 128 ==> -128 <= num - 256 * r < 128)
    && (num < -128 ==> r == 0)
    && (num >= 255 * 256 + 128 ==> r == 255)
  }

  /// The integer form of the BT.601 conversion; the shift right by eight rounds down.
  function Yuv2Rgb(y: byte, u: byte, v: byte): Color {
    var c, d, e := y - 16, u - 128, v - 128;
    Color(Clamp((298 * c + 409 * e + 128) / 256),
          Clamp((298 * c - 100 * d - 208 * e + 128) / 256),
          Clamp((298 * c + 516 * d + 128) / 256))
  }

  /** Every channel is the nearest byte to the exact weighted sum. */
  lemma YuvIsNearest(y: byte, u: byte, v: byte)
    ensures var c: int, d: int, e: int := y - 16, u - 128, v - 128;
            var rgb := Yuv2Rgb(y, u, v);
            && NearestByte(rgb.red, 298 * c + 409 * e)
            && NearestByte(rgb.green, 298 * c - 100 * d - 208 * e)
            && NearestByte(rgb.blue, 298 * c + 516 * d)
  {
    var c: int, d: int, e: int := y - 16, u - 128, v - 128;
    ClampIsNearest(298 * c + 409 * e);
    ClampIsNearest(298 * c - 100 * d - 208 * e);
    ClampIsNearest(298 * c + 516 * d);
  }

  lemma ClampIsNearest(num: int)
    ensures NearestByte(Clamp((num + 128) / 256), num)
  {
    var q := (num + 128) / 256;
    assert 256 * q <= num + 128 < 256 * q + 256;
  }

  /** Without chroma the colour is a grey that follows the luminance, from black at 16 to white at 235. */
  lemma GreyFollowsLuma(y: byte, y': byte)
    requires y <= y'
    ensures var g, g' := Yuv2Rgb(y, 128, 128), Yuv2Rgb(y', 128, 128);
            && g == Color(g.red, g.red, g.red) && g.red <= g'.red
            && (g.red == 0 <==> y <= 16) && (g.red == 255 <==> y >= 235)
  {}

  /// The colour of pixel x of a line.
  function Texel(line: seq<byte>, width: nat, format: PixelFormat, x: nat): Color
    requires LineFits(line, width, format) && x < width && format != NoChange
  {
    match format
    case YUYV | UYVY =>
      ReadsStayInLine(format, x, width);
      Yuv2Rgb(line[YOffset(format, x)], line[UOffset(format, x)], line[VOffset(format, x)])
    case BGR16 => Bgr16(line[2 * x], line[2 * x + 1])
    case BGR24 => Color(line[3 * x + 2], line[3 * x + 1], line[3 * x])
    case RGB32 => Color(line[4 * x], line[4 * x + 1], line[4 * x + 2])
    case BGR32 => Color(line[4 * x + 2], line[4 * x + 1], line[4 * x])
  }

  /** In the packed formats the four bytes of a pair stand in the order of the format's name, each pixel with its
      own Y and both with the pair's U and V. */
  lemma PackedOrder(line: seq<byte>, width: nat, format: PixelFormat, m: nat, y0: byte, y1: byte, u: byte, v: byte)
    requires Packed(format) && LineFits(line, width, format) && 2 * m + 1 < width
    requires line[4 * m..4 * m + 4] == if format == UYVY then [u, y0, v, y1] else [y0, u, y1, v]
    ensures Texel(line, width, format, 2 * m) == Yuv2Rgb(y0, u, v)
    ensures Texel(line, width, format, 2 * m + 1) == Yuv2Rgb(y1, u, v)
  {
    FourBytes(line, 4 * m);
    PairOffsets(format, m);
    TexelReads(line, width, format, 2 * m);
    TexelReads(line, width, format, 2 * m + 1);
  }

  lemma PairOffsets(format: PixelFormat, m: nat)
    requires Packed(format)
    ensures UOffset(format, 2 * m) == UOffset(format, 2 * m + 1) == (if format.UYVY? then 4 * m else 4 * m + 1)
    ensures VOffset(format, 2 * m) == VOffset(format, 2 * m + 1) == (if format.UYVY? then 4 * m + 2 else 4 * m + 3)
    ensures YOffset(format, 2 * m) == (if format.UYVY? then 4 * m + 1 else 4 * m)
    ensures YOffset(format, 2 * m + 1) == (if format.UYVY? then 4 * m + 3 else 4 * m + 2)
  {}

  lemma TexelReads(line: seq<byte>, width: nat, format: PixelFormat, x: nat)
    requires Packed(format) && LineFits(line, width, format) && x < width
    ensures 0 <= YOffset(format, x) < |line| && 0 <= UOffset(format, x) < |line| && 0 <= VOffset(format, x) < |line|
    ensures Texel(line, width, format, x)
         == Yuv2Rgb(line[YOffset(format, x)], line[UOffset(format, x)], line[VOffset(format, x)])
  {
    ReadsStayInLine(format, x, width);
  }

  lemma FourBytes(line: seq<byte>, at: nat)
    requires at + 4 <= |line|
    ensures line[at..at + 4] == [line[at], line[at + 1], line[at + 2], line[at + 3]]
  {}

  /** In the other formats the bytes of a pixel stand in the order of the format's name, with a spare byte
      behind three in the 32-bit ones. */
  lemma ByteOrder(line: seq<byte>, width: nat, x: nat, c: Color)
    requires x < width
    ensures LineFits(line, width, BGR24) && line[3 * x..3 * x + 3] == [c.blue, c.green, c.red] ==>
      Texel(line, width, BGR24, x) == c
    ensures LineFits(line, width, RGB32) && line[4 * x..4 * x + 3] == [c.red, c.green, c.blue] ==>
      Texel(line, width, RGB32, x) == c
    ensures LineFits(line, width, BGR32) && line[4 * x..4 * x + 3] == [c.blue, c.green, c.red] ==>
      Texel(line, width, BGR32, x) == c
  {
    if |line| >= 3 * x + 3 { ThreeBytes(line, 3 * x); }
    if |line| >= 4 * x + 3 { ThreeBytes(line, 4 * x); }
  }

  lemma ThreeBytes(line: seq<byte>, at: nat)
    requires at + 3 <= |line|
    ensures line[at..at + 3] == [line[at], line[at + 1], line[at + 2]]
  {}

  /// The masks and shifts of the 16-bit format, on the low and the high byte.
  function Bgr16(lo: byte, hi: byte): Color {
    Color(hi / 8 * 8, (hi % 8 * 8 + lo / 32) * 4, lo % 32 * 8)
  }

  lemma Unpack(high: nat, low: nat)
    ensures low < 8 ==> (8 * high + low) / 8 == high && (8 * high + low) % 8 == low
    ensures low < 32 ==> (32 * high + low) / 32 == high && (32 * high + low) % 32 == low
    ensures low < 256 ==> (256 * high + low) / 256 == high && (256 * high + low) % 256 == low
  {}

  /** Packing a colour as five, six and five bits in a little-endian 16-bit word and reading it back keeps
      the leading bits of every channel and clears the rest. */
  lemma Bgr16RoundTrip(c: Color, word: nat)
    requires word == c.red / 8 * 2048 + c.green / 4 * 32 + c.blue / 8
    ensures word < 0x1_0000
    ensures Bgr16(word % 256, word / 256) == Color(c.red - c.red % 8, c.green - c.green % 4, c.blue - c.blue % 8)
  {
    var r: int, g: int, b: int := c.red / 8, c.green / 4, c.blue / 8;
    var hi, lo := r * 8 + g / 8, g % 8 * 32 + b;
    Unpack(hi, lo);
    assert word == 256 * hi + lo;
    Unpack(r, g / 8);
    Unpack(g % 8, b);
  }
}

/** The resampler and the picture it writes. */
module ImageResamplers {
  import opened Colors
  import opened Images
  import opened ResamplerArithmetic

  /// A reusable output picture: its buffer has one spare pixel and only ever grows.
  class OutputImage {
    var width: nat
    var height: nat
    var pixels: array<Color>

    ghost predicate Valid() reads this { width * height < pixels.Length }

    constructor ()
      ensures Valid() && fresh(pixels) && width == 1 && height == 1
    {
      width, height := 1, 1;
      pixels := new Color[2](_ => BLACK);
    }

    /// Where row y starts in the buffer.
    function RowStart(y: nat): (start: nat)
      requires Valid() && y < height
      reads this
      ensures start + width <= pixels.Length
    {
      EarlierRow(y, height, width);
      y * width
    }

    lemma RowsApart(y: nat, yDest: nat)
      requires Valid() && y < yDest < height
      ensures RowStart(y) + width <= RowStart(yDest)
    {
      EarlierRow(y, yDest, width);
    }

    method Resize(w: nat, h: nat)
      requires Valid()
      modifies this
      ensures Valid() && width == w && height == h
      ensures if w * h > old(pixels).Length - 1 then fresh(pixels) else pixels == old(pixels)
    {
      if w * h > pixels.Length - 1 {
        pixels := new Color[w * h + 1](_ => BLACK);
      }
      width, height := w, h;
    }
  }

  /// The resize test compares both sides, so it only fires when both differ.
  predicate ResizeFires(width: nat, height: nat, w: nat, h: nat) { height != h && width != w }

  /** After the test the picture has the output's size unless exactly one side differed before. */
  lemma SizeAfterTest(width: nat, height: nat, w: nat, h: nat)
    ensures ((if ResizeFires(width, height, w, h) then (w, h) else (width, height)) == (w, h))
       <==> (width == w <==> height == h)
  {}

  /** When the sides disagree, all samples still land in the picture exactly when the side that differs is
      not the smaller one. */
  lemma MisfitStaysInside(width: nat, height: nat, w: nat, h: nat)
    requires w > 0 && h > 0 && !ResizeFires(width, height, w, h)
    ensures (forall x: nat, y: nat {:trigger LandsInside(width, height, x, y)} ::
               x < w && y < h ==> LandsInside(width, height, x, y))
       <==> w <= width && h <= height
  {
    if w <= width && h <= height {
      forall x: nat, y: nat | x < w && y < h ensures LandsInside(width, height, x, y) {
        IndexInRange(x, y, width, height);
      }
    } else {
      var x: nat, y: nat := w - 1, h - 1;
      if width == w {
        assert y * width >= height * width;
      }
      assert !LandsInside(width, height, x, y);
    }
  }

  predicate LandsInside(width: nat, height: nat, x: nat, y: nat) { y * width + x < width * height }

  /// The arguments that describe the source frame.
  datatype Source = Source(data: seq<byte>, width: nat, height: nat, lineLength: nat, format: PixelFormat) {
    /// Full lines, of whole pairs in the packed formats.
    predicate Valid() { lineLength * height <= |data| && lineLength >= LineBytes(width, format) }

    function LineStart(y: nat): (start: nat)
      requires Valid() && y < height
      ensures start + lineLength <= |data|
    {
      LineInData(lineLength, height, y);
      lineLength * y
    }

    /// The colour of source pixel (x, y).
    ghost function Pixel(x: nat, y: nat): Color
      requires Valid() && format != NoChange && x < width && y < height
    {
      var start := LineStart(y);
      Texel(data[start..start + lineLength], width, format, x)
    }
  }

  lemma LineInData(lineLength: nat, height: nat, y: nat)
    requires y < height
    ensures lineLength * y + lineLength <= lineLength * height
  {
    assert lineLength * (y + 1) <= lineLength * height;
  }

  lemma EarlierRow(y: nat, yDest: nat, w: nat)
    requires y < yDest
    ensures y * w + w <= yDest * w
  {
    assert (y + 1) * w <= yDest * w;
  }

  class ImageResampler {
    var horizontalDecimation: int
    var verticalDecimation: int
    var cropLeft: int
    var cropRight: int
    var cropTop: int
    var cropBottom: int
    var videoMode: VideoMode

    constructor ()
      ensures Axes(0, 0) == (Axis(0, 0, 0, 1), Axis(0, 0, 0, 1)) && videoMode == Video2D
    {
      horizontalDecimation, verticalDecimation := 1, 1;
      cropLeft, cropRight, cropTop, cropBottom := 0, 0, 0, 0;
      videoMode := Video2D;
    }

    /// The horizontal and the vertical axis; a 3D mode keeps one half of the picture.
    function Axes(width: nat, height: nat): (Axis, Axis)
      reads this
    {
      (Axis(width, cropLeft, if videoMode.Video3DSBS? then width / 2 else cropRight, horizontalDecimation),
       Axis(height, cropTop, if videoMode.Video3DTAB? then height / 2 else cropBottom, verticalDecimation))
    }

    /** A 3D mode keeps the left or the upper half: no sample is taken from the other one, and the other axis is
        cropped as configured. */
    lemma ThreeDKeepsHalf(width: nat, height: nat, i: nat)
      requires Axes(width, height).0.Valid() && Axes(width, height).1.Valid()
      ensures var (h, v) := Axes(width, height);
              && (videoMode == Video3DSBS && i < h.OutputSize() ==> h.SampleAt(i) < width - width / 2)
              && (videoMode == Video3DTAB && i < v.OutputSize() ==> v.SampleAt(i) < height - height / 2)
              && (videoMode != Video3DSBS ==> h == Axis(width, cropLeft, cropRight, horizontalDecimation))
              && (videoMode != Video3DTAB ==> v == Axis(height, cropTop, cropBottom, verticalDecimation))
    {
      var (h, v) := Axes(width, height);
      SamplesFillCrop(h, i);
      SamplesFillCrop(v, i);
    }

    ghost predicate Usable(width: nat, height: nat)
      reads this
    {
      var (h, v) := Axes(width, height);
      && h.Valid() && v.Valid() && h.cropLow >= 0 && h.cropHigh >= 0 && v.cropLow >= 0 && v.cropHigh >= 0
      && h.OutputSize() >= 0 && v.OutputSize() >= 0
    }

    /// Output pixel (x, y) is the source pixel its two samples point to.
    ghost function Resampled(src: Source, x: nat, y: nat): Color
      requires Usable(src.width, src.height) && src.Valid() && src.format != NoChange
      requires x < Axes(src.width, src.height).0.OutputSize() && y < Axes(src.width, src.height).1.OutputSize()
      reads this
    {
      var (h, v) := Axes(src.width, src.height);
      SamplesFillCrop(v, y);
      SamplesOrdered(v, y);
      RowPixel(src, h, x, v.SampleAt(y))
    }

    static ghost predicate Inside(h: Axis, src: Source) {
      h.Valid() && h.size == src.width && h.cropLow >= 0 && h.cropHigh >= 0
    }

    static ghost function RowPixel(src: Source, h: Axis, x: nat, ySource: nat): Color
      requires src.Valid() && src.format != NoChange && Inside(h, src)
      requires x < h.OutputSize() && ySource < src.height
    {
      SamplesFillCrop(h, x);
      SamplesOrdered(h, x);
      src.Pixel(h.SampleAt(x), ySource)
    }

    ghost predicate RowDone(src: Source, output: OutputImage, y: nat)
      requires Usable(src.width, src.height) && src.Valid() && src.format != NoChange
      reads this, output, output.pixels
    {
      && output.Valid() && output.width >= Axes(src.width, src.height).0.OutputSize()
      && y < Axes(src.width, src.height).1.OutputSize() <= output.height
      && forall x: nat | x < Axes(src.width, src.height).0.OutputSize() ::
           output.pixels[output.RowStart(y) + x] == Resampled(src, x, y)
    }

    static lemma SamplesOrdered(a: Axis, i: nat)
      requires a.Valid()
      ensures a.SampleAt(i) >= a.cropLow && a.SampleAt(i + 1) == a.SampleAt(i) + a.decimation
    {}

    /// Resizes the output if needed, then fills it row by row.
    method ProcessImage(src: Source, output: OutputImage)
      requires Usable(src.width, src.height) && src.Valid() && output.Valid()
      requires var (h, v) := Axes(src.width, src.height);
               || ResizeFires(output.width, output.height, h.OutputSize(), v.OutputSize())
               || (h.OutputSize() <= output.width && v.OutputSize() <= output.height)
      modifies output, output.pixels
      ensures var (h, v) := Axes(src.width, src.height);
              && output.Valid()
              && (output.width, output.height) ==
                 if ResizeFires(old(output.width), old(output.height), h.OutputSize(), v.OutputSize())
                 then (h.OutputSize(), v.OutputSize()) else (old(output.width), old(output.height))
      ensures src.format != NoChange ==>
        forall y: nat | y < Axes(src.width, src.height).1.OutputSize() :: RowDone(src, output, y)
      ensures src.format == NoChange && output.pixels == old(output.pixels) ==>
        output.pixels[..] == old(output.pixels[..])
    {
      var (horizontal, vertical) := Axes(src.width, src.height);
      var outputWidth, outputHeight := horizontal.OutputSize(), vertical.OutputSize();
      if output.height != outputHeight && output.width != outputWidth {
        output.Resize(outputWidth, outputHeight);
      }
      if src.format == NoChange { return; }
      ghost var outW, outH := output.width, output.height;
      var ySource := vertical.cropLow + vertical.decimation / 2;
      for yDest := 0 to outputHeight
        invariant ySource == vertical.SampleAt(yDest)
        invariant output.Valid() && output.width == outW && output.height == outH
        invariant output.pixels == old(output.pixels) || fresh(output.pixels)
        invariant forall y: nat | y < yDest :: RowDone(src, output, y)
      {
        SamplesFillCrop(vertical, yDest);
        SamplesOrdered(vertical, yDest);
        ProcessRow(src, output, ySource, yDest);
        ySource := ySource + vertical.decimation;
      }
    }

    /// One row of the output; the rows above stay as they are.
    method ProcessRow(src: Source, output: OutputImage, ySource: nat, yDest: nat)
      requires Usable(src.width, src.height) && src.Valid() && src.format != NoChange
      requires output.Valid() && output.width >= Axes(src.width, src.height).0.OutputSize()
      requires yDest < Axes(src.width, src.height).1.OutputSize() <= output.height
      requires ySource == Axes(src.width, src.height).1.SampleAt(yDest) < src.height
      modifies output.pixels
      ensures RowDone(src, output, yDest)
      ensures forall y: nat | y < yDest && old(RowDone(src, output, y)) :: RowDone(src, output, y)
    {
      var horizontal := Axes(src.width, src.height).0;
      WriteRow(src, output.pixels, output.RowStart(yDest), horizontal, ySource);
      forall y: nat | y < yDest && old(RowDone(src, output, y)) ensures RowDone(src, output, y) {
        output.RowsApart(y, yDest);
      }
    }

    /// The inner loop.
    static method WriteRow(src: Source, pixels: array<Color>, first: nat, horizontal: Axis, ySource: nat)
      requires src.Valid() && src.format != NoChange && Inside(horizontal, src) && ySource < src.height
      requires horizontal.OutputSize() >= 0 && first + horizontal.OutputSize() <= pixels.Length
      modifies pixels
      ensures forall x: nat | x < horizontal.OutputSize() :: pixels[first + x] == RowPixel(src, horizontal, x, ySource)
      ensures forall p | 0 <= p < first :: pixels[p] == old(pixels[p])
    {
      var n := horizontal.OutputSize();
      var xSource := horizontal.cropLow + horizontal.decimation / 2;
      for xDest := 0 to n
        invariant xSource == horizontal.SampleAt(xDest)
        invariant forall x: nat | x < xDest :: pixels[first + x] == RowPixel(src, horizontal, x, ySource)
        invariant forall p | 0 <= p < first :: pixels[p] == old(pixels[p])
      {
        SamplesFillCrop(horizontal, xDest);
        SamplesOrdered(horizontal, xDest);
        var rgb := ReadPixel(src, xSource, ySource);
        pixels[first + xDest] := rgb;
        xSource := xSource + horizontal.decimation;
      }
    }

    static method ReadPixel(src: Source, x: nat, y: nat) returns (rgb: Color)
      requires src.Valid() && src.format != NoChange && x < src.width && y < src.height
      ensures rgb == src.Pixel(x, y)
    {
      rgb := ReadTexel(src.data, src.LineStart(y), src.lineLength, src.width, src.format, x);
    }

    /// The reads of one source pixel, format by format.
    static method ReadTexel(data: seq<byte>, base: nat, lineLength: nat, width: nat, format: PixelFormat, x: nat)
      returns (rgb: Color)
      requires base + lineLength <= |data| && format != NoChange && x < width
      requires LineFits(data[base..base + lineLength], width, format)
      ensures rgb == Texel(data[base..base + lineLength], width, format, x)
    {
      match format
      case UYVY | YUYV =>
        rgb := ReadPacked(data, base, lineLength, width, format, x);
      case BGR16 =>
        var index := base + x * 2;
        rgb := Bgr16(data[index], data[index + 1]);
      case BGR24 =>
        var index := base + x * 3;
        rgb := Color(data[index + 2], data[index + 1], data[index]);
      case RGB32 =>
        var index := base + x * 4;
        rgb := Color(data[index], data[index + 1], data[index + 2]);
      case BGR32 =>
        var index := base + x * 4;
        rgb := Color(data[index + 2], data[index + 1], data[index]);
    }

    static method ReadPacked(data: seq<byte>, base: nat, lineLength: nat, width: nat, format: PixelFormat, x: nat)
      returns (rgb: Color)
      requires base + lineLength <= |data| && Packed(format) && x < width
      requires LineFits(data[base..base + lineLength], width, format)
      ensures rgb == Texel(data[base..base + lineLength], width, format, x)
    {
      ReadsStayInLine(format, x, width);
      var index := base + x * 2;
      var even := x % 2 == 0;
      var y: byte, u: byte, v: byte;
      if format == UYVY {
        y := data[index + 1];
        u := if even then data[index] else data[index - 2];
        v := if even then data[index + 2] else data[index];
      } else {
        y := data[index];
        u := if even then data[index + 1] else data[index - 1];
        v := if even then data[index + 3] else data[index + 1];
      }
      ghost var line := data[base..base + lineLength];
      assert y == line[YOffset(format, x)] && u == line[UOffset(format, x)] && v == line[VOffset(format, x)];
      rgb := Yuv2Rgb(y, u, v);
    }
  }
}
