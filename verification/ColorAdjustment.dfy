/** Trilinear colour adjustment between eight configured corner colours, in byte arithmetic. */
module TrilinearAdjustment {
  import opened Colors

  /// The eight corners of the colour cube; each is named by which channels it carries.
  datatype Corner = Corner(red: bool, green: bool, blue: bool)

  const CORNERS: seq<Corner> := [
    Corner(false, false, false), Corner(true, false, false), Corner(false, true, false), Corner(false, false, true),
    Corner(false, true, true), Corner(true, false, true), Corner(true, true, false), Corner(true, true, true)]

  /// One adjustment triple per corner.
  datatype Adjustments = Adjustments(black: Color, red: Color, green: Color, blue: Color,
                                     cyan: Color, magenta: Color, yellow: Color, white: Color)

  /// The triples used when nothing is configured.
  const DEFAULTS := Adjustments(
    Color(0, 0, 0), Color(255, 0, 0), Color(0, 255, 0), Color(0, 0, 255),
    Color(0, 255, 255), Color(255, 0, 255), Color(255, 255, 0), Color(255, 255, 255))

  datatype Weights = Weights(black: byte, red: byte, green: byte, blue: byte,
                             cyan: byte, magenta: byte, yellow: byte, white: byte)

  function Side(v: byte, on: bool): byte { if on then v else 255 - v }

  /// The exact share of a corner, scaled by 255 cubed.
  function Product(c: Color, k: Corner): nat {
    Mul3(Side(c.red, k.red), Side(c.green, k.green), Side(c.blue, k.blue))
  }

  function Mul3(a: byte, b: byte, c: byte): (r: nat)
    ensures r <= 16581375
  {
    Mul3Bound(a, b, c);
    a * b * c
  }

  lemma Mul3Bound(a: byte, b: byte, c: byte)
    ensures 0 <= a * b * c <= 16581375
  {
    assert 0 <= a * b <= 255 * 255 by { assert a * b <= 255 * b; }
    var ab := a * b;
    assert 0 <= ab * c <= 65025 * 255 by { assert ab * c <= 65025 * c; }
  }

  /// The byte weight of a corner.
  function Weight(c: Color, k: Corner): (w: byte) {
    Product(c, k) / 65025
  }

  /** The eight exact shares add up to 255 cubed; along one side they add up to the channel itself. */
  lemma ProductsSum(r: int, g: int, b: int)
    ensures (255-r)*(255-g)*(255-b) + r*(255-g)*(255-b) + (255-r)*g*(255-b) + (255-r)*(255-g)*b
          + (255-r)*g*b + r*(255-g)*b + r*g*(255-b) + r*g*b == 16581375
  {
    assert (255-r)*(255-g)*(255-b) + r*(255-g)*(255-b) == 255 * ((255-g)*(255-b));
    assert (255-r)*g*(255-b) + r*g*(255-b) == 255 * (g*(255-b));
    assert (255-r)*(255-g)*b + r*(255-g)*b == 255 * ((255-g)*b);
    assert (255-r)*g*b + r*g*b == 255 * (g*b);
    assert (255-g)*(255-b) + g*(255-b) == 255 * (255-b);
    assert (255-g)*b + g*b == 255 * b;
  }

  lemma SideSum(v: int, s: int, t: int)
    ensures v*(255-s)*(255-t) + v*(255-s)*t + v*s*(255-t) + v*s*t == 65025 * v
  {
    assert v*(255-s)*(255-t) + v*(255-s)*t == 255 * (v*(255-s));
    assert v*s*(255-t) + v*s*t == 255 * (v*s);
    assert v*(255-s) + v*s == 255 * v;
  }

  function WeightsOf(c: Color): Weights {
    Weights(Weight(c, CORNERS[0]), Weight(c, CORNERS[1]), Weight(c, CORNERS[2]), Weight(c, CORNERS[3]),
            Weight(c, CORNERS[4]), Weight(c, CORNERS[5]), Weight(c, CORNERS[6]), Weight(c, CORNERS[7]))
  }

  function Total(w: Weights): nat {
    w.black + w.red + w.green + w.blue + w.cyan + w.magenta + w.yellow + w.white
  }

  lemma EightFloors(p0: nat, p1: nat, p2: nat, p3: nat, p4: nat, p5: nat, p6: nat, p7: nat)
    requires p0 + p1 + p2 + p3 + p4 + p5 + p6 + p7 == 16581375
    ensures 248 <= p0/65025 + p1/65025 + p2/65025 + p3/65025 + p4/65025 + p5/65025 + p6/65025 + p7/65025 <= 255
  {}

  /** The eight truncated weights of any colour add up to between 248 and 255. */
  lemma WeightsTotal(c: Color)
    ensures 248 <= Total(WeightsOf(c)) <= 255
  {
    ProductsSum(c.red, c.green, c.blue);
    EightFloors(Product(c, CORNERS[0]), Product(c, CORNERS[1]), Product(c, CORNERS[2]), Product(c, CORNERS[3]),
                Product(c, CORNERS[4]), Product(c, CORNERS[5]), Product(c, CORNERS[6]), Product(c, CORNERS[7]));
  }

  /// One entry of a channel's lookup table.
  function Scale(weight: byte, adjust: byte): (r: byte) {
    ScaleBound(weight, adjust);
    Min(weight * adjust / 255, 255)
  }

  lemma ScaleBound(weight: byte, adjust: byte)
    ensures 0 <= weight * adjust / 255 <= weight
    ensures 255 * (weight * adjust / 255) <= weight * adjust
  {
    ProductBound(weight, adjust);
    FloorBound(weight * adjust, weight);
  }

  /** A table entry is the exact share w * a / 255, rounded down. */
  lemma ScaleExactly(weight: byte, adjust: byte)
    ensures 255 * Scale(weight, adjust) <= weight * adjust < 255 * Scale(weight, adjust) + 255
  {
    ScaleBound(weight, adjust);
  }

  lemma ProductBound(weight: byte, adjust: byte)
    ensures 0 <= weight * adjust <= 255 * weight
  {}

  lemma FloorBound(p: int, weight: byte)
    requires 0 <= p <= 255 * weight
    ensures 0 <= p / 255 <= weight && 255 * (p / 255) <= p
  {}

  /// The unreduced sum of one output channel.
  function ChannelSum(a: Adjustments, w: Weights, ch: Channel): nat {
    Scale(w.black, Get(a.black, ch)) + Scale(w.red, Get(a.red, ch)) + Scale(w.green, Get(a.green, ch))
    + Scale(w.blue, Get(a.blue, ch)) + Scale(w.cyan, Get(a.cyan, ch)) + Scale(w.magenta, Get(a.magenta, ch))
    + Scale(w.yellow, Get(a.yellow, ch)) + Scale(w.white, Get(a.white, ch))
  }

  /// Largest configured corner value of a channel.
  function Largest(a: Adjustments, ch: Channel): byte {
    Max(Max(Max(Get(a.black, ch), Get(a.red, ch)), Max(Get(a.green, ch), Get(a.blue, ch))),
        Max(Max(Get(a.cyan, ch), Get(a.magenta, ch)), Max(Get(a.yellow, ch), Get(a.white, ch))))
  }

  lemma ScaleAtMost(w: byte, x: byte, m: byte)
    requires x <= m
    ensures 255 * Scale(w, x) <= m * w
  {
    ScaleBound(w, x);
    MulMonotone(w, x, m);
  }

  lemma MulMonotone(w: nat, x: int, m: int)
    requires x <= m
    ensures w * x <= m * w
  {}

  lemma EightScales(s0: nat, s1: nat, s2: nat, s3: nat, s4: nat, s5: nat, s6: nat, s7: nat,
                    p0: nat, p1: nat, p2: nat, p3: nat, p4: nat, p5: nat, p6: nat, p7: nat)
    requires 255 * s0 <= p0 && 255 * s1 <= p1 && 255 * s2 <= p2 && 255 * s3 <= p3
    requires 255 * s4 <= p4 && 255 * s5 <= p5 && 255 * s6 <= p6 && 255 * s7 <= p7
    ensures 255 * (s0 + s1 + s2 + s3 + s4 + s5 + s6 + s7) <= p0 + p1 + p2 + p3 + p4 + p5 + p6 + p7
  {}

  lemma DistributeEight(m: nat, w0: nat, w1: nat, w2: nat, w3: nat, w4: nat, w5: nat, w6: nat, w7: nat)
    ensures m * w0 + m * w1 + m * w2 + m * w3 + m * w4 + m * w5 + m * w6 + m * w7
         == m * (w0 + w1 + w2 + w3 + w4 + w5 + w6 + w7)
  {}

  lemma SumAtMost(s: nat, m: nat, total: nat)
    requires 255 * s <= m * total && total <= 255
    ensures s <= m
  {
    MulMonotone(m, total, 255);
  }

  lemma SumOfScales(a: Adjustments, w: Weights, ch: Channel, m: byte)
    requires m == Largest(a, ch)
    ensures 255 * ChannelSum(a, w, ch) <= m * Total(w)
  {
    ScaleAtMost(w.black, Get(a.black, ch), m);
    ScaleAtMost(w.red, Get(a.red, ch), m);
    ScaleAtMost(w.green, Get(a.green, ch), m);
    ScaleAtMost(w.blue, Get(a.blue, ch), m);
    ScaleAtMost(w.cyan, Get(a.cyan, ch), m);
    ScaleAtMost(w.magenta, Get(a.magenta, ch), m);
    ScaleAtMost(w.yellow, Get(a.yellow, ch), m);
    ScaleAtMost(w.white, Get(a.white, ch), m);
    EightScales(Scale(w.black, Get(a.black, ch)), Scale(w.red, Get(a.red, ch)), Scale(w.green, Get(a.green, ch)),
                Scale(w.blue, Get(a.blue, ch)), Scale(w.cyan, Get(a.cyan, ch)), Scale(w.magenta, Get(a.magenta, ch)),
                Scale(w.yellow, Get(a.yellow, ch)), Scale(w.white, Get(a.white, ch)),
                m * w.black, m * w.red, m * w.green, m * w.blue, m * w.cyan, m * w.magenta, m * w.yellow, m * w.white);
    DistributeEight(m, w.black, w.red, w.green, w.blue, w.cyan, w.magenta, w.yellow, w.white);
  }

  /** For any colour and any eight triples the channel sum does not exceed the largest corner value,
      so adding the eight bytes never wraps. */
  lemma NeverWraps(a: Adjustments, c: Color, ch: Channel)
    ensures ChannelSum(a, WeightsOf(c), ch) <= Largest(a, ch) <= 255
  {
    var w, m := WeightsOf(c), Largest(a, ch);
    SumOfScales(a, w, ch, m);
    WeightsTotal(c);
    SumAtMost(ChannelSum(a, w, ch), m, Total(w));
  }

  /// What the eight uint8_t additions leave.
  function Adjusted(a: Adjustments, c: Color): Color {
    var w := WeightsOf(c);
    Color(Wrapped(ChannelSum(a, w, Red)), Wrapped(ChannelSum(a, w, Green)), Wrapped(ChannelSum(a, w, Blue)))
  }

  function Wrapped(s: nat): byte { s % 256 }

  lemma AdjustedChannel(a: Adjustments, c: Color, ch: Channel)
    ensures Get(Adjusted(a, c), ch) == Wrapped(ChannelSum(a, WeightsOf(c), ch))
  {}

  lemma AdjustedIsExactSum(a: Adjustments, c: Color, ch: Channel)
    ensures Get(Adjusted(a, c), ch) == ChannelSum(a, WeightsOf(c), ch) <= Largest(a, ch)
  {
    NeverWraps(a, c, ch);
    AdjustedChannel(a, c, ch);
  }

  lemma FourFloors(p0: nat, p1: nat, p2: nat, p3: nat, v: byte)
    requires p0 + p1 + p2 + p3 == 65025 * v
    ensures v - 3 <= p0/65025 + p1/65025 + p2/65025 + p3/65025 <= v
    ensures p0/65025 + p1/65025 + p2/65025 + p3/65025 == v
       <==> p0 % 65025 == 0 && p1 % 65025 == 0 && p2 % 65025 == 0 && p3 % 65025 == 0
  {}

  lemma DefaultScale(w: byte)
    ensures Scale(w, 255) == w && Scale(w, 0) == 0
  {}

  /// Channel ch first, then the two others.
  function Axes(c: Color, ch: Channel): (byte, byte, byte) {
    match ch
    case Red => (c.red, c.green, c.blue)
    case Green => (c.green, c.red, c.blue)
    case Blue => (c.blue, c.red, c.green)
  }

  /// The exact shares of the four corners that carry channel ch are all multiples of 255 squared.
  predicate Divisible(c: Color, ch: Channel) {
    var (v, s, t) := Axes(c, ch);
    DivisibleAt(v, s, t)
  }

  predicate DivisibleAt(v: byte, s: byte, t: byte) {
    && Mul3(v, 255 - s, 255 - t) % 65025 == 0 && Mul3(v, 255 - s, t) % 65025 == 0
    && Mul3(v, s, 255 - t) % 65025 == 0 && Mul3(v, s, t) % 65025 == 0
  }

  /// The truncated shares of the four corners that carry a channel with value v.
  function Floors(v: byte, s: byte, t: byte): nat {
    Mul3(v, 255 - s, 255 - t) / 65025 + Mul3(v, 255 - s, t) / 65025
    + Mul3(v, s, 255 - t) / 65025 + Mul3(v, s, t) / 65025
  }

  lemma Mul3Commute(a: byte, b: byte, c: byte)
    ensures Mul3(a, b, c) == Mul3(b, a, c) == Mul3(b, c, a)
  {}

  lemma ShareBounds(v: byte, s: byte, t: byte)
    ensures v - 3 <= Floors(v, s, t) <= v
    ensures Floors(v, s, t) == v <==> DivisibleAt(v, s, t)
  {
    SideSum(v, s, t);
    FourFloors(Mul3(v, 255-s, 255-t), Mul3(v, 255-s, t), Mul3(v, s, 255-t), Mul3(v, s, t), v);
  }

  /** With the default triples every output channel is at most three below its input, and equal to it
      exactly when nothing was truncated. */
  lemma DefaultsNearlyIdentity(c: Color, ch: Channel)
    ensures var r := Get(Adjusted(DEFAULTS, c), ch);
            Get(c, ch) - 3 <= r <= Get(c, ch) && (r == Get(c, ch) <==> Divisible(c, ch))
  {
    DefaultsShare(c, ch);
    DefaultSum(c, ch);
  }

  lemma DefaultsShare(c: Color, ch: Channel)
    ensures Get(Adjusted(DEFAULTS, c), ch) == DefaultShare(c, ch)
  {
    AdjustedIsExactSum(DEFAULTS, c, ch);
    var w := WeightsOf(c);
    DefaultScale(w.black); DefaultScale(w.red); DefaultScale(w.green); DefaultScale(w.blue);
    DefaultScale(w.cyan); DefaultScale(w.magenta); DefaultScale(w.yellow); DefaultScale(w.white);
  }

  /// The four weights that reach channel ch under the default triples.
  function DefaultShare(c: Color, ch: Channel): nat {
    var w := WeightsOf(c);
    match ch
    case Red => w.red + w.magenta + w.yellow + w.white
    case Green => w.green + w.cyan + w.yellow + w.white
    case Blue => w.blue + w.cyan + w.magenta + w.white
  }

  lemma ShareOfAxes(c: Color, ch: Channel)
    ensures var (v, s, t) := Axes(c, ch);
            DefaultShare(c, ch) == Floors(v, s, t)
  {
    var (v, s, t) := Axes(c, ch);
    Mul3Commute(v, 255-s, 255-t); Mul3Commute(v, 255-s, t); Mul3Commute(v, s, 255-t); Mul3Commute(v, s, t);
  }

  lemma DefaultSum(c: Color, ch: Channel)
    ensures Get(c, ch) - 3 <= DefaultShare(c, ch) <= Get(c, ch)
    ensures DefaultShare(c, ch) == Get(c, ch) <==> Divisible(c, ch)
  {
    var (v, s, t) := Axes(c, ch);
    ShareOfAxes(c, ch);
    ShareBounds(v, s, t);
  }

  /** The eight corner colours themselves come out unchanged. */
  lemma CornersAreExact(k: Corner)
    ensures var c := Color(if k.red then 255 else 0, if k.green then 255 else 0, if k.blue then 255 else 0);
            Adjusted(DEFAULTS, c) == c
  {
    var c := Color(if k.red then 255 else 0, if k.green then 255 else 0, if k.blue then 255 else 0);
    forall ch ensures Get(Adjusted(DEFAULTS, c), ch) == Get(c, ch) {
      CornerDivisible(c, ch);
      DefaultsNearlyIdentity(c, ch);
    }
    assert Get(Adjusted(DEFAULTS, c), Red) == c.red;
    assert Get(Adjusted(DEFAULTS, c), Green) == c.green;
    assert Get(Adjusted(DEFAULTS, c), Blue) == c.blue;
  }

  predicate Extreme(v: byte) { v == 0 || v == 255 }

  lemma Mul3OfExtremes(a: byte, b: byte, c: byte)
    requires Extreme(a) && Extreme(b) && Extreme(c)
    ensures Mul3(a, b, c) % 65025 == 0
  {
    if a == 0 || b == 0 { assert a * b == 0; }
  }

  lemma CornerDivisible(c: Color, ch: Channel)
    requires Extreme(c.red) && Extreme(c.green) && Extreme(c.blue)
    ensures Divisible(c, ch)
  {
    var (v, s, t) := Axes(c, ch);
    Mul3OfExtremes(v, 255 - s, 255 - t);
    Mul3OfExtremes(v, 255 - s, t);
    Mul3OfExtremes(v, s, 255 - t);
    Mul3OfExtremes(v, s, t);
  }

  lemma ShareOfLoss()
    ensures DefaultShare(Color(3, 89, 125), Red) == 0
  {
    assert Mul3(3, 166, 130) == 64740 && Mul3(3, 166, 125) == 62250;
    assert Mul3(3, 89, 130) == 34710 && Mul3(3, 89, 125) == 33375;
  }

  /** The loss of three is reached. */
  lemma LossOfThree()
    ensures Adjusted(DEFAULTS, Color(3, 89, 125)).red == 0
  {
    DefaultsShare(Color(3, 89, 125), Red);
    ShareOfLoss();
  }

  // ----- any configured triples -----

  /// The triple configured for a corner of the colour cube.
  function TripleOf(a: Adjustments, k: Corner): Color {
    if !k.red && !k.green && !k.blue then a.black
    else if k.red && !k.green && !k.blue then a.red
    else if !k.red && k.green && !k.blue then a.green
    else if !k.red && !k.green && k.blue then a.blue
    else if !k.red then a.cyan
    else if !k.green then a.magenta
    else if !k.blue then a.yellow
    else a.white
  }

  function CornerColor(k: Corner): Color {
    Color(if k.red then 255 else 0, if k.green then 255 else 0, if k.blue then 255 else 0)
  }

  lemma CornerWeight(k: Corner, j: Corner)
    ensures Weight(CornerColor(k), j) == if j == k then 255 else 0
  {
    var c := CornerColor(k);
    var x, y, z := Side(c.red, j.red), Side(c.green, j.green), Side(c.blue, j.blue);
    if j != k {
      if x == 0 || y == 0 { assert x * y == 0; }
      assert Mul3(x, y, z) == 0;
    }
  }

  lemma FullScale(x: byte)
    ensures Scale(255, x) == x && Scale(0, x) == 0
  {
    ScaleExactly(255, x);
    ScaleExactly(0, x);
  }

  /** Whatever is configured, each corner colour of the cube comes out as exactly the triple configured for
      it. */
  lemma CornersComeOut(a: Adjustments, k: Corner)
    ensures Adjusted(a, CornerColor(k)) == TripleOf(a, k)
  {
    forall ch ensures Get(Adjusted(a, CornerColor(k)), ch) == Get(TripleOf(a, k), ch) {
      AdjustedIsExactSum(a, CornerColor(k), ch);
      CornerSum(a, k, ch);
    }
    var r, t := Adjusted(a, CornerColor(k)), TripleOf(a, k);
    assert Get(r, Red) == Get(t, Red) && Get(r, Green) == Get(t, Green) && Get(r, Blue) == Get(t, Blue);
  }

  lemma CornerSum(a: Adjustments, k: Corner, ch: Channel)
    ensures ChannelSum(a, WeightsOf(CornerColor(k)), ch) == Get(TripleOf(a, k), ch)
  {
    CornerWeight(k, CORNERS[0]); CornerWeight(k, CORNERS[1]); CornerWeight(k, CORNERS[2]); CornerWeight(k, CORNERS[3]);
    CornerWeight(k, CORNERS[4]); CornerWeight(k, CORNERS[5]); CornerWeight(k, CORNERS[6]); CornerWeight(k, CORNERS[7]);
    FullScale(Get(a.black, ch)); FullScale(Get(a.red, ch)); FullScale(Get(a.green, ch)); FullScale(Get(a.blue, ch));
    FullScale(Get(a.cyan, ch)); FullScale(Get(a.magenta, ch));
    FullScale(Get(a.yellow, ch)); FullScale(Get(a.white, ch));
  }

  // ----- the exact interpolation -----

  /// One corner's part of the exact interpolation, scaled by 255 cubed.
  function Part(a: Adjustments, c: Color, k: Corner, ch: Channel): nat {
    Product(c, k) * Get(TripleOf(a, k), ch)
  }

  /// Trilinear interpolation between the eight triples, scaled by 255 cubed.
  function Interpolated(a: Adjustments, c: Color, ch: Channel): nat {
    Part(a, c, CORNERS[0], ch) + Part(a, c, CORNERS[1], ch) + Part(a, c, CORNERS[2], ch) + Part(a, c, CORNERS[3], ch)
    + Part(a, c, CORNERS[4], ch) + Part(a, c, CORNERS[5], ch) + Part(a, c, CORNERS[6], ch) + Part(a, c, CORNERS[7], ch)
  }

  /// Two truncations lose less than two.
  lemma PartLoss(p: nat, w: nat, x: byte, s: nat)
    requires 65025 * w <= p < 65025 * w + 65025
    requires 255 * s <= w * x < 255 * s + 255
    ensures 16581375 * s <= p * x < 16581375 * s + 2 * 16581375
  {
    var wx := w * x;
    var rest := p - 65025 * w;
    assert p * x == 65025 * wx + rest * x;
    assert 0 <= rest * x <= 65024 * 255 by { RestBound(rest, x); }
  }

  lemma RestBound(rest: int, x: byte)
    requires 0 <= rest <= 65024
    ensures 0 <= rest * x <= 65024 * 255
  {
    assert rest * x <= rest * 255;
  }

  lemma CornerLoss(a: Adjustments, c: Color, k: Corner, ch: Channel)
    ensures var s := Scale(Weight(c, k), Get(TripleOf(a, k), ch));
            16581375 * s <= Part(a, c, k, ch) < 16581375 * s + 2 * 16581375
  {
    var p, w, x := Product(c, k), Weight(c, k), Get(TripleOf(a, k), ch);
    ScaleExactly(w, x);
    PartLoss(p, w, x, Scale(w, x));
  }

  /** The adjusted channel is the exact trilinear interpolation between the configured triples, rounded down,
      with a total loss of less than sixteen, for every colour and every configuration. */
  lemma AdjustedInterpolates(a: Adjustments, c: Color, ch: Channel)
    ensures var r := Get(Adjusted(a, c), ch);
            16581375 * r <= Interpolated(a, c, ch) < 16581375 * (r + 16)
  {
    AdjustedIsExactSum(a, c, ch);
    CornerLoss(a, c, CORNERS[0], ch); CornerLoss(a, c, CORNERS[1], ch); CornerLoss(a, c, CORNERS[2], ch);
    CornerLoss(a, c, CORNERS[3], ch); CornerLoss(a, c, CORNERS[4], ch); CornerLoss(a, c, CORNERS[5], ch);
    CornerLoss(a, c, CORNERS[6], ch); CornerLoss(a, c, CORNERS[7], ch);
  }
}
