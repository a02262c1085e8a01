/** The adjustment objects: lookup tables per corner and the in-place pass over the led colours. */
module MultiColorAdjustments {
  import opened Colors
  import opened TrilinearAdjustment

  function Index(ch: Channel): nat { match ch case Red => 0 case Green => 1 case Blue => 2 }

  class RgbChannelAdjustment {
    var adjust: Color
    const mapping: array2<byte>

    /// The table holds the scaled value of every input for every channel.
    ghost predicate Valid()
      reads this, mapping
    {
      && mapping.Length0 == 3 && mapping.Length1 == 256
      && forall ch: Channel, v: byte :: mapping[Index(ch), v] == Scale(v, Get(adjust, ch))
    }

    constructor (adjustR: byte, adjustG: byte, adjustB: byte)
      ensures Valid() && adjust == Color(adjustR, adjustG, adjustB) && fresh(mapping)
    {
      adjust := BLACK;
      mapping := new byte[3, 256]((c, v) => 0);
      new;
      SetAdjustment(adjustR, adjustG, adjustB);
    }

    method SetAdjustment(adjustR: byte, adjustG: byte, adjustB: byte)
      requires mapping.Length0 == 3 && mapping.Length1 == 256
      modifies this, mapping
      ensures Valid() && adjust == Color(adjustR, adjustG, adjustB)
    {
      adjust := Color(adjustR, adjustG, adjustB);
      InitializeMapping();
    }

    method SetAdjustmentR(adjustR: byte)
      requires Valid()
      modifies this, mapping
      ensures Valid() && adjust == old(adjust).(red := adjustR)
    {
      SetAdjustment(adjustR, adjust.green, adjust.blue);
    }

    method SetAdjustmentG(adjustG: byte)
      requires Valid()
      modifies this, mapping
      ensures Valid() && adjust == old(adjust).(green := adjustG)
    {
      SetAdjustment(adjust.red, adjustG, adjust.blue);
    }

    method SetAdjustmentB(adjustB: byte)
      requires Valid()
      modifies this, mapping
      ensures Valid() && adjust == old(adjust).(blue := adjustB)
    {
      SetAdjustment(adjust.red, adjust.green, adjustB);
    }

    method InitializeMapping()
      requires mapping.Length0 == 3 && mapping.Length1 == 256
      modifies mapping
      ensures Valid()
    {
      var channels := [Red, Green, Blue];
      for c := 0 to 3
        invariant forall j, v: byte | 0 <= j < c :: mapping[j, v] == Scale(v, Get(adjust, channels[j]))
      {
        for idx := 0 to 256
          invariant forall j, v: byte | 0 <= j < c :: mapping[j, v] == Scale(v, Get(adjust, channels[j]))
          invariant forall v: byte | v < idx :: mapping[c, v] == Scale(v, Get(adjust, channels[c]))
        {
          ScaleBound(idx, Get(adjust, channels[c]));
          mapping[c, idx] := Min(idx * Get(adjust, channels[c]) / 255, 255);
        }
      }
    }

    function Lookup(ch: Channel, input: byte): (r: byte)
      requires Valid()
      reads this, mapping
      ensures r == Scale(input, Get(adjust, ch))
    {
      mapping[Index(ch), input]
    }

    /// The three looked-up bytes for one corner weight.
    function LookupAll(input: byte): (r: Color)
      requires Valid()
      reads this, mapping
      ensures forall ch :: Get(r, ch) == Scale(input, Get(adjust, ch))
    {
      Color(Lookup(Red, input), Lookup(Green, input), Lookup(Blue, input))
    }
  }

  class ColorAdjustment {
    const id: string
    const black: RgbChannelAdjustment
    const red: RgbChannelAdjustment
    const green: RgbChannelAdjustment
    const blue: RgbChannelAdjustment
    const cyan: RgbChannelAdjustment
    const magenta: RgbChannelAdjustment
    const yellow: RgbChannelAdjustment
    const white: RgbChannelAdjustment
    /// Gamma, brightness and backlight, as any function on colours.
    var transform: Color -> Color

    ghost predicate Valid()
      reads this, black, red, green, blue, cyan, magenta, yellow, white,
            black.mapping, red.mapping, green.mapping, blue.mapping,
            cyan.mapping, magenta.mapping, yellow.mapping, white.mapping
    {
      && black.Valid() && red.Valid() && green.Valid() && blue.Valid()
      && cyan.Valid() && magenta.Valid() && yellow.Valid() && white.Valid()
    }

    ghost function Triples(): Adjustments
      reads black, red, green, blue, cyan, magenta, yellow, white
    {
      Adjustments(black.adjust, red.adjust, green.adjust, blue.adjust,
                  cyan.adjust, magenta.adjust, yellow.adjust, white.adjust)
    }

    constructor (id: string, black: RgbChannelAdjustment, red: RgbChannelAdjustment, green: RgbChannelAdjustment,
                 blue: RgbChannelAdjustment, cyan: RgbChannelAdjustment, magenta: RgbChannelAdjustment,
                 yellow: RgbChannelAdjustment, white: RgbChannelAdjustment, transform: Color -> Color)
      requires black.Valid() && red.Valid() && green.Valid() && blue.Valid()
      requires cyan.Valid() && magenta.Valid() && yellow.Valid() && white.Valid()
      ensures Valid() && this.id == id && this.transform == transform
      ensures Triples() == Adjustments(black.adjust, red.adjust, green.adjust, blue.adjust,
                                       cyan.adjust, magenta.adjust, yellow.adjust, white.adjust)
    {
      this.id, this.transform := id, transform;
      this.black, this.red, this.green, this.blue := black, red, green, blue;
      this.cyan, this.magenta, this.yellow, this.white := cyan, magenta, yellow, white;
    }

    /// One corner weight: the shared two-channel product times the third channel, over 255 squared.
    static method Truncate(shared: int, third: byte, ghost a: byte, ghost b: byte) returns (w: byte)
      requires shared == a * b
      ensures w == Mul3(a, b, third) / 65025
    {
      Mul3Bound(a, b, third);
      w := shared * third / 65025;
    }

    /// The eight corner weights of an already transformed colour.
    static method ComputeWeights(o: Color) returns (w: Weights)
      ensures w == WeightsOf(o)
    {
      var nrng := (255 - o.red) * (255 - o.green);
      var rng := o.red * (255 - o.green);
      var nrg := (255 - o.red) * o.green;
      var rg := o.red * o.green;
      var black := Truncate(nrng, 255 - o.blue, 255 - o.red, 255 - o.green);
      var red := Truncate(rng, 255 - o.blue, o.red, 255 - o.green);
      var green := Truncate(nrg, 255 - o.blue, 255 - o.red, o.green);
      var blue := Truncate(nrng, o.blue, 255 - o.red, 255 - o.green);
      var cyan := Truncate(nrg, o.blue, 255 - o.red, o.green);
      var magenta := Truncate(rng, o.blue, o.red, 255 - o.green);
      var yellow := Truncate(rg, 255 - o.blue, o.red, o.green);
      var white := Truncate(rg, o.blue, o.red, o.green);
      w := Weights(black, red, green, blue, cyan, magenta, yellow, white);
    }

    method AdjustColor(color: Color) returns (r: Color)
      requires Valid()
      ensures r == Adjusted(Triples(), transform(color))
    {
      var w := ComputeWeights(transform(color));
      var o, rr := black.LookupAll(w.black), red.LookupAll(w.red);
      var g, b := green.LookupAll(w.green), blue.LookupAll(w.blue);
      var c, m := cyan.LookupAll(w.cyan), magenta.LookupAll(w.magenta);
      var y, wh := yellow.LookupAll(w.yellow), white.LookupAll(w.white);
      r := Color((o.red + rr.red + g.red + b.red + c.red + m.red + y.red + wh.red) % 256,
                 (o.green + rr.green + g.green + b.green + c.green + m.green + y.green + wh.green) % 256,
                 (o.blue + rr.blue + g.blue + b.blue + c.blue + m.blue + y.blue + wh.blue) % 256);
      SumsOfLookups(Triples(), w, o, rr, g, b, c, m, y, wh);
    }

    static lemma SumsOfLookups(t: Adjustments, w: Weights, o: Color, rr: Color, g: Color, b: Color,
                               c: Color, m: Color, y: Color, wh: Color)
      requires forall ch :: Get(o, ch) == Scale(w.black, Get(t.black, ch))
      requires forall ch :: Get(rr, ch) == Scale(w.red, Get(t.red, ch))
      requires forall ch :: Get(g, ch) == Scale(w.green, Get(t.green, ch))
      requires forall ch :: Get(b, ch) == Scale(w.blue, Get(t.blue, ch))
      requires forall ch :: Get(c, ch) == Scale(w.cyan, Get(t.cyan, ch))
      requires forall ch :: Get(m, ch) == Scale(w.magenta, Get(t.magenta, ch))
      requires forall ch :: Get(y, ch) == Scale(w.yellow, Get(t.yellow, ch))
      requires forall ch :: Get(wh, ch) == Scale(w.white, Get(t.white, ch))
      ensures forall ch :: ChannelSum(t, w, ch) ==
                           Get(o, ch) + Get(rr, ch) + Get(g, ch) + Get(b, ch)
                           + Get(c, ch) + Get(m, ch) + Get(y, ch) + Get(wh, ch)
    {
    }
  }

  class MultiColorAdjustment {
    var adjustments: seq<ColorAdjustment>
    var ledAdjustments: seq<ColorAdjustment?>

    constructor (ledCnt: nat)
      ensures adjustments == [] && |ledAdjustments| == ledCnt
      ensures forall i | 0 <= i < ledCnt :: ledAdjustments[i] == null
    {
      adjustments := [];
      ledAdjustments := seq(ledCnt, i => null);
    }

    method AddAdjustment(adjustment: ColorAdjustment)
      modifies this`adjustments
      ensures adjustments == old(adjustments) + [adjustment]
    {
      adjustments := adjustments + [adjustment];
    }

    /// a is the first of the adjustments with this id, or null when there is none.
    static ghost predicate FirstWithId(adjustments: seq<ColorAdjustment>, id: string, a: ColorAdjustment?) {
      if a == null then forall i | 0 <= i < |adjustments| :: adjustments[i].id != id
      else exists k | 0 <= k < |adjustments| ::
        adjustments[k] == a && a.id == id && forall i | 0 <= i < k :: adjustments[i].id != id
    }

    /** An added adjustment is found under its id unless an earlier one has that id already. */
    static lemma AddedIsFound(adjustments: seq<ColorAdjustment>, added: ColorAdjustment, id: string,
                              a: ColorAdjustment?)
      requires FirstWithId(adjustments, id, a)
      ensures FirstWithId(adjustments + [added], id, if a == null && added.id == id then added else a)
    {
      var all := adjustments + [added];
      if a == null {
        assert all[|adjustments|] == added;
      } else {
        var k :| 0 <= k < |adjustments| && adjustments[k] == a && forall i | 0 <= i < k :: adjustments[i].id != id;
        assert all[k] == a;
      }
    }

    method GetAdjustment(id: string) returns (a: ColorAdjustment?)
      ensures FirstWithId(adjustments, id, a)
    {
      for i := 0 to |adjustments|
        invariant forall j | 0 <= j < i :: adjustments[j].id != id
      {
        if adjustments[i].id == id { return adjustments[i]; }
      }
      return null;
    }

    method SetAdjustmentForLed(id: string, startLed: nat, endLed: nat)
      requires startLed <= endLed < |ledAdjustments|
      modifies this`ledAdjustments
      ensures |ledAdjustments| == |old(ledAdjustments)|
      ensures exists a :: FirstWithId(adjustments, id, a) && forall i | 0 <= i < |ledAdjustments| ::
        ledAdjustments[i] == if startLed <= i <= endLed then a else old(ledAdjustments)[i]
    {
      var adjustment := GetAdjustment(id);
      ghost var was := ledAdjustments;
      for iLed := startLed to endLed + 1
        invariant |ledAdjustments| == |was|
        invariant forall i | 0 <= i < |was| :: ledAdjustments[i] == if startLed <= i < iLed then adjustment else was[i]
      {
        ledAdjustments := ledAdjustments[iLed := adjustment];
      }
      assert FirstWithId(adjustments, id, adjustment);
    }

    /// The led buffer goes in and comes out: every led that has an adjustment gets its adjusted
    /// colour, the others stay as they were.
    method ApplyAdjustment(buffer: seq<Color>) returns (ledColors: seq<Color>)
      requires forall i | 0 <= i < |ledAdjustments| && ledAdjustments[i] != null :: ledAdjustments[i].Valid()
      ensures |ledColors| == |buffer|
      ensures forall i | 0 <= i < |buffer| ::
        IsAdjusted(if i < |ledAdjustments| then ledAdjustments[i] else null, buffer[i], ledColors[i])
    {
      ledColors := buffer;
      var itCnt := Min(|ledAdjustments|, |ledColors|);
      for i := 0 to itCnt
        invariant |ledColors| == |buffer|
        invariant forall j | 0 <= j < i :: IsAdjusted(ledAdjustments[j], buffer[j], ledColors[j])
        invariant forall j | i <= j < |buffer| :: ledColors[j] == buffer[j]
      {
        var color := AdjustLed(ledAdjustments[i], ledColors[i]);
        ledColors := ledColors[i := color];
      }
    }

    /// The colour of a led with adjustment a, or without one.
    static ghost predicate IsAdjusted(a: ColorAdjustment?, color: Color, r: Color)
      reads a, if a == null then {} else {a.black, a.red, a.green, a.blue, a.cyan, a.magenta, a.yellow, a.white}
    {
      r == if a == null then color else Adjusted(a.Triples(), a.transform(color))
    }

    static method AdjustLed(a: ColorAdjustment?, color: Color) returns (r: Color)
      requires a != null ==> a.Valid()
      ensures IsAdjusted(a, color, r)
    {
      r := color;
      if a != null { r := a.AdjustColor(color); }
    }
  }
}
