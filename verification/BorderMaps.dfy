/** The image path as a state machine: which borders the pixel map has after any run of frames. */
module BorderMaps {
  import opened Colors
  import opened BorderHysteresis
  import opened LedsMapGeometry

  datatype PixelMap = NoMap | MapOf(bounds: Bounds)

  /// The map in use, the detector's switch, and the hysteresis state.
  datatype Processor = Processor(pixelMap: PixelMap, enabled: bool, border: State)

  /// A border as a frame of that size can show it.
  predicate Proper(b: BlackBorder) { b.unknown || (0 <= b.horizontalSize && 0 <= b.verticalSize) }

  function BoundsFor(width: nat, height: nat, b: BlackBorder): Bounds
    requires Proper(b)
  {
    if b.unknown then Bounds(width, height, 0, 0) else Bounds(width, height, b.horizontalSize, b.verticalSize)
  }

  /// A map for another size is replaced by one without borders.
  function SizeStep(p: Processor, width: nat, height: nat): (r: Processor)
    ensures r.pixelMap.MapOf? && r.pixelMap.bounds.width == width && r.pixelMap.bounds.height == height
  {
    if p.pixelMap.MapOf? && p.pixelMap.bounds.width == width && p.pixelMap.bounds.height == height then p
    else p.(pixelMap := MapOf(Bounds(width, height, 0, 0)))
  }

  /// A disabled detector takes borders off the map and forgets the current border; an enabled one feeds the
  /// hysteresis and, when that switches, builds the map for the border seen.
  function VerifyStep(cfg: Config, p: Processor, width: nat, height: nat, seen: BlackBorder): Processor
    requires p.pixelMap.MapOf? && Proper(seen)
  {
    if !p.enabled then
      if p.pixelMap.bounds.horizontalBorder != 0 || p.pixelMap.bounds.verticalBorder != 0 then
        p.(border := Step(cfg, p.border, Disabled), pixelMap := MapOf(Bounds(width, height, 0, 0)))
      else p
    else
      var (border, switched) := UpdateBorder(cfg, p.border, seen);
      p.(border := border, pixelMap := if switched then MapOf(BoundsFor(width, height, seen)) else p.pixelMap)
  }

  function FrameStep(cfg: Config, p: Processor, width: nat, height: nat, seen: BlackBorder): Processor
    requires Proper(seen)
  {
    VerifyStep(cfg, SizeStep(p, width, height), width, height, seen)
  }

  datatype Event = Image(width: nat, height: nat, seen: BlackBorder) | Switch(on: bool)

  predicate AllProper(es: seq<Event>) { forall e | e in es :: e.Image? ==> Proper(e.seen) }

  function EventStep(cfg: Config, p: Processor, e: Event): Processor
    requires e.Image? ==> Proper(e.seen)
  {
    match e
    case Image(width, height, seen) => FrameStep(cfg, p, width, height, seen)
    case Switch(on) => p.(enabled := on)
  }

  function RunFrom(cfg: Config, p: Processor, es: seq<Event>): Processor
    requires AllProper(es)
    decreases |es|
  {
    if es == [] then p else
      assert es[0] in es && forall e | e in es[1..] :: e in es;
      RunFrom(cfg, EventStep(cfg, p, es[0]), es[1..])
  }

  function Start(enabled: bool): Processor { Processor(NoMap, enabled, INITIAL) }

  /** The hysteresis bounds hold on the image path too: sizes and switches do not disturb the counters. */
  lemma {:induction false} RunIsTimely(cfg: Config, p: Processor, es: seq<Event>)
    requires AllProper(es) && Timely(cfg, p.border)
    ensures Timely(cfg, RunFrom(cfg, p, es).border)
    decreases |es|
  {
    if es != [] {
      assert es[0] in es && forall e | e in es[1..] :: e in es;
      RunIsTimely(cfg, EventStep(cfg, p, es[0]), es[1..]);
    }
  }

  /// The map has exactly the current border: its two sizes when known, none when unknown.
  predicate InLine(p: Processor) {
    && p.pixelMap.MapOf?
    && p.pixelMap.bounds.horizontalBorder == (if p.border.current.unknown then 0 else p.border.current.horizontalSize)
    && p.pixelMap.bounds.verticalBorder == (if p.border.current.unknown then 0 else p.border.current.verticalSize)
  }

  /** While all images have one size the map is in line after every image, whatever is seen, and however often
      the detector is switched. */
  lemma {:induction false} OneSizeStaysInLine(cfg: Config, p: Processor, es: seq<Event>, width: nat, height: nat)
    requires AllProper(es) && forall e | e in es :: e.Image? ==> e.width == width && e.height == height
    requires p.pixelMap == NoMap ==> p.border.current.unknown
    requires p.pixelMap.MapOf? ==> InLine(p) && p.pixelMap.bounds.width == width && p.pixelMap.bounds.height == height
    ensures var r := RunFrom(cfg, p, es);
            && (r.pixelMap == NoMap ==> r.border.current.unknown)
            && (r.pixelMap.MapOf? ==>
                  InLine(r) && r.pixelMap.bounds.width == width && r.pixelMap.bounds.height == height)
    decreases |es|
  {
    if es != [] {
      assert es[0] in es && forall e | e in es[1..] :: e in es;
      OneSizeStaysInLine(cfg, EventStep(cfg, p, es[0]), es[1..], width, height);
    }
  }

  // ----- settling -----

  /// The events are images of one size that all show b, and there are n of them.
  predicate Showing(es: seq<Event>, width: nat, height: nat, b: BlackBorder, n: nat) {
    |es| == n && forall e | e in es :: e == Image(width, height, b)
  }

  lemma FrameOnMap(cfg: Config, p: Processor, width: nat, height: nat, b: BlackBorder)
    requires Proper(b) && p.enabled && Timely(cfg, p.border)
    requires p.pixelMap.MapOf? && p.pixelMap.bounds.width == width && p.pixelMap.bounds.height == height
    ensures var r := FrameStep(cfg, p, width, height, b);
            && r.enabled && r.pixelMap.MapOf? && r.pixelMap.bounds.width == width && r.pixelMap.bounds.height == height
            && r.border == UpdateBorder(cfg, p.border, b).0 && Timely(cfg, r.border)
            && (if Same(p.border.current, b) then r.pixelMap == p.pixelMap && r.border.current == p.border.current
                else Same(r.border.current, b) ==> InLine(r))
  {}

  lemma {:induction false} ShowingRun(cfg: Config, p: Processor, es: seq<Event>, width: nat, height: nat,
                                      b: BlackBorder)
    requires Proper(b) && p.enabled && Timely(cfg, p.border) && Showing(es, width, height, b, |es|)
    requires p.pixelMap.MapOf? && p.pixelMap.bounds.width == width && p.pixelMap.bounds.height == height
    ensures AllProper(es)
    ensures var r := RunFrom(cfg, p, es);
            && r.pixelMap.MapOf? && r.pixelMap.bounds.width == width && r.pixelMap.bounds.height == height
            && r.border == RunFrames(cfg, p.border, seq(|es|, i => b))
            && (Same(p.border.current, b) ==> r.pixelMap == p.pixelMap && r.border.current == p.border.current)
            && (!Same(p.border.current, b) && Same(r.border.current, b) ==> InLine(r))
    decreases |es|
  {
    if es != [] {
      assert es[0] in es && forall e | e in es[1..] :: e in es;
      FrameOnMap(cfg, p, width, height, b);
      ShowingRun(cfg, FrameStep(cfg, p, width, height, b), es[1..], width, height, b);
      assert seq(|es|, i => b)[1..] == seq(|es| - 1, i => b);
    }
  }

  /** End to end, and exactly: after any history, enough images of one size that show b leave b's two sizes on
      the map, or none if b is unknown, if and only if b was not the current border before them, or the map, made
      to fit their size, already had them. */
  lemma MapSettlesExactly(cfg: Config, enabled: bool, before: seq<Event>, es: seq<Event>, width: nat, height: nat,
                          b: BlackBorder)
    requires AllProper(before) && Proper(b)
    requires Showing(es, width, height, b,
                     cfg.maxInconsistentCnt + 1 + if b.unknown then cfg.unknownSwitchCnt else cfg.borderSwitchCnt)
    requires RunFrom(cfg, Start(enabled), before).enabled
    ensures AllProper(es)
    ensures var p := RunFrom(cfg, Start(enabled), before);
            var r := RunFrom(cfg, p, es);
            && r.border.current.unknown == b.unknown
            && (r.pixelMap == MapOf(BoundsFor(width, height, b)) <==>
                  || !Same(p.border.current, b)
                  || SizeStep(p, width, height).pixelMap == MapOf(BoundsFor(width, height, b)))
  {
    var p := RunFrom(cfg, Start(enabled), before);
    RunIsTimely(cfg, Start(enabled), before);
    var sized := SizeStep(p, width, height);
    ShowingRun(cfg, sized, es, width, height, b);
    assert es[0] in es;
    assert RunFrom(cfg, p, es) == RunFrom(cfg, sized, es);
    SettlesWithin(cfg, p.border, b, seq(|es|, i => b));
  }

  /** The other side happens: a border that was current for images of one size is never put on the map of
      another size, however many of its images show it. */
  lemma OldBorderStaysOff(cfg: Config, small: (nat, nat), large: (nat, nat), b: BlackBorder, es: seq<Event>)
    requires !b.unknown && 0 <= b.horizontalSize && 0 <= b.verticalSize && cfg.maxInconsistentCnt <= 10
    requires small != large && es != [] && Showing(es, large.0, large.1, b, |es|)
    ensures AllProper([Image(small.0, small.1, b)]) && AllProper(es)
    ensures var p := RunFrom(cfg, Start(true), [Image(small.0, small.1, b)]);
            && p.pixelMap == MapOf(Bounds(small.0, small.1, b.horizontalSize, b.verticalSize))
            && RunFrom(cfg, p, es).pixelMap == MapOf(Bounds(large.0, large.1, 0, 0))
  {
    var first := [Image(small.0, small.1, b)];
    assert first[1..] == [];
    var p := RunFrom(cfg, Start(true), first);
    var one := EventStep(cfg, Start(true), first[0]);
    assert RunFrom(cfg, one, first[1..]) == one;
    assert p == FrameStep(cfg, Start(true), small.0, small.1, b);
    var sized := SizeStep(p, large.0, large.1);
    ShowingRun(cfg, sized, es, large.0, large.1, b);
    assert es[0] in es;
    assert RunFrom(cfg, p, es) == RunFrom(cfg, sized, es);
  }
}
