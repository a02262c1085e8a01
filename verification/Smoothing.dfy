/** The linear smoothing filter: its state, one function per operation, and the
    theorem that every channel follows the straight line to its target. */
module Smoothing {
  import opened Colors

  datatype Config = Config(settlingTime: int, outputDelay: nat, continuousOutput: bool)

  /// `device` records every frame handed to the led device, oldest first.
  datatype State = State(
    targetTime: int, target: Frame, previousTime: int, previous: Frame,
    queue: seq<Frame>, writeEnabled: bool, running: bool, device: seq<Frame>)

  ghost predicate Valid(cfg: Config, s: State) {
    && (s.running ==> |s.previous| == |s.target|)
    && (!s.running ==> s.previous == [])
    && (cfg.continuousOutput ==> s.writeEnabled)
    && |s.queue| <= cfg.outputDelay
  }

  ghost predicate Initial(s: State) {
    s.previous == [] && s.target == [] && s.queue == [] && s.device == [] && s.writeEnabled && !s.running
  }

  // ----- operations -----

  function WriteStep(cfg: Config, s: State, now: int, leds: Frame): State
    requires s.previous != [] ==> |leds| <= |s.target|
  {
    if s.previous == [] then
      s.(targetTime := now + cfg.settlingTime, target := leds, previousTime := now, previous := leds, running := true)
    else
      s.(targetTime := now + cfg.settlingTime, target := leds + s.target[|leds|..])
  }

  function Blacks(n: nat): Frame { seq(n, i => BLACK) }

  function SwitchOffStep(s: State): State {
    var black := Blacks(|s.target|);
    s.(target := black, targetTime := 0, queue := seq(|s.queue|, i => black))
  }

  function SetEnableStep(s: State, enable: bool): State {
    if enable then s else s.(running := false, previous := [])
  }

  /// The smallest integer not below x (std::ceil).
  function Ceil(x: real): int { -((-x).Floor) }

  /// The fraction of the remaining way that a tick at `now` covers.
  function Fraction(now: int, previousTime: int, targetTime: int): real
    requires previousTime < targetTime
  {
    1.0 - (targetTime - now) as real / (targetTime - previousTime) as real
  }

  function RampValue(prev: byte, target: byte, k: real): int {
    var diff: int := target - prev;
    var step := Ceil(k * Abs(diff) as real);
    if diff < 0 then prev - step else prev + step
  }

  lemma CeilBounds(x: real)
    ensures x <= Ceil(x) as real < x + 1.0
  {}

  lemma ScaleDown(k: real, d: real)
    requires 0.0 <= k <= 1.0 && 0.0 <= d
    ensures 0.0 <= k * d <= d
  {}

  lemma CeilWithin(k: real, d: nat)
    requires 0.0 <= k <= 1.0
    ensures 0 <= Ceil(k * d as real) <= d
  {
    var x := k * d as real;
    ScaleDown(k, d as real);
    CeilBounds(x);
  }

  /** A ramp step stays between the old value and the target: no overshoot, no byte wrap. */
  lemma RampStaysBetween(prev: byte, target: byte, k: real)
    requires 0.0 <= k <= 1.0
    ensures Min(prev, target) <= RampValue(prev, target, k) <= Max(prev, target)
  {
    CeilWithin(k, Abs(target - prev));
  }

  function RampChannel(prev: byte, target: byte, k: real): (r: byte)
    requires 0.0 <= k <= 1.0
  {
    RampStaysBetween(prev, target, k);
    RampValue(prev, target, k)
  }

  function RampColor(prev: Color, target: Color, k: real): Color
    requires 0.0 <= k <= 1.0
  {
    Color(RampChannel(prev.red, target.red, k),
          RampChannel(prev.green, target.green, k),
          RampChannel(prev.blue, target.blue, k))
  }

  function RampFrame(prev: Frame, target: Frame, k: real): (r: Frame)
    requires 0.0 <= k <= 1.0 && |prev| == |target|
    ensures |r| == |prev|
  {
    seq(|prev|, i requires 0 <= i < |prev| => RampColor(prev[i], target[i], k))
  }

  lemma FractionInRange(now: int, previousTime: int, targetTime: int)
    requires previousTime <= now <= targetTime && previousTime < targetTime
    ensures 0.0 <= Fraction(now, previousTime, targetTime) <= 1.0
  {
    var a, b := (targetTime - now) as real, (targetTime - previousTime) as real;
    var q := a / b;
    assert q * b == a;
    CancelLeReal(0.0, q, b);
    CancelLeReal(q, 1.0, b);
  }

  function QueueStep(cfg: Config, s: State, frame: Frame): State {
    if cfg.outputDelay == 0 then
      if s.writeEnabled then s.(device := s.device + [frame]) else s
    else
      var q := if s.writeEnabled then s.queue + [frame] else s.queue;
      if |q| > 0 && (|q| > cfg.outputDelay || !s.writeEnabled) then
        s.(device := s.device + [q[0]], queue := q[1..])
      else
        s.(queue := q)
  }

  /// The clock does not run backwards, and only the first tick at the target time itself is defined: a second
  /// one would divide zero by zero.
  predicate CanTick(s: State, now: int) {
    s.running && |s.previous| == |s.target| && Follows(s.previousTime, now, s.targetTime)
  }

  predicate Follows(previousTime: int, now: int, targetTime: int) {
    previousTime <= now && !(previousTime == now == targetTime)
  }

  function TickStep(cfg: Config, s: State, now: int): State
    requires CanTick(s, now)
  {
    if s.targetTime < now then
      QueueStep(cfg, s.(previous := s.target, previousTime := now), s.target).(writeEnabled := cfg.continuousOutput)
    else
      FractionInRange(now, s.previousTime, s.targetTime);
      var frame := RampFrame(s.previous, s.target, Fraction(now, s.previousTime, s.targetTime));
      QueueStep(cfg, s.(previous := frame, previousTime := now, writeEnabled := true), frame)
  }

  // ----- runs of ticks -----

  /// Each of the times can follow the one before.
  predicate Ticking(from: int, times: seq<int>, targetTime: int) {
    times != [] ==> Ticking(from, times[..|times|-1], targetTime)
                    && Follows(Last(from, times[..|times|-1]), times[|times|-1], targetTime)
  }

  function Last(from: int, times: seq<int>): int { if times == [] then from else times[|times|-1] }

  /// The state after the ticks at `times`, no write in between.
  function Ticks(cfg: Config, s: State, times: seq<int>): (r: State)
    requires s.running && |s.previous| == |s.target|
    requires Ticking(s.previousTime, times, s.targetTime)
    ensures r.running && |r.previous| == |r.target|
    ensures r.target == s.target && r.targetTime == s.targetTime
    ensures r.previousTime == Last(s.previousTime, times)
  {
    if times == [] then s else TickStep(cfg, Ticks(cfg, s, times[..|times|-1]), times[|times|-1])
  }

  /// What channel `ch` of led `i` still has to cover.
  function Distance(s: State, i: nat, ch: Channel): nat
    requires i < |s.previous| == |s.target|
  {
    Abs(Get(s.target[i], ch) - Get(s.previous[i], ch))
  }

  /// `rem` is d * (T - t) / (T - p) rounded down.
  ghost predicate Scaled(d: int, rem: int, p: int, t: int, T: int) {
    rem * (T - p) <= d * (T - t) < (rem + 1) * (T - p)
  }

  lemma RemainderOfQuotient(d: nat, rem: int, q: real, a: int, b: int)
    requires 0 < b && q * b as real == a as real
    requires rem as real <= q * d as real < rem as real + 1.0
    ensures rem * b <= d * a < (rem + 1) * b
  {
    var x := q * d as real;
    MulLe(rem as real, x, b as real);
    MulLt(x, (rem + 1) as real, b as real);
    assert x * b as real == d as real * (q * b as real);
    AsReal(rem, b);
    AsReal(d, a);
    AsReal(rem + 1, b);
  }

  lemma StepRemainder(d: nat, p: int, t: int, T: int)
    requires p <= t <= T && p < T
    ensures Scaled(d, d - Ceil(Fraction(t, p, T) * d as real), p, t, T)
  {
    var k, c := Fraction(t, p, T), Ceil(Fraction(t, p, T) * d as real);
    var q := (T - t) as real / (T - p) as real;
    CeilBounds(k * d as real);
    assert k * d as real == d as real - q * d as real;
    RemainderOfQuotient(d, d - c, q, T - t, T - p);
  }

  lemma RampDistance(prev: byte, target: byte, k: real)
    requires 0.0 <= k <= 1.0
    ensures Abs(target - RampChannel(prev, target, k)) == Abs(target - prev) - Ceil(k * Abs(target - prev) as real)
    ensures Min(prev, target) <= RampChannel(prev, target, k) <= Max(prev, target)
  {
    RampStaysBetween(prev, target, k);
  }

  lemma RampedScale(prev: byte, target: byte, k: real, p: int, t: int, T: int)
    requires 0.0 <= k <= 1.0
    requires var d := Abs(target - prev); Scaled(d, d - Ceil(k * d as real), p, t, T)
    ensures Scaled(Abs(target - prev), Abs(target - RampChannel(prev, target, k)), p, t, T)
  {
    RampDistance(prev, target, k);
  }

  lemma RampChannelRemainder(prev: byte, target: byte, p: int, t: int, T: int)
    requires p <= t <= T && p < T
    ensures 0.0 <= Fraction(t, p, T) <= 1.0
    ensures var v := RampChannel(prev, target, Fraction(t, p, T));
            Min(prev, target) <= v <= Max(prev, target) && Scaled(Abs(target - prev), Abs(target - v), p, t, T)
  {
    FractionInRange(t, p, T);
    StepRemainder(Abs(target - prev), p, t, T);
    RampStaysBetween(prev, target, Fraction(t, p, T));
    RampedScale(prev, target, Fraction(t, p, T), p, t, T);
  }

  lemma RampTickChannel(cfg: Config, s: State, now: int, i: nat, ch: Channel)
    requires CanTick(s, now) && now <= s.targetTime && i < |s.previous|
    ensures 0.0 <= Fraction(now, s.previousTime, s.targetTime) <= 1.0
    ensures var r := TickStep(cfg, s, now);
            && r.target == s.target && |r.previous| == |s.previous|
            && Get(r.previous[i], ch) == RampChannel(Get(s.previous[i], ch), Get(s.target[i], ch),
                                                     Fraction(now, s.previousTime, s.targetTime))
  {
    FractionInRange(now, s.previousTime, s.targetTime);
    var k := Fraction(now, s.previousTime, s.targetTime);
    assert TickStep(cfg, s, now).previous == RampFrame(s.previous, s.target, k);
  }

  /** One ramp tick leaves floor(d * (T - t) / (T - p)) of a channel's distance d,
      on the same side of the target. */
  lemma RampTick(cfg: Config, s: State, now: int, i: nat, ch: Channel)
    requires CanTick(s, now) && now <= s.targetTime && i < |s.previous|
    ensures var r := TickStep(cfg, s, now);
            && r.target == s.target && |r.previous| == |s.previous|
            && Scaled(Distance(s, i, ch), Distance(r, i, ch), s.previousTime, now, s.targetTime)
            && Min(Get(s.previous[i], ch), Get(s.target[i], ch)) <= Get(r.previous[i], ch)
                  <= Max(Get(s.previous[i], ch), Get(s.target[i], ch))
  {
    RampTickChannel(cfg, s, now, i, ch);
    RampChannelRemainder(Get(s.previous[i], ch), Get(s.target[i], ch), s.previousTime, now, s.targetTime);
  }

  lemma CancelLeReal(x: real, y: real, b: real)
    requires 0.0 < b && x * b <= y * b
    ensures x <= y
  {}

  lemma MulLe(x: real, y: real, b: real)
    requires x <= y && 0.0 < b
    ensures x * b <= y * b
  {}

  lemma MulLt(x: real, y: real, b: real)
    requires x < y && 0.0 < b
    ensures x * b < y * b
  {}

  lemma AsReal(x: int, y: int)
    ensures (x * y) as real == x as real * y as real
  {}

  /// Both bounds of the straight line for n ticks, cleared of the division by T - p.
  ghost predicate OnLine(rem: int, d0: int, n: nat, p: int, t: int, T: int) {
    && rem * (T - p) <= d0 * (T - t)
    && (if n == 0 then rem == d0 && t == p else rem * (T - p) > d0 * (T - t) - n * (T - p))
  }

  /** Composing one more step keeps a distance on the line. */
  lemma LineStep(rem0: nat, rem: nat, d0: nat, n: nat, p: int, t0: int, t: int, T: int)
    requires p <= t0 <= t <= T && t0 < T
    requires OnLine(rem0, d0, n, p, t0, T)
    requires Scaled(rem0, rem, t0, t, T)
    ensures OnLine(rem, d0, n + 1, p, t, T)
  {
    LineUpper(rem0, rem, d0, T - p, T - t0, T - t);
    LineLower(rem0, rem, d0, n, T - p, T - t0, T - t);
  }

  lemma LineUpper(rem0: int, rem: int, d0: int, A: int, B: int, C: int)
    requires 0 <= C <= B <= A && 0 < B
    requires rem * B <= rem0 * C && rem0 * A <= d0 * B
    ensures rem * A <= d0 * C
  {
    MulLeInt(rem * B, rem0 * C, A);
    MulLeInt(rem0 * A, d0 * B, C);
    assert (rem * B) * A == (rem * A) * B;
    assert (rem0 * C) * A == (rem0 * A) * C;
    assert (d0 * B) * C == (d0 * C) * B;
    CancelLe(rem * A, d0 * C, B);
  }

  lemma LineLower(rem0: int, rem: int, d0: int, n: nat, A: int, B: int, C: int)
    requires 0 <= C <= B <= A && 0 < B
    requires rem0 * C < (rem + 1) * B && rem0 * A >= d0 * B - n * A
    ensures rem * A > d0 * C - (n + 1) * A
  {
    var m := n * A;
    MulLtInt(rem0 * C, (rem + 1) * B, A);
    MulLeInt(d0 * B - m, rem0 * A, C);
    MulLeInt(C, B, m);
    assert ((rem + 1) * B) * A == ((rem + 1) * A) * B;
    assert (rem0 * C) * A == (rem0 * A) * C;
    assert (d0 * B - m) * C == (d0 * C) * B - m * C;
    assert (d0 * C - m) * B == (d0 * C) * B - m * B;
    CancelLt(d0 * C - m, (rem + 1) * A, B);
    assert (rem + 1) * A == rem * A + A;
    assert (n + 1) * A == m + A;
  }

  lemma MulLeInt(x: int, y: int, b: int)
    requires x <= y && 0 <= b
    ensures x * b <= y * b
  {}

  lemma MulLtInt(x: int, y: int, b: int)
    requires x < y && 0 < b
    ensures x * b < y * b
  {}

  lemma CancelLe(x: int, y: int, b: int)
    requires 0 < b && x * b <= y * b
    ensures x <= y
  {}

  lemma CancelLt(x: int, y: int, b: int)
    requires 0 < b && x * b < y * b
    ensures x < y
  {}

  lemma LineTick(cfg: Config, s: State, now: int, i: nat, ch: Channel, d0: nat, n: nat, p: int)
    requires CanTick(s, now) && now <= s.targetTime && i < |s.previous| && p <= s.previousTime
    requires OnLine(Distance(s, i, ch), d0, n, p, s.previousTime, s.targetTime)
    ensures var r := TickStep(cfg, s, now);
            && r.target == s.target && |r.previous| == |s.previous|
            && OnLine(Distance(r, i, ch), d0, n + 1, p, now, s.targetTime)
            && Min(Get(s.previous[i], ch), Get(s.target[i], ch)) <= Get(r.previous[i], ch)
                  <= Max(Get(s.previous[i], ch), Get(s.target[i], ch))
  {
    RampTick(cfg, s, now, i, ch);
    var r := TickStep(cfg, s, now);
    LineStep(Distance(s, i, ch), Distance(r, i, ch), d0, n, p, s.previousTime, now, s.targetTime);
  }

  lemma LastMonotone(from: int, times: seq<int>, targetTime: int)
    requires Ticking(from, times, targetTime)
    ensures from <= Last(from, times)
    decreases |times|
  {
    if |times| > 1 { LastMonotone(from, times[..|times|-1], targetTime); }
  }

  /** Main result. From any state s (s.previousTime = p is the last tick before the latest write,
      T its target time), after ticks at ascending times ending at t <= T the remaining
      distance of every channel is within n units of the straight line from d0 at p to 0 at T,
      never above it, and the value lies between its start and its target. */
  lemma {:induction false} TracksStraightLine(cfg: Config, s: State, times: seq<int>, i: nat, ch: Channel)
    requires s.running && |s.previous| == |s.target| && i < |s.previous|
    requires Ticking(s.previousTime, times, s.targetTime) && Last(s.previousTime, times) <= s.targetTime
    ensures var r := Ticks(cfg, s, times);
            && OnLine(Distance(r, i, ch), Distance(s, i, ch), |times|, s.previousTime, r.previousTime, s.targetTime)
            && Min(Get(s.previous[i], ch), Get(s.target[i], ch)) <= Get(r.previous[i], ch)
                  <= Max(Get(s.previous[i], ch), Get(s.target[i], ch))
    decreases |times|
  {
    if times != [] {
      var n := |times| - 1;
      var r0 := Ticks(cfg, s, times[..n]);
      var t := times[n];
      assert Ticking(s.previousTime, times[..n], s.targetTime) && Follows(r0.previousTime, t, s.targetTime);
      LastMonotone(s.previousTime, times[..n], s.targetTime);
      TracksStraightLine(cfg, s, times[..n], i, ch);
      LineTick(cfg, r0, t, i, ch, Distance(s, i, ch), n, s.previousTime);
    }
  }

  /** From the target time on the filter sits exactly on the target. */
  lemma {:induction false} SettlesOnTarget(cfg: Config, s: State, times: seq<int>)
    requires s.running && |s.previous| == |s.target|
    requires times != [] && Ticking(s.previousTime, times, s.targetTime) && s.targetTime <= Last(s.previousTime, times)
    ensures Ticks(cfg, s, times).previous == s.target
  {
    var n := |times| - 1;
    var r0 := Ticks(cfg, s, times[..n]);
    var t := times[n];
    assert Ticking(s.previousTime, times[..n], s.targetTime) && Follows(r0.previousTime, t, s.targetTime);
    var r := Ticks(cfg, s, times);
    if t == s.targetTime {
      forall i | 0 <= i < |s.target| ensures r.previous[i] == s.target[i] {
        forall ch ensures Get(r.previous[i], ch) == Get(s.target[i], ch) {
          RampTick(cfg, r0, t, i, ch);
          var rem := Distance(r, i, ch);
          if rem > 0 { MulLeInt(1, rem, t - r0.previousTime); }
        }
        assert Get(r.previous[i], Red) == Get(s.target[i], Red);
        assert Get(r.previous[i], Green) == Get(s.target[i], Green);
        assert Get(r.previous[i], Blue) == Get(s.target[i], Blue);
      }
    }
  }
}
