/** The delay line of the smoothing filter, over arbitrary runs of calls. */
module SmoothingDelay {
  import opened Colors
  import opened Sequences
  import opened Smoothing

  datatype Event = Write(now: int, leds: Frame) | SwitchOff | SetEnable(enable: bool) | Tick(now: int)

  predicate CanStep(s: State, e: Event) {
    match e
    case Write(now, leds) => s.previous != [] ==> |leds| <= |s.target|
    case SwitchOff => true
    case SetEnable(enable) => true
    case Tick(now) => CanTick(s, now)
  }

  function Step(cfg: Config, s: State, e: Event): State
    requires CanStep(s, e)
  {
    match e
    case Write(now, leds) => WriteStep(cfg, s, now, leds)
    case SwitchOff => SwitchOffStep(s)
    case SetEnable(enable) => SetEnableStep(s, enable)
    case Tick(now) => TickStep(cfg, s, now)
  }

  predicate CanRun(cfg: Config, s: State, es: seq<Event>)
    decreases |es|
  {
    es == [] || (CanStep(s, es[0]) && CanRun(cfg, Step(cfg, s, es[0]), es[1..]))
  }

  function Run(cfg: Config, s: State, es: seq<Event>): State
    requires CanRun(cfg, s, es)
    decreases |es|
  {
    if es == [] then s else Run(cfg, Step(cfg, s, es[0]), es[1..])
  }

  /// The frame a tick produces, if it is handed to the output at all.
  function Pushed(cfg: Config, s: State, e: Event): seq<Frame>
    requires CanStep(s, e)
  {
    if e.Tick? && (s.writeEnabled || e.now <= s.targetTime) then [TickStep(cfg, s, e.now).previous] else []
  }

  function PushedIn(cfg: Config, s: State, es: seq<Event>): seq<Frame>
    requires CanRun(cfg, s, es)
    decreases |es|
  {
    if es == [] then [] else Pushed(cfg, s, es[0]) + PushedIn(cfg, Step(cfg, s, es[0]), es[1..])
  }

  function TickCount(es: seq<Event>): nat {
    if es == [] then 0 else (if es[0].Tick? then 1 else 0) + TickCount(es[1..])
  }

  lemma StepKeepsValid(cfg: Config, s: State, e: Event)
    requires Valid(cfg, s) && CanStep(s, e)
    ensures Valid(cfg, Step(cfg, s, e))
  {
  }

  /** The queue never grows past the delay and the filter stays well formed, in every run. */
  lemma {:induction false} RunKeepsValid(cfg: Config, s: State, es: seq<Event>)
    requires Valid(cfg, s) && CanRun(cfg, s, es)
    ensures Valid(cfg, Run(cfg, s, es))
    decreases |es|
  {
    if es != [] {
      StepKeepsValid(cfg, s, es[0]);
      RunKeepsValid(cfg, Step(cfg, s, es[0]), es[1..]);
    }
  }

  lemma QueueConserves(cfg: Config, s: State, frame: Frame)
    requires Valid(cfg, s)
    ensures var r := QueueStep(cfg, s, frame);
            r.device + r.queue == s.device + s.queue + (if s.writeEnabled then [frame] else [])
  {
    var q := if s.writeEnabled then s.queue + [frame] else s.queue;
    if |q| > 0 {
      assert [q[0]] + q[1..] == q;
      assert s.device + [q[0]] + q[1..] == s.device + q;
    }
  }

  lemma StepConserves(cfg: Config, s: State, e: Event)
    requires Valid(cfg, s) && CanStep(s, e) && !e.SwitchOff?
    ensures var r := Step(cfg, s, e);
            r.device + r.queue == s.device + s.queue + Pushed(cfg, s, e)
  {
    if e.Tick? {
      var f := TickStep(cfg, s, e.now).previous;
      var enabled := s.writeEnabled || e.now <= s.targetTime;
      QueueConserves(cfg, s.(previous := f, previousTime := e.now, writeEnabled := enabled), f);
    }
  }

  lemma CutConcat<T>(d: seq<T>, q: seq<T>, a: seq<T>, p: seq<T>, k: nat)
    requires d + q == a + p && |d| == |a| + k && k <= |p|
    ensures d == a + p[..k]
  {
    assert d == (d + q)[..|d|];
    assert a + p[..k] == (a + p)[..|a| + k];
  }

  /** Nothing is lost, duplicated or reordered: what reached the device followed by what still waits
      is what was there before followed by every frame pushed since. */
  lemma {:induction false} DelayLineConserves(cfg: Config, s: State, es: seq<Event>)
    requires Valid(cfg, s) && CanRun(cfg, s, es) && SwitchOff !in es
    ensures var r := Run(cfg, s, es);
            r.device + r.queue == s.device + s.queue + PushedIn(cfg, s, es)
    decreases |es|
  {
    if es != [] {
      var s1 := Step(cfg, s, es[0]);
      assert es[0] in es;
      StepKeepsValid(cfg, s, es[0]);
      StepConserves(cfg, s, es[0]);
      DelayLineConserves(cfg, s1, es[1..]);
      Assoc(s.device + s.queue, Pushed(cfg, s, es[0]), PushedIn(cfg, s1, es[1..]));
    }
  }

  lemma {:induction false} ContinuousFill(cfg: Config, s: State, es: seq<Event>)
    requires Valid(cfg, s) && cfg.continuousOutput && CanRun(cfg, s, es)
    ensures |Run(cfg, s, es).queue| == Min(cfg.outputDelay, |s.queue| + TickCount(es))
    ensures |PushedIn(cfg, s, es)| == TickCount(es)
    decreases |es|
  {
    if es != [] {
      StepKeepsValid(cfg, s, es[0]);
      ContinuousFill(cfg, Step(cfg, s, es[0]), es[1..]);
    }
  }

  /** With continuous output every tick pushes one frame, and the n-th frame pushed reaches the
      device during the n + outputDelay-th tick: after m ticks the device has got the first
      m - outputDelay of them. */
  lemma ContinuousLatency(cfg: Config, s: State, es: seq<Event>)
    requires Valid(cfg, s) && cfg.continuousOutput && s.queue == []
    requires CanRun(cfg, s, es) && SwitchOff !in es
    ensures |PushedIn(cfg, s, es)| == TickCount(es)
    ensures Run(cfg, s, es).device
         == s.device + PushedIn(cfg, s, es)[..Max(0, TickCount(es) - cfg.outputDelay)]
  {
    DelayLineConserves(cfg, s, es);
    ContinuousFill(cfg, s, es);
    var r, p := Run(cfg, s, es), PushedIn(cfg, s, es);
    assert s.device + s.queue == s.device;
    assert |r.device| + |r.queue| == |r.device + r.queue| == |s.device| + |p|;
    CutConcat(r.device, r.queue, s.device, p, Max(0, TickCount(es) - cfg.outputDelay));
  }

  // ----- draining after the target time -----

  /// The newest frame the output side has seen is f.
  ghost predicate LastFrameIs(s: State, f: Frame) {
    var all := s.device + s.queue;
    all != [] && all[|all|-1] == f
  }

  ghost predicate DeviceShows(s: State, f: Frame) {
    s.device != [] && s.device[|s.device|-1] == f
  }

  function Repeat(f: Frame, n: nat): seq<Frame> { seq(n, i => f) }

  /// How many copies of the target n expired ticks push.
  function LateCopies(cfg: Config, s: State, n: nat): nat {
    if cfg.continuousOutput then n else if s.writeEnabled && n > 0 then 1 else 0
  }

  lemma LateTick(cfg: Config, s: State, now: int)
    requires Valid(cfg, s) && CanTick(s, now) && s.targetTime < now
    ensures var r := TickStep(cfg, s, now);
            && Valid(cfg, r) && r.running && r.target == s.target && r.targetTime == s.targetTime
            && r.device + r.queue == s.device + s.queue + (if s.writeEnabled then [s.target] else [])
            && r.writeEnabled == cfg.continuousOutput
            && |r.queue| <= (if s.writeEnabled then cfg.outputDelay else Max(0, |s.queue| - 1))
  {
    StepKeepsValid(cfg, s, Tick(now));
    StepConserves(cfg, s, Tick(now));
  }

  lemma {:induction false} LateTicks(cfg: Config, s: State, times: seq<int>)
    requires Valid(cfg, s) && s.running && Ticking(s.previousTime, times, s.targetTime)
    requires forall t | t in times :: s.targetTime < t
    ensures var r, n := Ticks(cfg, s, times), |times|;
            && Valid(cfg, r)
            && r.device + r.queue == s.device + s.queue + Repeat(s.target, LateCopies(cfg, s, n))
            && (n > 0 ==> r.writeEnabled == cfg.continuousOutput)
            && (!cfg.continuousOutput ==>
                  |r.queue| <= Max(0, if n == 0 || !s.writeEnabled then |s.queue| - n else cfg.outputDelay - n + 1))
            && (n == 0 ==> r == s)
    decreases |times|
  {
    if times != [] {
      var n := |times| - 1;
      assert forall t | t in times[..n] :: t in times;
      LateTicks(cfg, s, times[..n]);
      var r0 := Ticks(cfg, s, times[..n]);
      var t := times[n];
      assert t in times;
      LateTick(cfg, r0, t);
      var c0, c := LateCopies(cfg, s, n), LateCopies(cfg, s, n + 1);
      var more := if c > c0 then [s.target] else [];
      assert r0.writeEnabled <==> c > c0;
      assert Repeat(s.target, c) == Repeat(s.target, c0) + more;
      Assoc(s.device + s.queue, Repeat(s.target, c0), more);
    }
  }

  lemma RampEnables(cfg: Config, s: State, ramp: seq<int>)
    requires Valid(cfg, s) && s.running && ramp != []
    requires Ticking(s.previousTime, ramp, s.targetTime) && Last(s.previousTime, ramp) <= s.targetTime
    ensures Valid(cfg, Ticks(cfg, s, ramp)) && Ticks(cfg, s, ramp).writeEnabled
    decreases |ramp|
  {
    var n := |ramp| - 1;
    var r0 := Ticks(cfg, s, ramp[..n]);
    assert Ticking(s.previousTime, ramp[..n], s.targetTime) && Follows(r0.previousTime, ramp[n], s.targetTime);
    if n > 0 { RampEnables(cfg, s, ramp[..n]); }
    StepKeepsValid(cfg, r0, Tick(ramp[n]));
  }

  /** Draining, in both output modes. Let `ramp` be the ticks up to the target time and `late` at
      least outputDelay + 1 ticks after it. Then the device shows the target if and only if some
      ramp tick happened, or output was still enabled, or the target was already the newest frame. */
  lemma DrainsToTarget(cfg: Config, s: State, ramp: seq<int>, late: seq<int>)
    requires Valid(cfg, s) && s.running
    requires Ticking(s.previousTime, ramp, s.targetTime) && (ramp != [] ==> Last(s.previousTime, ramp) <= s.targetTime)
    requires Ticking(Last(s.previousTime, ramp), late, s.targetTime) && (forall t | t in late :: s.targetTime < t)
    requires |late| >= cfg.outputDelay + 1
    ensures DeviceShows(Ticks(cfg, Ticks(cfg, s, ramp), late), s.target)
       <==> ramp != [] || s.writeEnabled || LastFrameIs(s, s.target)
  {
    if ramp != [] { RampEnables(cfg, s, ramp); }
    var m := Ticks(cfg, s, ramp);
    LateTicks(cfg, m, late);
    var r := Ticks(cfg, m, late);
    var c := LateCopies(cfg, m, |late|);
    assert (r.device + r.queue)[..|r.device|] == r.device;
    var all := m.device + m.queue + Repeat(s.target, c);
    if cfg.continuousOutput {
      assert r.device[|r.device|-1] == all[|r.device|-1];
    } else {
      assert r.queue == [] && r.device == all;
    }
  }

  /** The other side of the equivalence happens: without continuous output, a target whose settling
      time falls between two ticks is never written, however long one waits. */
  lemma MissedTarget(late: seq<int>)
    requires late != [] && Ticking(50, late, 40) && forall t | t in late :: 50 <= t
    ensures var cfg := Config(10, 0, false);
            var white := [Color(255, 255, 255)];
            var es := [Write(0, [BLACK]), Tick(20), Write(30, white), Tick(50)];
            var s0 := State(0, [], 0, [], [], true, false, []);
            && Initial(s0) && Valid(cfg, s0) && CanRun(cfg, s0, es)
            && var r := Run(cfg, s0, es);
               && r.running && r.previousTime == 50 && r.targetTime == 40 && |r.previous| == |r.target|
               && !DeviceShows(Ticks(cfg, r, late), white)
  {
    var cfg := Config(10, 0, false);
    var white := [Color(255, 255, 255)];
    var s0 := State(0, [], 0, [], [], true, false, []);
    var s1 := Step(cfg, s0, Write(0, [BLACK]));
    var s2 := Step(cfg, s1, Tick(20));
    var s3 := Step(cfg, s2, Write(30, white));
    var s4 := Step(cfg, s3, Tick(50));
    assert s4 == State(40, white, 50, white, [], false, true, [[BLACK]]);
    var es := [Write(0, [BLACK]), Tick(20), Write(30, white), Tick(50)];
    assert es[1..][1..] == es[2..] && es[1..][1..][1..] == [Tick(50)] && es[1..][1..][1..][1..] == [];
    assert CanRun(cfg, s3, [Tick(50)]) && Run(cfg, s3, [Tick(50)]) == s4;
    assert CanRun(cfg, s2, es[2..]) && Run(cfg, s2, es[2..]) == s4;
    assert CanRun(cfg, s1, es[1..]) && Run(cfg, s1, es[1..]) == s4;
    DrainsToTarget(cfg, s4, [], late);
    assert s4.device + s4.queue == [[BLACK]];
    assert white[0] != [BLACK][0];
  }
}
