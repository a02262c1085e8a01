/** What a write and a switch-off start: the straight line runs from the last tick before the write. */
module SmoothingWrites {
  import opened Colors
  import opened Sequences
  import opened Smoothing
  import opened SmoothingDelay

  /** After a write the remaining distance of every channel that was written follows the straight line from
      its value at the last tick, not from the write, to the new colour a settling time after the write. */
  lemma WriteTracksLine(cfg: Config, s: State, now: int, leds: Frame, times: seq<int>, i: nat, ch: Channel)
    requires s.running && i < |leds| <= |s.previous| == |s.target|
    requires Ticking(s.previousTime, times, now + cfg.settlingTime)
    requires Last(s.previousTime, times) <= now + cfg.settlingTime
    ensures var w := Step(cfg, s, Write(now, leds));
            && w.running && |w.previous| == |w.target| == |s.previous| && w.previousTime == s.previousTime
            && w.targetTime == now + cfg.settlingTime
            && var r := Ticks(cfg, w, times);
               && |r.previous| == |s.previous|
               && OnLine(Abs(Get(leds[i], ch) - Get(r.previous[i], ch)), Abs(Get(leds[i], ch) - Get(s.previous[i], ch)),
                         |times|, s.previousTime, Last(s.previousTime, times), now + cfg.settlingTime)
               && Min(Get(s.previous[i], ch), Get(leds[i], ch)) <= Get(r.previous[i], ch)
                     <= Max(Get(s.previous[i], ch), Get(leds[i], ch))
  {
    var w := Step(cfg, s, Write(now, leds));
    assert w.target[i] == leds[i];
    TracksStraightLine(cfg, w, times, i, ch);
  }

  /** A settling time after the write, and from then on, every led that was written shows its colour. */
  lemma WriteSettles(cfg: Config, s: State, now: int, leds: Frame, times: seq<int>)
    requires s.running && 0 < |leds| <= |s.previous| == |s.target|
    requires Ticking(s.previousTime, times, now + cfg.settlingTime)
    requires times != [] && now + cfg.settlingTime <= Last(s.previousTime, times)
    ensures var w := Step(cfg, s, Write(now, leds));
            && w.running && |w.previous| == |w.target| && w.previousTime == s.previousTime
            && w.targetTime == now + cfg.settlingTime
            && Ticks(cfg, w, times).previous == leds + s.target[|leds|..]
  {
    SettlesOnTarget(cfg, Step(cfg, s, Write(now, leds)), times);
  }

  /** The first write, and the first one after the filter was enabled again, shows at once and stays. */
  lemma FirstWriteShows(cfg: Config, s: State, now: int, leds: Frame, times: seq<int>)
    requires s.previous == [] && Ticking(now, times, now + cfg.settlingTime)
    ensures var w := Step(cfg, s, Write(now, leds));
            && w.running && |w.previous| == |w.target| && w.previousTime == now
            && w.targetTime == now + cfg.settlingTime && w.previous == leds
            && Ticks(cfg, w, times).previous == leds
  {
    var w := Step(cfg, s, Write(now, leds));
    StaysOnTarget(cfg, w, times);
  }

  lemma {:induction false} StaysOnTarget(cfg: Config, s: State, times: seq<int>)
    requires s.running && s.previous == s.target && Ticking(s.previousTime, times, s.targetTime)
    ensures Ticks(cfg, s, times).previous == s.target
  {
    if times != [] {
      StaysOnTarget(cfg, s, times[..|times|-1]);
      var r0, t := Ticks(cfg, s, times[..|times|-1]), times[|times|-1];
      if t <= r0.targetTime {
        forall i: nat | i < |r0.previous| ensures TickStep(cfg, r0, t).previous[i] == r0.target[i] {
          OnTargetTick(cfg, r0, t, i, Red); OnTargetTick(cfg, r0, t, i, Green); OnTargetTick(cfg, r0, t, i, Blue);
        }
      }
    }
  }

  lemma OnTargetTick(cfg: Config, s: State, now: int, i: nat, ch: Channel)
    requires CanTick(s, now) && now <= s.targetTime && i < |s.previous| && s.previous == s.target
    ensures Get(TickStep(cfg, s, now).previous[i], ch) == Get(s.target[i], ch)
  {
    RampTick(cfg, s, now, i, ch);
  }

  /** Without the timer nothing ticks, so nothing is written until the next write starts it again. */
  lemma DisabledIsSilent(s: State, now: int)
    ensures var r := SetEnableStep(s, false);
            !CanTick(r, now) && r.previous == [] && r.device == s.device && r.queue == s.queue
    ensures SetEnableStep(s, true) == s
  {}

  // ----- switching off -----

  predicate IsBlack(f: Frame, n: nat) { |f| == n && forall i | 0 <= i < n :: f[i] == Color(0, 0, 0) }

  predicate AllBlack(frames: seq<Frame>, n: nat) { forall k | 0 <= k < |frames| :: IsBlack(frames[k], n) }

  /** After switchOff every frame that reaches the device is black: those still queued, and those of every
      later tick, whatever was pending. */
  lemma {:induction false} SwitchedOffIsBlack(cfg: Config, s: State, times: seq<int>)
    requires Valid(cfg, s) && s.running && Ticking(s.previousTime, times, 0) && forall t | t in times :: 0 < t
    ensures var w := SwitchOffStep(s);
            && w.running && |w.previous| == |w.target| && w.previousTime == s.previousTime && w.targetTime == 0
            && |w.queue| == |s.queue|
            && var r := Ticks(cfg, w, times);
               && Valid(cfg, r) && s.device <= r.device
               && AllBlack(r.device[|s.device|..] + r.queue, |s.target|)
               && (times != [] ==> IsBlack(r.previous, |s.target|))
  {
    if times == [] {
      assert s.device[|s.device|..] == [];
    } else {
      var n := |times| - 1;
      assert forall t | t in times[..n] :: t in times;
      SwitchedOffIsBlack(cfg, s, times[..n]);
      var r0 := Ticks(cfg, SwitchOffStep(s), times[..n]);
      assert times[n] in times;
      BlackTick(cfg, r0, times[n], |s.device|, |s.target|);
    }
  }

  lemma BlackTick(cfg: Config, s: State, now: int, from: nat, n: nat)
    requires Valid(cfg, s) && CanTick(s, now) && s.targetTime < now && IsBlack(s.target, n)
    requires from <= |s.device| && AllBlack(s.device[from..] + s.queue, n)
    ensures var r := TickStep(cfg, s, now);
            && Valid(cfg, r) && s.device <= r.device && IsBlack(r.previous, n)
            && AllBlack(r.device[from..] + r.queue, n)
  {
    var r := TickStep(cfg, s, now);
    LateTick(cfg, s, now);
    var more := if s.writeEnabled then [s.target] else [];
    assert r.device + r.queue == s.device + s.queue + more;
    assert r.device[from..] + r.queue == (r.device + r.queue)[from..];
    assert (s.device + s.queue + more)[from..] == s.device[from..] + s.queue + more;
  }

  // ----- whole runs -----

  lemma {:induction false} RunSplit(cfg: Config, s: State, a: seq<Event>, b: seq<Event>)
    requires CanRun(cfg, s, a + b)
    ensures CanRun(cfg, s, a) && CanRun(cfg, Run(cfg, s, a), b)
    ensures Run(cfg, s, a + b) == Run(cfg, Run(cfg, s, a), b)
    decreases |a|
  {
    if a == [] {
      assert a + b == b;
    } else {
      assert (a + b)[1..] == a[1..] + b;
      RunSplit(cfg, Step(cfg, s, a[0]), a[1..], b);
    }
  }

  predicate OnlyTargets(es: seq<Event>) { forall e | e in es :: e.Write? || e.SwitchOff? }

  /// Writes and switch-offs move the target, not the ramp's start.
  lemma {:induction false} TargetsKeepStart(cfg: Config, s: State, es: seq<Event>)
    requires s.running && s.previous != [] && |s.previous| == |s.target| && CanRun(cfg, s, es) && OnlyTargets(es)
    ensures var r := Run(cfg, s, es);
            && r.running && r.previous == s.previous && r.previousTime == s.previousTime && |r.target| == |s.target|
    decreases |es|
  {
    if es != [] {
      assert es[0] in es && forall e | e in es[1..] :: e in es;
      TargetsKeepStart(cfg, Step(cfg, s, es[0]), es[1..]);
    }
  }

  lemma TickThenTargets(cfg: Config, s: State, es: seq<Event>, p: int, others: seq<Event>, last: Event)
    requires CanRun(cfg, s, es + [Tick(p)] + others + [last]) && OnlyTargets(others)
    ensures CanRun(cfg, s, es + [Tick(p)]) && CanRun(cfg, s, es + [Tick(p)] + others)
    ensures var a, b := Run(cfg, s, es + [Tick(p)]), Run(cfg, s, es + [Tick(p)] + others);
            && CanStep(b, last) && Run(cfg, s, es + [Tick(p)] + others + [last]) == Step(cfg, b, last)
            && (a.previous != [] ==> b.running && b.previous == a.previous && b.previousTime == p
                                     && |b.target| == |a.previous|)
  {
    var head := es + [Tick(p)];
    RunSplit(cfg, s, head + others, [last]);
    RunSplit(cfg, s, head, others);
    RunSplit(cfg, s, es, [Tick(p)]);
    var a, t := Run(cfg, s, head), Run(cfg, s, es);
    assert CanTick(t, p) && a == TickStep(cfg, t, p);
    if a.previous != [] { TargetsKeepStart(cfg, a, others); }
  }

  /** Over runs: whatever happened before, let p be the time of the last tick before a write, with any other
      writes and switch-offs in between. The ticks after the write follow the straight line from the values
      shown at p to the written colours. */
  lemma RunTracksLine(cfg: Config, s: State, es: seq<Event>, p: int, others: seq<Event>, now: int, leds: Frame,
                      times: seq<int>, i: nat, ch: Channel)
    requires CanRun(cfg, s, es + [Tick(p)] + others + [Write(now, leds)]) && OnlyTargets(others) && i < |leds|
    requires Ticking(p, times, now + cfg.settlingTime) && Last(p, times) <= now + cfg.settlingTime
    ensures CanRun(cfg, s, es + [Tick(p)])
    ensures var a, w := Run(cfg, s, es + [Tick(p)]), Run(cfg, s, es + [Tick(p)] + others + [Write(now, leds)]);
            |a.previous| > 0 ==>
              && w.running && |w.previous| == |w.target| == |a.previous| && i < |a.previous|
              && w.previousTime == p && w.targetTime == now + cfg.settlingTime
              && var r := Ticks(cfg, w, times);
                 OnLine(Abs(Get(leds[i], ch) - Get(r.previous[i], ch)), Abs(Get(leds[i], ch) - Get(a.previous[i], ch)),
                        |times|, p, Last(p, times), now + cfg.settlingTime)
  {
    TickThenTargets(cfg, s, es, p, others, Write(now, leds));
    if |Run(cfg, s, es + [Tick(p)]).previous| > 0 {
      WriteTracksLine(cfg, Run(cfg, s, es + [Tick(p)] + others), now, leds, times, i, ch);
    }
  }
}
