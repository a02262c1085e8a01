/** How long a channel lasts, and what clearing and selecting do to it. */
module ChannelLifetimes {
  import opened Colors
  import opened PriorityMuxing
  import opened HyperionCore
  import opened EffectOwnership

  /** A channel that is set holds the colours given, and is alive until exactly now + timeout, or for good if
      the timeout is not positive. */
  lemma SetColorsLastsUntil(c: Core, p: int, ledColors: Frame, timeout: int, clearEffects: bool, component: Component,
                            now: nat, t: int)
    requires WellFormed(c.mux) && (p == LOWEST_PRIORITY ==> timeout <= 0)
    ensures var r := SetColors(c, p, ledColors, timeout, clearEffects, component, now);
            && p in r.mux.inputs && r.mux.inputs[p].ledColors == ledColors && r.mux.inputs[p].component == component
            && (Alive(r.mux.inputs[p], t) <==> timeout <= 0 || t < now + timeout)
  {}

  /** Setting a channel leaves every other channel that has not expired as it was, and aborts exactly the
      channel's own effects, if asked to. */
  lemma SetColorsTouchesOne(c: Core, p: int, ledColors: Frame, timeout: int, clearEffects: bool, component: Component,
                            now: nat, q: int)
    requires WellFormed(c.mux) && (p == LOWEST_PRIORITY ==> timeout <= 0) && q != p
    ensures var r := SetColors(c, p, ledColors, timeout, clearEffects, component, now);
            && (q in r.mux.inputs ==> q in c.mux.inputs && r.mux.inputs[q] == c.mux.inputs[q])
            && (StillThere(c.mux, q, now) ==> q in r.mux.inputs)
            && |r.effects| == |c.effects|
            && forall i | 0 <= i < |c.effects| ::
                 r.effects[i].aborted == (c.effects[i].aborted || (clearEffects && c.effects[i].priority == p))
  {}

  /** In auto-select, setting or clearing a channel behind the visible one renders nothing: the leds, the timer,
      the visible channel and every other entry stay, expired ones included. */
  lemma HiddenChannelIsQuiet(c: Core, p: int, ledColors: Frame, timeout: int, clearEffects: bool,
                             component: Component, now: nat)
    requires WellFormed(c.mux) && c.auto && c.mux.current < p < LOWEST_PRIORITY
    ensures var r := SetColors(c, p, ledColors, timeout, clearEffects, component, now);
            && r.rendered == c.rendered && r.timer == c.timer && r.mux.current == c.mux.current
            && r.mux.inputs.Keys == c.mux.inputs.Keys + {p}
            && forall q | q in c.mux.inputs && q != p :: r.mux.inputs[q] == c.mux.inputs[q]
    ensures var r := Clear(c, p, now);
            && r.rendered == c.rendered && r.timer == c.timer && r.mux.current == c.mux.current
            && r.mux.inputs == c.mux.inputs - {p}
  {
    WellFormedCanClear(c.mux, p);
  }

  /** A step that neither replaces nor clears a channel leaves it as it is while it is alive. */
  lemma StepKeepsChannel(base: InputInfo, c: Core, s: Step, now: nat, p: int)
    requires WellFormed(c.mux) && base.priority == LOWEST_PRIORITY && base.timeoutTime == NO_TIMEOUT
    requires Enabled(c, s, now) && p < LOWEST_PRIORITY && !Drops(c, s, p)
    ensures var r := Next(base, c, s, now);
            && (p in r.mux.inputs ==> p in c.mux.inputs && r.mux.inputs[p] == c.mux.inputs[p])
            && (StillThere(c.mux, p, now) ==> p in r.mux.inputs)
  {
    match s
    case DoSetColors(q, ledColors, timeout, clearEffects, component) =>
      SetColorsTouchesOne(c, q, ledColors, timeout, clearEffects, component, now, p);
    case DoClear(q) => ClearTouchesOne(c, q, now, p);
    case HandleFinish(i) => if !c.effects[i].aborted { ClearTouchesOne(c, c.effects[i].priority, now, p); }
    case _ =>
  }

  lemma ClearTouchesOne(c: Core, p: int, now: nat, q: int)
    requires WellFormed(c.mux) && q != p
    ensures var r := Clear(c, p, now);
            && (q in r.mux.inputs ==> q in c.mux.inputs && r.mux.inputs[q] == c.mux.inputs[q])
            && (StillThere(c.mux, q, now) ==> q in r.mux.inputs)
  {
    WellFormedCanClear(c.mux, p);
    if HasPriority(c.mux, p) { StepKeepsWellFormed(Base(0), c.mux, OpClear(p)); }
  }

  /** Clearing a channel below 255 removes it and aborts exactly its effects; 255 itself stays. */
  lemma ClearRemoves(c: Core, p: int, now: nat)
    requires WellFormed(c.mux)
    ensures var r := Clear(c, p, now);
            && (p < 255 ==> p !in r.mux.inputs) && 255 in r.mux.inputs
            && |r.effects| == |c.effects|
            && forall i | 0 <= i < |c.effects| ::
                 r.effects[i] == c.effects[i].(aborted := c.effects[i].aborted || c.effects[i].priority == p)
  {
    WellFormedCanClear(c.mux, p);
    if HasPriority(c.mux, p) { StepKeepsWellFormed(Base(0), c.mux, OpClear(p)); }
  }

  /** Clearing everything leaves the base channel alone, on the leds, in auto-select, with every effect
      aborted and no timer. */
  lemma ClearAllRemoves(c: Core, base: InputInfo, now: nat)
    requires base.priority == LOWEST_PRIORITY && base.timeoutTime == NO_TIMEOUT
    ensures var r := ClearEverything(c, base, now);
            && r.mux.inputs == map[255 := base] && r.mux.current == 255 && r.auto
            && r.rendered == base && r.timer == Stopped
            && |r.effects| == |c.effects| && forall i | 0 <= i < |c.effects| :: r.effects[i].aborted
  {
    ClearEverythingSyncs(c, base, now);
    var m := ClearAllStep(base);
    assert Unexpired(m.inputs, now) == m.inputs;
    var once := SetCurrentTimeStep(m, now);
    assert once.inputs == m.inputs && IsMin(once.current, m.inputs.Keys + {LOWEST_PRIORITY});
    assert Unexpired(once.inputs, now) == once.inputs;
    assert IsMin(SetCurrentTimeStep(once, now).current, once.inputs.Keys + {LOWEST_PRIORITY});
  }

  // ----- over runs -----

  /// No step of the run replaces or clears channel p, and none comes after t.
  ghost predicate Untouched(ledCount: nat, c: Core, es: seq<Event>, p: int, t: int)
    requires WellFormed(c.mux) && CanRun(ledCount, c, es)
    decreases |es|
  {
    es == [] ||
    (es[0].now <= t && !Drops(c, es[0].step, p)
     && Untouched(ledCount, Next(Base(ledCount), c, es[0].step, es[0].now), es[1..], p, t))
  }

  /** A channel that nobody replaces or clears is there at t if and only if it was stored to last beyond t. */
  lemma {:induction false} ChannelLasts(ledCount: nat, c: Core, es: seq<Event>, p: int, t: int)
    requires WellFormed(c.mux) && CanRun(ledCount, c, es) && p < LOWEST_PRIORITY && p in c.mux.inputs
    requires Untouched(ledCount, c, es, p, t)
    ensures var r := Run(ledCount, c, es);
            && (p in r.mux.inputs ==> r.mux.inputs[p] == c.mux.inputs[p])
            && (StillThere(r.mux, p, t) <==> Alive(c.mux.inputs[p], t))
    decreases |es|
  {
    if es != [] {
      var c1 := Next(Base(ledCount), c, es[0].step, es[0].now);
      StepKeepsChannel(Base(ledCount), c, es[0].step, es[0].now, p);
      if p in c1.mux.inputs {
        ChannelLasts(ledCount, c1, es[1..], p, t);
      } else {
        StaysGone(ledCount, c1, es[1..], p, t);
      }
    }
  }

  lemma {:induction false} StaysGone(ledCount: nat, c: Core, es: seq<Event>, p: int, t: int)
    requires WellFormed(c.mux) && CanRun(ledCount, c, es) && p < LOWEST_PRIORITY && p !in c.mux.inputs
    requires Untouched(ledCount, c, es, p, t)
    ensures p !in Run(ledCount, c, es).mux.inputs
    decreases |es|
  {
    if es != [] {
      StepKeepsChannel(Base(ledCount), c, es[0].step, es[0].now, p);
      StaysGone(ledCount, Next(Base(ledCount), c, es[0].step, es[0].now), es[1..], p, t);
    }
  }

  /** Over runs: after any history a channel is set at `now` and then neither replaced nor cleared. At every
      later time t it is there, with its colours, if and only if the timeout was not positive or t is before
      now + timeout. */
  lemma SetChannelLasts(ledCount: nat, source: int, before: seq<Event>, p: int, ledColors: Frame, timeout: int,
                        clearEffects: bool, component: Component, now: nat, es: seq<Event>, t: int)
    requires CanRun(ledCount, InitialCore(ledCount, source), before) && p < LOWEST_PRIORITY && now <= t
    requires var c := SetColors(Run(ledCount, InitialCore(ledCount, source), before), p, ledColors, timeout,
                                clearEffects, component, now);
             CanRun(ledCount, c, es) && Untouched(ledCount, c, es, p, t)
    ensures var c := SetColors(Run(ledCount, InitialCore(ledCount, source), before), p, ledColors, timeout,
                               clearEffects, component, now);
            var r := Run(ledCount, c, es);
            && (StillThere(r.mux, p, t) <==> timeout <= 0 || t < now + timeout)
            && (p in r.mux.inputs ==> r.mux.inputs[p].ledColors == ledColors)
  {
    var c0 := Run(ledCount, InitialCore(ledCount, source), before);
    var c := SetColors(c0, p, ledColors, timeout, clearEffects, component, now);
    SetColorsLastsUntil(c0, p, ledColors, timeout, clearEffects, component, now, t);
    ChannelLasts(ledCount, c, es, p, t);
  }

  // ----- selecting -----

  /** Switching auto-select off keeps the channel that is on the leds, unless it has just expired, and makes
      it the selected one. */
  lemma ManualKeepsChannel(c: Core, now: nat)
    requires Synced(c) && c.auto
    ensures var r := SetAutoSelect(c, false, now);
            && Synced(r) && !r.auto && r.source == c.rendered.priority
            && (Alive(c.rendered, now) ==> r.rendered == c.rendered)
  {
    var c1 := SetCurrentSource(c.(auto := false), c.mux.current);
    UpdateSyncs(c1, now);
  }

  /** While a manual source is stored it is what the leds show, whatever its priority. */
  lemma ManualShowsSource(c: Core)
    requires Synced(c) && !c.auto && c.source in c.mux.inputs
    ensures c.rendered == c.mux.inputs[c.source] && c.rendered.priority == c.source
  {}

  /** So setting another channel, even a smaller one, leaves the leds on the selected one. */
  lemma ManualIgnoresOthers(c: Core, q: int, ledColors: Frame, timeout: int, component: Component, now: nat)
    requires Synced(c) && !c.auto && q != c.source && q < LOWEST_PRIORITY && StillThere(c.mux, c.source, now)
    ensures var r := SetColors(c, q, ledColors, timeout, false, component, now);
            Synced(r) && r.rendered == c.rendered
  {
    SetColorsSyncs(c, q, ledColors, timeout, false, component, now);
    SetColorsTouchesOne(c, q, ledColors, timeout, false, component, now, c.source);
  }

  /** Switching auto-select on puts the smallest channel that has not expired on the leds. */
  lemma AutoShowsSmallest(c: Core, now: nat)
    requires WellFormed(c.mux)
    ensures var r := SetAutoSelect(c, true, now);
            && Synced(r) && r.auto && StillThere(c.mux, r.rendered.priority, now)
            && forall q | StillThere(c.mux, q, now) :: r.rendered.priority <= q
  {
    UpdateSyncs(c.(auto := true), now);
    var r := SetAutoSelect(c, true, now);
    assert IsMin(r.mux.current, r.mux.inputs.Keys) && r.rendered.priority == r.mux.current;
    forall q | StillThere(c.mux, q, now) ensures r.rendered.priority <= q {
      assert q in r.mux.inputs.Keys;
    }
  }

  /** A selection answers for existing channels only, and makes the channel the visible one. */
  lemma SelectionMakesVisible(c: Core, p: int)
    requires WellFormed(c.mux)
    ensures var r := SetCurrentSource(c, p);
            if p in c.mux.inputs then Visible(r.mux, r.auto, r.source) == p && r.mux == c.mux else r == c
  {}
}
