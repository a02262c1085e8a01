/** The core: which channel is shown, when rendering is skipped, and who owns a channel. */
module HyperionCore {
  import opened Colors
  import opened PriorityMuxing

  /// A started effect: its channel, its abort flag, and whether its thread has finished.
  datatype EffectState = EffectState(priority: int, aborted: bool, finished: bool)

  datatype Timer = Stopped | At(deadline: int)

  /// `rendered` is the channel whose colours were last sent to the leds, as it was then.
  datatype Core = Core(mux: Mux, auto: bool, source: int, rendered: InputInfo, timer: Timer, effects: seq<EffectState>)

  function TimerFor(info: InputInfo): Timer {
    if info.timeoutTime == NO_TIMEOUT then Stopped else At(info.timeoutTime)
  }

  // ----- effect list -----

  function Aborted(effects: seq<EffectState>, p: int): seq<EffectState> {
    seq(|effects|, i requires 0 <= i < |effects| =>
      if effects[i].priority == p then effects[i].(aborted := true) else effects[i])
  }

  function AllAborted(effects: seq<EffectState>): seq<EffectState> {
    seq(|effects|, i requires 0 <= i < |effects| => effects[i].(aborted := true))
  }

  function Without(effects: seq<EffectState>, i: nat): seq<EffectState>
    requires i < |effects|
  {
    effects[..i] + effects[i+1..]
  }

  // ----- operations -----

  ghost function Update(c: Core, now: int): (r: Core)
    requires WellFormed(c.mux)
    ensures WellFormed(r.mux)
  {
    var mux := SetCurrentTimeStep(c.mux, now);
    TimeKeepsWellFormed(c.mux, now);
    var info := mux.inputs[Visible(mux, c.auto, c.source)];
    c.(mux := mux, rendered := info,
       timer := if info.timeoutTime == NO_TIMEOUT then Stopped else At(now + Max(0, info.timeoutTime - now)))
  }

  lemma TimeKeepsWellFormed(m: Mux, now: int)
    requires WellFormed(m)
    ensures WellFormed(SetCurrentTimeStep(m, now))
  {
    StepKeepsWellFormed(Base(0), m, OpTime(now));
  }

  ghost function SetCurrentSource(c: Core, p: int): Core {
    if HasPriority(c.mux, p) then c.(auto := false, source := p) else c
  }

  ghost function SetAutoSelect(c: Core, enabled: bool, now: int): (r: Core)
    requires WellFormed(c.mux)
    ensures WellFormed(r.mux)
  {
    var c1 := c.(auto := enabled);
    Update(if enabled then c1 else SetCurrentSource(c1, c1.mux.current), now)
  }

  ghost function SetColors(c: Core, p: int, ledColors: Frame, timeout: int, clearEffects: bool, component: Component,
                           now: int): (r: Core)
    requires WellFormed(c.mux) && (p == LOWEST_PRIORITY ==> timeout <= 0)
    ensures WellFormed(r.mux)
  {
    var t := if timeout > 0 then now + timeout else NO_TIMEOUT;
    StepKeepsWellFormed(Base(0), c.mux, OpSet(p, ledColors, t, component));
    var c1 := c.(effects := if clearEffects then Aborted(c.effects, p) else c.effects,
                 mux := SetInputStep(c.mux, p, ledColors, t, component));
    if !c1.auto || p == c1.mux.current then Update(c1, now) else c1
  }

  ghost function Clear(c: Core, p: int, now: int): (r: Core)
    requires WellFormed(c.mux)
    ensures WellFormed(r.mux)
  {
    var c1 :=
      if HasPriority(c.mux, p) then
        StepKeepsWellFormed(Base(0), c.mux, OpClear(p));
        var c2 := c.(mux := ClearInputStep(c.mux, p));
        var c3 := if !c2.auto && c2.source == p then SetAutoSelect(c2, true, now) else c2;
        TimeKeepsWellFormed(c2.mux, now);
        if p < c3.mux.current then Update(c3, now) else c3
      else c;
    c1.(effects := Aborted(c1.effects, p))
  }

  ghost function ClearEverything(c: Core, base: InputInfo, now: int): (r: Core)
    requires base.priority == LOWEST_PRIORITY && base.timeoutTime == NO_TIMEOUT
    ensures WellFormed(r.mux)
  {
    var c1 := SetAutoSelect(c.(mux := ClearAllStep(base)), true, now);
    TimeKeepsWellFormed(ClearAllStep(base), now);
    var c2 := Update(c1, now);
    c2.(effects := AllAborted(c2.effects))
  }

  ghost function StartEffect(c: Core, p: int): Core {
    c.(effects := Aborted(c.effects, p) + [EffectState(p, false, false)])
  }

  ghost function EffectFinished(c: Core, i: nat, now: int): (r: Core)
    requires WellFormed(c.mux) && i < |c.effects|
    ensures WellFormed(r.mux)
  {
    var c1 := if c.effects[i].aborted then c else Clear(c, c.effects[i].priority, now);
    c1.(effects := Without(c1.effects, i))
  }

  // ----- steps and runs -----

  datatype Step =
    | DoSetColors(p: int, ledColors: Frame, timeout: int, clearEffects: bool, component: Component)
    | DoClear(p: int)
    | DoClearAll
    | DoAutoSelect(enabled: bool)
    | DoSelectSource(p: int)
    | DoRefresh
    | TimerFires
    | DoStartEffect(p: int)
    | DoSelfAbort(i: nat)
    | ThreadFinishes(i: nat)
    | HandleFinish(i: nat)

  ghost predicate Enabled(c: Core, s: Step, now: int) {
    match s
    case DoSetColors(p, _, timeout, _, _) => p == LOWEST_PRIORITY ==> timeout <= 0
    case TimerFires => c.timer.At? && c.timer.deadline <= now
    case DoSelfAbort(i) => i < |c.effects|
    case ThreadFinishes(i) => i < |c.effects|
    case HandleFinish(i) => i < |c.effects| && c.effects[i].finished
    case _ => true
  }

  ghost function Next(base: InputInfo, c: Core, s: Step, now: int): (r: Core)
    requires WellFormed(c.mux) && base.priority == LOWEST_PRIORITY && base.timeoutTime == NO_TIMEOUT
    requires Enabled(c, s, now)
    ensures WellFormed(r.mux)
  {
    match s
    case DoSetColors(p, ledColors, timeout, clearEffects, component) =>
      SetColors(c, p, ledColors, timeout, clearEffects, component, now)
    case DoClear(p) => Clear(c, p, now)
    case DoClearAll => ClearEverything(c, base, now)
    case DoAutoSelect(enabled) => SetAutoSelect(c, enabled, now)
    case DoSelectSource(p) => SetCurrentSource(c, p)
    case DoRefresh => Update(c, now)
    case TimerFires => Update(c.(timer := Stopped), now)
    case DoStartEffect(p) => StartEffect(c, p)
    case DoSelfAbort(i) => c.(effects := c.effects[i := c.effects[i].(aborted := true)])
    case ThreadFinishes(i) => c.(effects := c.effects[i := c.effects[i].(finished := true)])
    case HandleFinish(i) => EffectFinished(c, i, now)
  }

  /// The leds show the visible channel as it is stored now, and the timer waits for its end.
  ghost predicate Synced(c: Core) {
    && WellFormed(c.mux)
    && c.rendered == c.mux.inputs[Visible(c.mux, c.auto, c.source)]
    && c.timer == TimerFor(c.rendered)
  }

  lemma UpdateSyncs(c: Core, now: int)
    requires WellFormed(c.mux)
    ensures Synced(Update(c, now)) && Update(c, now).mux == SetCurrentTimeStep(c.mux, now)
  {
    TimeKeepsWellFormed(c.mux, now);
  }

  lemma SetColorsSyncs(c: Core, p: int, ledColors: Frame, timeout: int, clearEffects: bool, component: Component,
                       now: int)
    requires Synced(c) && (p == LOWEST_PRIORITY ==> timeout <= 0)
    ensures Synced(SetColors(c, p, ledColors, timeout, clearEffects, component, now))
  {
    var t := if timeout > 0 then now + timeout else NO_TIMEOUT;
    StepKeepsWellFormed(Base(0), c.mux, OpSet(p, ledColors, t, component));
    var c1 := c.(effects := if clearEffects then Aborted(c.effects, p) else c.effects,
                 mux := SetInputStep(c.mux, p, ledColors, t, component));
    UpdateSyncs(c1, now);
  }

  /** Clearing a channel: where the call skips the update nothing visible has changed. */
  lemma ClearSyncs(c: Core, p: int, now: int)
    requires Synced(c)
    ensures Synced(Clear(c, p, now))
  {
    if HasPriority(c.mux, p) {
      StepKeepsWellFormed(Base(0), c.mux, OpClear(p));
      var c2 := c.(mux := ClearInputStep(c.mux, p));
      if !c2.auto && c2.source == p {
        UpdateSyncs(c2.(auto := true), now);
        UpdateSyncs(SetAutoSelect(c2, true, now), now);
      } else {
        UpdateSyncs(c2, now);
      }
    }
  }

  lemma ClearEverythingSyncs(c: Core, base: InputInfo, now: int)
    requires base.priority == LOWEST_PRIORITY && base.timeoutTime == NO_TIMEOUT
    ensures Synced(ClearEverything(c, base, now))
  {
    var c0 := c.(mux := ClearAllStep(base), auto := true);
    UpdateSyncs(c0, now);
    UpdateSyncs(Update(c0, now), now);
  }

  /// A source selection that makes another channel visible without an update.
  predicate Disturbs(c: Core, s: Step) {
    s.DoSelectSource? && HasPriority(c.mux, s.p) && s.p != Visible(c.mux, c.auto, c.source)
  }

  /** Every step keeps the leds in step with the visible channel, except exactly the source selections that
      change which channel that is. */
  lemma StepSyncs(base: InputInfo, c: Core, s: Step, now: int)
    requires Synced(c) && base.priority == LOWEST_PRIORITY && base.timeoutTime == NO_TIMEOUT
    requires Enabled(c, s, now)
    ensures Synced(Next(base, c, s, now)) <==> !Disturbs(c, s)
  {
    match s
    case DoSetColors(p, ledColors, timeout, clearEffects, component) =>
      SetColorsSyncs(c, p, ledColors, timeout, clearEffects, component, now);
    case DoClear(p) => ClearSyncs(c, p, now);
    case DoClearAll => ClearEverythingSyncs(c, base, now);
    case DoAutoSelect(enabled) =>
      var c1 := c.(auto := enabled);
      UpdateSyncs(if enabled then c1 else SetCurrentSource(c1, c1.mux.current), now);
    case DoSelectSource(p) =>
    case DoRefresh => UpdateSyncs(c, now);
    case TimerFires => UpdateSyncs(c.(timer := Stopped), now);
    case DoStartEffect(p) =>
    case DoSelfAbort(i) =>
    case ThreadFinishes(i) =>
    case HandleFinish(i) => if !c.effects[i].aborted { ClearSyncs(c, c.effects[i].priority, now); }
  }

  /// `now` counts milliseconds since the epoch.
  datatype Event = Event(step: Step, now: nat)

  ghost function InitialCore(ledCount: nat, source: int): Core {
    Core(ClearAllStep(Base(ledCount)), true, source, Base(ledCount), Stopped, [])
  }

  ghost predicate CanRun(ledCount: nat, c: Core, es: seq<Event>)
    requires WellFormed(c.mux)
    decreases |es|
  {
    es == [] ||
    (Enabled(c, es[0].step, es[0].now)
     && CanRun(ledCount, Next(Base(ledCount), c, es[0].step, es[0].now), es[1..]))
  }

  ghost function Run(ledCount: nat, c: Core, es: seq<Event>): (r: Core)
    requires WellFormed(c.mux) && CanRun(ledCount, c, es)
    ensures WellFormed(r.mux)
    decreases |es|
  {
    if es == [] then c else Run(ledCount, Next(Base(ledCount), c, es[0].step, es[0].now), es[1..])
  }

  lemma RunCons(ledCount: nat, c: Core, s: Step, now: nat, rest: seq<Event>)
    requires WellFormed(c.mux) && Enabled(c, s, now) && CanRun(ledCount, Next(Base(ledCount), c, s, now), rest)
    ensures CanRun(ledCount, c, [Event(s, now)] + rest)
    ensures Run(ledCount, c, [Event(s, now)] + rest) == Run(ledCount, Next(Base(ledCount), c, s, now), rest)
  {
    assert ([Event(s, now)] + rest)[1..] == rest;
  }

  /// No step of the run is a selection that changes the visible channel.
  ghost predicate Undisturbed(ledCount: nat, c: Core, es: seq<Event>)
    requires WellFormed(c.mux) && CanRun(ledCount, c, es)
    decreases |es|
  {
    es == [] ||
    (!Disturbs(c, es[0].step) && Undisturbed(ledCount, Next(Base(ledCount), c, es[0].step, es[0].now), es[1..]))
  }

  /** Skipped renders are safe: in every state of every run without such a selection the leds show the
      visible channel's stored colours and the timer waits exactly for that channel's end. */
  lemma {:induction false} RunStaysSynced(ledCount: nat, c: Core, es: seq<Event>)
    requires Synced(c) && CanRun(ledCount, c, es) && Undisturbed(ledCount, c, es)
    ensures Synced(Run(ledCount, c, es))
    decreases |es|
  {
    if es != [] {
      StepSyncs(Base(ledCount), c, es[0].step, es[0].now);
      RunStaysSynced(ledCount, Next(Base(ledCount), c, es[0].step, es[0].now), es[1..]);
    }
  }

  /// The leds are in step in every state that the run passes through.
  ghost predicate AlwaysSynced(ledCount: nat, c: Core, es: seq<Event>)
    requires WellFormed(c.mux) && CanRun(ledCount, c, es)
    decreases |es|
  {
    Synced(c)
    && (es == [] || AlwaysSynced(ledCount, Next(Base(ledCount), c, es[0].step, es[0].now), es[1..]))
  }

  /** Exactly the runs that are in step throughout: those without a selection that changes the visible
      channel. */
  lemma {:induction false} SyncedInRuns(ledCount: nat, c: Core, es: seq<Event>)
    requires Synced(c) && CanRun(ledCount, c, es)
    ensures AlwaysSynced(ledCount, c, es) <==> Undisturbed(ledCount, c, es)
    decreases |es|
  {
    if es != [] {
      StepSyncs(Base(ledCount), c, es[0].step, es[0].now);
      var c1 := Next(Base(ledCount), c, es[0].step, es[0].now);
      if Synced(c1) { SyncedInRuns(ledCount, c1, es[1..]); }
    }
  }

  /** Such runs exist: two channels are set and the hidden one is selected. It is visible from then on, but
      the leds keep showing the other. */
  lemma SelectionWithoutUpdate(ledCount: nat, source: int, p: int, q: int, a: Frame, b: Frame, now: nat)
    requires p < q < LOWEST_PRIORITY
    ensures var es := [Event(DoSetColors(p, a, 0, false, SolidColor), now),
                       Event(DoSetColors(q, b, 0, false, SolidColor), now), Event(DoSelectSource(q), now)];
            && CanRun(ledCount, InitialCore(ledCount, source), es)
            && var r := Run(ledCount, InitialCore(ledCount, source), es);
               && Visible(r.mux, r.auto, r.source) == q && r.mux.inputs[q].ledColors == b
               && r.rendered == InputInfo(p, NO_TIMEOUT, a, SolidColor) && !Synced(r)
  {
    var base, c0 := Base(ledCount), InitialCore(ledCount, source);
    var e1, e2 := DoSetColors(p, a, 0, false, SolidColor), DoSetColors(q, b, 0, false, SolidColor);
    var e3 := DoSelectSource(q);
    var c1 := Next(base, c0, e1, now);
    var c2 := Next(base, c1, e2, now);
    var c3 := Next(base, c2, e3, now);
    StepSyncs(base, c0, e1, now);
    StepSyncs(base, c1, e2, now);
    StepSyncs(base, c2, e3, now);
    FirstChannelShows(ledCount, c0, p, a, now);
    assert c2 == c1.(mux := SetInputStep(c1.mux, q, b, NO_TIMEOUT, SolidColor));
    RunCons(ledCount, c2, e3, now, []);
    RunCons(ledCount, c1, e2, now, [Event(e3, now)]);
    RunCons(ledCount, c0, e1, now, [Event(e2, now)] + [Event(e3, now)]);
    assert [Event(e1, now)] + ([Event(e2, now)] + [Event(e3, now)]) == [Event(e1, now), Event(e2, now), Event(e3, now)];
    assert [Event(e3, now)] + [] == [Event(e3, now)];
  }

  lemma FirstChannelShows(ledCount: nat, c: Core, p: int, a: Frame, now: nat)
    requires c.auto && c.mux == ClearAllStep(Base(ledCount)) && c.effects == [] && p < LOWEST_PRIORITY
    ensures var r := SetColors(c, p, a, 0, false, SolidColor, now);
            && r.auto && r.rendered == InputInfo(p, NO_TIMEOUT, a, SolidColor) && r.mux.current == p
            && r.mux == SetInputStep(c.mux, p, a, NO_TIMEOUT, SolidColor)
  {
    var mux := SetInputStep(c.mux, p, a, NO_TIMEOUT, SolidColor);
    StepKeepsWellFormed(Base(ledCount), c.mux, OpSet(p, a, NO_TIMEOUT, SolidColor));
    StepKeepsWellFormed(Base(ledCount), mux, OpTime(now));
    assert Unexpired(mux.inputs, now) == mux.inputs;
    assert IsMin(SetCurrentTimeStep(mux, now).current, mux.inputs.Keys) && IsMin(p, mux.inputs.Keys);
    UpdateSyncs(c.(mux := mux), now);
  }

  ghost predicate ClearUpdates(c: Core, p: int)
    requires WellFormed(c.mux)
  {
    WellFormedCanClear(c.mux, p);
    HasPriority(c.mux, p) && ((!c.auto && c.source == p) || p < ClearInputStep(c.mux, p).current)
  }

  /// The step renders.
  ghost predicate Updates(c: Core, s: Step)
    requires WellFormed(c.mux)
  {
    match s
    case DoSetColors(p, _, _, _, _) => !c.auto || p <= c.mux.current
    case DoClear(p) => ClearUpdates(c, p)
    case HandleFinish(i) => i < |c.effects| && !c.effects[i].aborted && ClearUpdates(c, c.effects[i].priority)
    case DoClearAll => true
    case DoAutoSelect(_) => true
    case DoRefresh => true
    case TimerFires => true
    case _ => false
  }

  /** A step that renders puts the leds in step, whatever they showed before. */
  lemma UpdatingStepSyncs(base: InputInfo, c: Core, s: Step, now: int)
    requires WellFormed(c.mux) && base.priority == LOWEST_PRIORITY && base.timeoutTime == NO_TIMEOUT
    requires Enabled(c, s, now) && Updates(c, s)
    ensures Synced(Next(base, c, s, now))
  {
    match s
    case DoSetColors(p, ledColors, timeout, clearEffects, component) =>
      var t := if timeout > 0 then now + timeout else NO_TIMEOUT;
      StepKeepsWellFormed(Base(0), c.mux, OpSet(p, ledColors, t, component));
      UpdateSyncs(c.(effects := if clearEffects then Aborted(c.effects, p) else c.effects,
                     mux := SetInputStep(c.mux, p, ledColors, t, component)), now);
    case DoClear(p) => UpdatingClearSyncs(c, p, now);
    case HandleFinish(i) => UpdatingClearSyncs(c, c.effects[i].priority, now);
    case DoClearAll => ClearEverythingSyncs(c, base, now);
    case DoAutoSelect(enabled) =>
      var c1 := c.(auto := enabled);
      UpdateSyncs(if enabled then c1 else SetCurrentSource(c1, c1.mux.current), now);
    case DoRefresh => UpdateSyncs(c, now);
    case TimerFires => UpdateSyncs(c.(timer := Stopped), now);
  }

  lemma UpdatingClearSyncs(c: Core, p: int, now: int)
    requires WellFormed(c.mux) && ClearUpdates(c, p)
    ensures Synced(Clear(c, p, now))
  {
    StepKeepsWellFormed(Base(0), c.mux, OpClear(p));
    var c2 := c.(mux := ClearInputStep(c.mux, p));
    if !c2.auto && c2.source == p {
      UpdateSyncs(c2.(auto := true), now);
      UpdateSyncs(SetAutoSelect(c2, true, now), now);
    } else {
      UpdateSyncs(c2, now);
    }
  }

  /// Some step of the run renders and no later one selects another visible channel.
  ghost predicate EndsSettled(ledCount: nat, c: Core, es: seq<Event>)
    requires WellFormed(c.mux) && CanRun(ledCount, c, es)
    decreases |es|
  {
    es != [] &&
    var c1 := Next(Base(ledCount), c, es[0].step, es[0].now);
    (Updates(c, es[0].step) && Undisturbed(ledCount, c1, es[1..])) || EndsSettled(ledCount, c1, es[1..])
  }

  /** Disturbances heal: after any run whose last such selection is followed by a step that renders the leds
      are in step again. */
  lemma {:induction false} RunResyncs(ledCount: nat, c: Core, es: seq<Event>)
    requires WellFormed(c.mux) && CanRun(ledCount, c, es) && EndsSettled(ledCount, c, es)
    ensures Synced(Run(ledCount, c, es))
    decreases |es|
  {
    var c1 := Next(Base(ledCount), c, es[0].step, es[0].now);
    if Updates(c, es[0].step) && Undisturbed(ledCount, c1, es[1..]) {
      UpdatingStepSyncs(Base(ledCount), c, es[0].step, es[0].now);
      RunStaysSynced(ledCount, c1, es[1..]);
    } else {
      RunResyncs(ledCount, c1, es[1..]);
    }
  }

  /** What being in step means in auto-select mode: until the timer is due, the channel on the leds
      is the smallest one that is stored and has not expired by the clock. */
  lemma SyncedShowsSmallestLive(c: Core, now: int)
    requires Synced(c) && c.auto && (c.timer.At? ==> now < c.timer.deadline)
    ensures var p := c.rendered.priority;
            && p in c.mux.inputs && Alive(c.mux.inputs[p], now)
            && forall q | q in c.mux.inputs && Alive(c.mux.inputs[q], now) :: p <= q
  {
  }

  /** In auto-select mode every run leaves the leds on the smallest live channel, although setColors
      and clear often do not render. */
  lemma RunShowsSmallestLive(ledCount: nat, source: int, es: seq<Event>, now: int)
    requires CanRun(ledCount, InitialCore(ledCount, source), es)
    requires Undisturbed(ledCount, InitialCore(ledCount, source), es)
          || EndsSettled(ledCount, InitialCore(ledCount, source), es)
    requires var r := Run(ledCount, InitialCore(ledCount, source), es);
             r.auto && (r.timer.At? ==> now < r.timer.deadline)
    ensures var r := Run(ledCount, InitialCore(ledCount, source), es);
            && r.timer == TimerFor(r.rendered)
            && var p := r.rendered.priority;
               && p in r.mux.inputs && Alive(r.mux.inputs[p], now) && r.rendered == r.mux.inputs[p]
               && forall q | q in r.mux.inputs && Alive(r.mux.inputs[q], now) :: p <= q
  {
    if Undisturbed(ledCount, InitialCore(ledCount, source), es) {
      RunStaysSynced(ledCount, InitialCore(ledCount, source), es);
    } else {
      RunResyncs(ledCount, InitialCore(ledCount, source), es);
    }
    SyncedShowsSmallestLive(Run(ledCount, InitialCore(ledCount, source), es), now);
  }
}
