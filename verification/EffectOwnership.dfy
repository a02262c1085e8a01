/** Who owns a channel: effects that start, are aborted, finish, and have their finish handled late. */
module EffectOwnership {
  import opened Colors
  import opened PriorityMuxing
  import opened HyperionCore

  /// Of two effects on one channel the earlier one is always aborted.
  ghost predicate OneLive(effects: seq<EffectState>) {
    forall i, j | 0 <= i < j < |effects| && effects[i].priority == effects[j].priority :: effects[i].aborted
  }

  lemma AbortedKeepsOneLive(effects: seq<EffectState>, p: int)
    requires OneLive(effects)
    ensures OneLive(Aborted(effects, p)) && OneLive(Aborted(effects, p) + [EffectState(p, false, false)])
  {
  }

  lemma WithoutKeepsOneLive(effects: seq<EffectState>, k: nat)
    requires OneLive(effects) && k < |effects|
    ensures OneLive(Without(effects, k))
  {
  }

  lemma OneLiveKept(base: InputInfo, c: Core, s: Step, now: int)
    requires WellFormed(c.mux) && base.priority == LOWEST_PRIORITY && base.timeoutTime == NO_TIMEOUT
    requires Enabled(c, s, now) && OneLive(c.effects)
    ensures OneLive(Next(base, c, s, now).effects)
  {
    match s
    case DoSetColors(p, _, _, _, _) => AbortedKeepsOneLive(c.effects, p);
    case DoClear(p) => AbortedKeepsOneLive(c.effects, p);
    case DoStartEffect(p) => AbortedKeepsOneLive(c.effects, p);
    case HandleFinish(k) =>
      AbortedKeepsOneLive(c.effects, c.effects[k].priority);
      WithoutKeepsOneLive(c.effects, k);
      WithoutKeepsOneLive(Aborted(c.effects, c.effects[k].priority), k);
    case _ =>
  }

  /** In every reachable state each channel has at most one effect that is not aborted. */
  lemma {:induction false} RunKeepsOneLive(ledCount: nat, c: Core, es: seq<Event>)
    requires WellFormed(c.mux) && CanRun(ledCount, c, es) && OneLive(c.effects)
    ensures OneLive(Run(ledCount, c, es).effects)
    decreases |es|
  {
    if es != [] {
      OneLiveKept(Base(ledCount), c, es[0].step, es[0].now);
      RunKeepsOneLive(ledCount, Next(Base(ledCount), c, es[0].step, es[0].now), es[1..]);
    }
  }

  /** A finish handler that clears its channel belongs to the channel's only live effect; one whose
      effect was superseded leaves the channels, the leds and the successor alone. */
  lemma FinishRespectsOwner(c: Core, i: nat, j: nat, now: int)
    requires WellFormed(c.mux) && OneLive(c.effects) && i < |c.effects| && j < |c.effects|
    requires i != j && c.effects[i].priority == c.effects[j].priority
    ensures !c.effects[i].aborted ==> c.effects[j].aborted
    ensures i < j ==>
      && EffectFinished(c, i, now) == c.(effects := Without(c.effects, i))
      && EffectFinished(c, i, now).effects[j-1] == c.effects[j]
  {
  }

  /** Ownership over whole runs: in whatever order effects start, are aborted, finish and have their
      finish handled, a handler that clears a channel belongs to its only live effect, and a
      superseded effect never touches its successor. */
  lemma OwnershipInEveryRun(ledCount: nat, source: int, es: seq<Event>, i: nat, j: nat, now: int)
    requires CanRun(ledCount, InitialCore(ledCount, source), es)
    requires var c := Run(ledCount, InitialCore(ledCount, source), es);
             i < |c.effects| && j < |c.effects| && i != j && c.effects[i].priority == c.effects[j].priority
    ensures var c := Run(ledCount, InitialCore(ledCount, source), es);
            && (!c.effects[i].aborted ==> c.effects[j].aborted)
            && (i < j ==> var d := EffectFinished(c, i, now);
                 d == c.(effects := Without(c.effects, i)) && d.effects[j-1] == c.effects[j])
  {
    RunKeepsOneLive(ledCount, InitialCore(ledCount, source), es);
    FinishRespectsOwner(Run(ledCount, InitialCore(ledCount, source), es), i, j, now);
  }

  /** Starting an effect makes it the only live one on its channel. */
  lemma StartTakesOver(c: Core, p: int)
    ensures var r := StartEffect(c, p);
            && |r.effects| == |c.effects| + 1 && !r.effects[|c.effects|].aborted && r.effects[|c.effects|].priority == p
            && (forall i | 0 <= i < |c.effects| ::
                  r.effects[i].aborted == (c.effects[i].aborted || c.effects[i].priority == p))
  {
  }

  // ----- what an effect leaves behind -----

  /** When an effect's end is handled its channel is still stored exactly if the effect was aborted and the
      channel was stored before: a handler of an aborted effect clears nothing. */
  lemma FinishClearsUnlessAborted(c: Core, i: nat, now: int)
    requires WellFormed(c.mux) && i < |c.effects| && c.effects[i].priority < LOWEST_PRIORITY
    ensures var p := c.effects[i].priority;
            p in EffectFinished(c, i, now).mux.inputs <==> c.effects[i].aborted && p in c.mux.inputs
  {
  }

  /// An effect's frame without an end is stored on channel p.
  predicate Held(c: Core, p: int) { HeldIn(c.mux, p) }

  predicate HeldIn(m: Mux, p: int) {
    p in m.inputs && m.inputs[p].timeoutTime == NO_TIMEOUT && m.inputs[p].component == Component.Effect
  }

  /// The step delivers such a frame.
  predicate EffectFrame(s: Step, p: int) {
    s.DoSetColors? && s.p == p && s.timeout <= 0 && s.component == Component.Effect
  }

  /// The step takes what is stored on p away, or replaces it.
  predicate Drops(c: Core, s: Step, p: int) {
    match s
    case DoSetColors(q, _, _, _, _) => q == p
    case DoClear(q) => q == p
    case DoClearAll => true
    case HandleFinish(i) => i < |c.effects| && !c.effects[i].aborted && c.effects[i].priority == p
    case _ => false
  }

  /** What every step does to such a frame: it is there afterwards exactly if the step delivers it, or it was
      there and the step does not drop it. */
  lemma HeldExactly(base: InputInfo, c: Core, s: Step, now: nat, p: int)
    requires WellFormed(c.mux) && base.priority == LOWEST_PRIORITY && base.timeoutTime == NO_TIMEOUT
    requires Enabled(c, s, now) && p < LOWEST_PRIORITY
    ensures Held(Next(base, c, s, now), p) <==> EffectFrame(s, p) || (Held(c, p) && !Drops(c, s, p))
  {
    match s
    case DoSetColors(q, ledColors, timeout, clearEffects, component) =>
      SetColorsStores(c, q, ledColors, timeout, clearEffects, component, now, p);
    case DoClear(q) => ClearDrops(c, q, now, p);
    case HandleFinish(i) => if !c.effects[i].aborted { ClearDrops(c, c.effects[i].priority, now, p); }
    case _ =>
  }

  lemma TimeKeepsEndless(m: Mux, now: int, p: int)
    ensures HeldIn(SetCurrentTimeStep(m, now), p) <==> HeldIn(m, p)
  {}

  lemma SetColorsStores(c: Core, q: int, ledColors: Frame, timeout: int, clearEffects: bool, component: Component,
                        now: nat, p: int)
    requires WellFormed(c.mux) && (q == LOWEST_PRIORITY ==> timeout <= 0)
    ensures Held(SetColors(c, q, ledColors, timeout, clearEffects, component, now), p)
       <==> if p == q then timeout <= 0 && component == Component.Effect else Held(c, p)
  {
    var t := if timeout > 0 then now + timeout else NO_TIMEOUT;
    TimeKeepsEndless(SetInputStep(c.mux, q, ledColors, t, component), now, p);
  }

  lemma ClearDrops(c: Core, q: int, now: nat, p: int)
    requires WellFormed(c.mux) && p < LOWEST_PRIORITY
    ensures Held(Clear(c, q, now), p) <==> Held(c, p) && q != p
  {
    if HasPriority(c.mux, q) {
      StepKeepsWellFormed(Base(0), c.mux, OpClear(q));
      var m := ClearInputStep(c.mux, q);
      TimeKeepsEndless(m, now, p);
      TimeKeepsEndless(SetCurrentTimeStep(m, now), now, p);
    }
  }

  ghost predicate HasLive(effects: seq<EffectState>, p: int) {
    exists i :: 0 <= i < |effects| && effects[i].priority == p && !effects[i].aborted
  }

  /// A stored frame without an end has a live effect that will clear it.
  ghost predicate Owned(c: Core, p: int) { Held(c, p) ==> HasLive(c.effects, p) }

  /// The step leaves a frame on p without an owner: it delivers one when no effect on p is live, or aborts
  /// them itself; or the live effect aborts itself although its frames have no end.
  ghost predicate Orphans(c: Core, s: Step, p: int) {
    match s
    case DoSetColors(_, _, _, clearEffects, _) => EffectFrame(s, p) && (clearEffects || !HasLive(c.effects, p))
    case DoSelfAbort(i) => i < |c.effects| && c.effects[i].priority == p && !c.effects[i].aborted && Held(c, p)
    case _ => false
  }

  lemma LiveAfterAborting(effects: seq<EffectState>, q: int, p: int)
    ensures HasLive(Aborted(effects, q), p) <==> q != p && HasLive(effects, p)
  {
    if q != p && HasLive(effects, p) {
      var i :| 0 <= i < |effects| && effects[i].priority == p && !effects[i].aborted;
      assert Aborted(effects, q)[i] == effects[i];
    }
  }

  lemma LiveAfterDropping(effects: seq<EffectState>, k: nat, p: int)
    requires k < |effects| && (effects[k].priority != p || effects[k].aborted)
    ensures HasLive(Without(effects, k), p) <==> HasLive(effects, p)
  {
    if HasLive(effects, p) {
      var i :| 0 <= i < |effects| && effects[i].priority == p && !effects[i].aborted;
      assert Without(effects, k)[if i < k then i else i - 1] == effects[i];
    }
  }

  lemma LiveAfterStart(effects: seq<EffectState>, q: int, p: int)
    ensures HasLive(Aborted(effects, q) + [EffectState(q, false, false)], p) <==> q == p || HasLive(effects, p)
  {
    var started := Aborted(effects, q) + [EffectState(q, false, false)];
    LiveAfterAborting(effects, q, p);
    if q == p {
      assert started[|effects|].priority == p && !started[|effects|].aborted;
    } else if HasLive(effects, p) {
      var aborted := Aborted(effects, q);
      var i :| 0 <= i < |aborted| && aborted[i].priority == p && !aborted[i].aborted;
      assert started[i] == Aborted(effects, q)[i];
    }
  }

  lemma LiveAfterSelfAbort(effects: seq<EffectState>, k: nat, p: int)
    requires k < |effects| && OneLive(effects)
    ensures HasLive(effects[k := effects[k].(aborted := true)], p)
       <==> HasLive(effects, p) && !(effects[k].priority == p && !effects[k].aborted)
  {
    var after := effects[k := effects[k].(aborted := true)];
    if i :| 0 <= i < |effects| && effects[i].priority == p && !effects[i].aborted && i != k {
      assert after[i] == effects[i];
    }
  }

  /** Exactly which steps break ownership. */
  lemma OwnedExactly(base: InputInfo, c: Core, s: Step, now: nat, p: int)
    requires WellFormed(c.mux) && base.priority == LOWEST_PRIORITY && base.timeoutTime == NO_TIMEOUT
    requires Enabled(c, s, now) && p < LOWEST_PRIORITY && OneLive(c.effects) && Owned(c, p)
    ensures Owned(Next(base, c, s, now), p) <==> !Orphans(c, s, p)
  {
    HeldExactly(base, c, s, now, p);
    match s
    case DoSetColors(q, _, _, _, _) => LiveAfterAborting(c.effects, q, p);
    case DoClear(q) => LiveAfterAborting(c.effects, q, p);
    case DoStartEffect(q) => LiveAfterStart(c.effects, q, p);
    case DoSelfAbort(i) => LiveAfterSelfAbort(c.effects, i, p);
    case ThreadFinishes(i) => LiveAfterThreadEnd(c.effects, i, p);
    case HandleFinish(i) =>
      var q := c.effects[i].priority;
      if c.effects[i].aborted {
        LiveAfterDropping(c.effects, i, p);
      } else if q != p {
        LiveAfterAborting(c.effects, q, p);
        LiveAfterDropping(Aborted(c.effects, q), i, p);
      }
    case _ =>
  }

  lemma LiveAfterThreadEnd(effects: seq<EffectState>, k: nat, p: int)
    requires k < |effects|
    ensures HasLive(effects[k := effects[k].(finished := true)], p) <==> HasLive(effects, p)
  {
    var after := effects[k := effects[k].(finished := true)];
    if i :| 0 <= i < |effects| && effects[i].priority == p && !effects[i].aborted {
      assert after[i].priority == p && !after[i].aborted;
    }
  }

  /// Channel p is owned in every state that the run passes through.
  ghost predicate AlwaysOwned(ledCount: nat, c: Core, es: seq<Event>, p: int)
    requires WellFormed(c.mux) && CanRun(ledCount, c, es)
    decreases |es|
  {
    Owned(c, p)
    && (es == [] || AlwaysOwned(ledCount, Next(Base(ledCount), c, es[0].step, es[0].now), es[1..], p))
  }

  ghost predicate NeverOrphans(ledCount: nat, c: Core, es: seq<Event>, p: int)
    requires WellFormed(c.mux) && CanRun(ledCount, c, es)
    decreases |es|
  {
    es == [] || (!Orphans(c, es[0].step, p)
                 && NeverOrphans(ledCount, Next(Base(ledCount), c, es[0].step, es[0].now), es[1..], p))
  }

  /** Ownership over whole runs: a channel is owned in every state of a run if and only if none of its steps
      delivers an endless frame without a live effect, or lets the live effect of an endless frame abort. */
  lemma {:induction false} OwnedInRuns(ledCount: nat, c: Core, es: seq<Event>, p: int)
    requires WellFormed(c.mux) && CanRun(ledCount, c, es) && p < LOWEST_PRIORITY
    requires OneLive(c.effects) && Owned(c, p)
    ensures AlwaysOwned(ledCount, c, es, p) <==> NeverOrphans(ledCount, c, es, p)
    decreases |es|
  {
    if es != [] {
      var c1 := Next(Base(ledCount), c, es[0].step, es[0].now);
      OwnedExactly(Base(ledCount), c, es[0].step, es[0].now, p);
      OneLiveKept(Base(ledCount), c, es[0].step, es[0].now);
      if Owned(c1, p) { OwnedInRuns(ledCount, c1, es[1..], p); }
    }
  }

  lemma {:induction false} OwnedAtEnd(ledCount: nat, c: Core, es: seq<Event>, p: int)
    requires WellFormed(c.mux) && CanRun(ledCount, c, es) && AlwaysOwned(ledCount, c, es, p)
    ensures Owned(Run(ledCount, c, es), p)
    decreases |es|
  {
    if es != [] { OwnedAtEnd(ledCount, Next(Base(ledCount), c, es[0].step, es[0].now), es[1..], p); }
  }

  /** So, from the start, when no frame is orphaned and the last effect of a channel is gone, none of its
      endless frames is left behind. */
  lemma NothingLeftBehind(ledCount: nat, source: int, es: seq<Event>, p: int)
    requires CanRun(ledCount, InitialCore(ledCount, source), es) && p < LOWEST_PRIORITY
    requires NeverOrphans(ledCount, InitialCore(ledCount, source), es, p)
    requires forall e | e in Run(ledCount, InitialCore(ledCount, source), es).effects :: e.priority != p
    ensures !Held(Run(ledCount, InitialCore(ledCount, source), es), p)
  {
    OwnedInRuns(ledCount, InitialCore(ledCount, source), es, p);
    OwnedAtEnd(ledCount, InitialCore(ledCount, source), es, p);
  }

  /** The other side of the equivalence happens: an effect is started and cleared, its thread ends, then the
      frame it had sent before is delivered and its end is handled. The frame stays on the leds, without an
      end and without an effect. */
  lemma LateFrameOrphansChannel(ledCount: nat, source: int, p: int, frame: Frame, now: nat)
    requires p < LOWEST_PRIORITY
    ensures var late := DoSetColors(p, frame, 0, false, Component.Effect);
            var es := [Event(DoStartEffect(p), now), Event(DoClear(p), now), Event(ThreadFinishes(0), now),
                       Event(late, now), Event(HandleFinish(0), now)];
            && CanRun(ledCount, InitialCore(ledCount, source), es)
            && var r := Run(ledCount, InitialCore(ledCount, source), es);
               && r.effects == [] && Held(r, p) && r.timer == Stopped
               && r.rendered == InputInfo(p, NO_TIMEOUT, frame, Component.Effect)
  {
    var base, c0 := Base(ledCount), InitialCore(ledCount, source);
    var late := DoSetColors(p, frame, 0, false, Component.Effect);
    var c3 := c0.(effects := [EffectState(p, true, true)]);
    LateFrameShows(ledCount, c3, frame, now);
    var c4 := Next(base, c3, late, now);
    var c5 := Next(base, c4, HandleFinish(0), now);
    assert c5.effects == [];
    RunCons(ledCount, c4, HandleFinish(0), now, []);
    RunCons(ledCount, c3, late, now, [Event(HandleFinish(0), now)]);
    FirstSteps(ledCount, c0, p, now, [Event(late, now), Event(HandleFinish(0), now)]);
    assert [Event(DoStartEffect(p), now), Event(DoClear(p), now), Event(ThreadFinishes(0), now)]
             + [Event(late, now), Event(HandleFinish(0), now)]
        == [Event(DoStartEffect(p), now), Event(DoClear(p), now), Event(ThreadFinishes(0), now),
            Event(late, now), Event(HandleFinish(0), now)];
  }

  /// Starting an effect, clearing its channel and the end of its thread leave an aborted effect.
  lemma FirstSteps(ledCount: nat, c: Core, p: int, now: nat, rest: seq<Event>)
    requires p < LOWEST_PRIORITY && c.mux == ClearAllStep(Base(ledCount)) && c.effects == []
    requires WellFormed(c.mux) && CanRun(ledCount, c.(effects := [EffectState(p, true, true)]), rest)
    ensures var es := [Event(DoStartEffect(p), now), Event(DoClear(p), now), Event(ThreadFinishes(0), now)] + rest;
            && CanRun(ledCount, c, es)
            && Run(ledCount, c, es) == Run(ledCount, c.(effects := [EffectState(p, true, true)]), rest)
  {
    var base := Base(ledCount);
    var c1 := Next(base, c, DoStartEffect(p), now);
    var c2 := Next(base, c1, DoClear(p), now);
    assert Next(base, c2, ThreadFinishes(0), now) == c.(effects := [EffectState(p, true, true)]);
    RunCons(ledCount, c2, ThreadFinishes(0), now, rest);
    RunCons(ledCount, c1, DoClear(p), now, [Event(ThreadFinishes(0), now)] + rest);
    RunCons(ledCount, c, DoStartEffect(p), now, [Event(DoClear(p), now)] + ([Event(ThreadFinishes(0), now)] + rest));
    assert [Event(DoStartEffect(p), now), Event(DoClear(p), now), Event(ThreadFinishes(0), now)] + rest
        == [Event(DoStartEffect(p), now)] + ([Event(DoClear(p), now)] + ([Event(ThreadFinishes(0), now)] + rest));
  }

  lemma LateFrameShows(ledCount: nat, c: Core, frame: Frame, now: nat)
    requires c.auto && c.mux == ClearAllStep(Base(ledCount))
    requires |c.effects| == 1 && c.effects[0].priority < LOWEST_PRIORITY
    ensures var p := c.effects[0].priority;
            var r := Next(Base(ledCount), c, DoSetColors(p, frame, 0, false, Component.Effect), now);
            && r.effects == c.effects && Held(r, p) && r.timer == Stopped
            && r.rendered == InputInfo(p, NO_TIMEOUT, frame, Component.Effect)
  {
    var p := c.effects[0].priority;
    var mux := SetInputStep(c.mux, p, frame, NO_TIMEOUT, Component.Effect);
    StepKeepsWellFormed(Base(ledCount), c.mux, OpSet(p, frame, NO_TIMEOUT, Component.Effect));
    UpdateSyncs(c.(mux := mux), now);
  }
}
