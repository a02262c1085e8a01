/** The core objects: the daemon, its effect engine and the effects, each method tied to its step. */
module HyperionObjects {
  import opened Colors
  import opened PriorityMuxing
  import opened HyperionCore

  class Effect {
    const priority: int
    var abortRequested: bool
    /// The effect's thread has ended; its finish handler may still be waiting.
    var finished: bool

    ghost function Value(): EffectState
      reads this
    {
      EffectState(priority, abortRequested, finished)
    }

    constructor (priority: int)
      ensures Value() == EffectState(priority, false, false) && this.priority == priority
    {
      this.priority, abortRequested, finished := priority, false, false;
    }

    method Abort()
      modifies this
      ensures abortRequested && finished == old(finished)
    {
      abortRequested := true;
    }
  }

  class EffectEngine {
    var activeEffects: seq<Effect>

    ghost function Value(): seq<EffectState>
      reads this, activeEffects
    {
      seq(|activeEffects|, i requires 0 <= i < |activeEffects| reads this, activeEffects => activeEffects[i].Value())
    }

    ghost predicate Distinct()
      reads this
    {
      forall i, j | 0 <= i < j < |activeEffects| :: activeEffects[i] != activeEffects[j]
    }

    constructor ()
      ensures activeEffects == [] && Value() == []
    {
      activeEffects := [];
    }

    method ChannelCleared(priority: int)
      modifies activeEffects
      ensures Value() == Aborted(old(Value()), priority)
    {
      for i := 0 to |activeEffects|
        invariant forall e | e in activeEffects :: e.finished == old(e.finished)
        invariant forall e | e in activeEffects ::
          e.abortRequested == old(e.abortRequested) || (e.abortRequested && e.priority == priority)
        invariant forall j | 0 <= j < i && activeEffects[j].priority == priority :: activeEffects[j].abortRequested
      {
        if activeEffects[i].priority == priority {
          activeEffects[i].Abort();
        }
      }
    }

    method AllChannelsCleared()
      modifies activeEffects
      ensures Value() == AllAborted(old(Value()))
    {
      for i := 0 to |activeEffects|
        invariant forall e | e in activeEffects :: e.finished == old(e.finished)
        invariant forall j | 0 <= j < i :: activeEffects[j].abortRequested
      {
        activeEffects[i].Abort();
      }
    }

    /// Starts an effect on a channel after aborting whatever ran there.
    method RunEffectScript(priority: int) returns (effect: Effect)
      requires Distinct()
      modifies this, activeEffects
      ensures fresh(effect) && activeEffects == old(activeEffects) + [effect] && Distinct()
      ensures Value() == Aborted(old(Value()), priority) + [EffectState(priority, false, false)]
    {
      ChannelCleared(priority);
      effect := new Effect(priority);
      activeEffects := activeEffects + [effect];
    }

    /// The finish handler: an effect that ended by itself clears its channel; then it is dropped.
    method EffectFinished(effect: Effect, hyperion: Hyperion, now: int) returns (ghost k: nat)
      requires Distinct() && effect in activeEffects && hyperion.effectEngine == this && hyperion.Valid()
      modifies this, activeEffects, hyperion, hyperion.muxer
      ensures k < |old(activeEffects)| && old(activeEffects)[k] == effect
      ensures activeEffects == old(activeEffects)[..k] + old(activeEffects)[k+1..] && Distinct()
      ensures hyperion.Value() == HyperionCore.EffectFinished(old(hyperion.Value()), k, now)
      ensures hyperion.Valid()
    {
      k :| 0 <= k < |activeEffects| && activeEffects[k] == effect;
      ghost var was := hyperion.Value();
      if !effect.abortRequested {
        hyperion.Clear(effect.priority, now);
      }
      Erase(effect, k);
    }

    method Erase(effect: Effect, ghost k: nat)
      requires Distinct() && k < |activeEffects| && activeEffects[k] == effect
      modifies this
      ensures activeEffects == old(activeEffects)[..k] + old(activeEffects)[k+1..] && Distinct()
      ensures Value() == Without(old(Value()), k)
    {
      for i := 0 to |activeEffects|
        invariant effect !in activeEffects[..i] && activeEffects == old(activeEffects)
      {
        if activeEffects[i] == effect {
          activeEffects := activeEffects[..i] + activeEffects[i+1..];
          return;
        }
        assert k >= i + 1;
      }
    }
  }

  class Hyperion {
    const muxer: PriorityMuxer
    const effectEngine: EffectEngine
    var sourceAutoSelectEnabled: bool
    var currentSourcePriority: int
    var timer: Timer
    /// The channel whose colours were last sent to the leds, as it was stored then.
    ghost var rendered: InputInfo

    ghost function Value(): Core
      reads this, muxer, effectEngine, effectEngine.activeEffects
    {
      Core(muxer.Value(), sourceAutoSelectEnabled, currentSourcePriority, rendered, timer, effectEngine.Value())
    }

    ghost predicate Valid()
      reads this, muxer
    {
      && WellFormed(muxer.Value())
      && muxer.lowestPriorityInfo.priority == LOWEST_PRIORITY && muxer.lowestPriorityInfo.timeoutTime == NO_TIMEOUT
    }

    constructor (ledCount: nat, source: int, now: int)
      ensures Valid() && Synced(Value()) && fresh(muxer) && fresh(effectEngine)
      ensures muxer.lowestPriorityInfo == Base(ledCount)
      ensures sourceAutoSelectEnabled && currentSourcePriority == source && effectEngine.activeEffects == []
    {
      muxer := new PriorityMuxer(ledCount);
      effectEngine := new EffectEngine();
      sourceAutoSelectEnabled, currentSourcePriority, timer := true, source, Stopped;
      rendered := Base(ledCount);
      new;
      UpdateSyncs(Value(), now);
      Update(now);
    }

    method Update(now: int)
      requires Valid()
      modifies this, muxer
      ensures Valid() && Value() == HyperionCore.Update(old(Value()), now)
    {
      TimeKeepsWellFormed(muxer.Value(), now);
      muxer.SetCurrentTime(now);
      var hasSource := currentSourcePriority == LOWEST_PRIORITY || currentSourcePriority in muxer.activeInputs;
      var priority := if sourceAutoSelectEnabled || !hasSource then muxer.currentPriority else currentSourcePriority;
      LookupSucceeds(muxer.Value(), sourceAutoSelectEnabled, currentSourcePriority);
      var found, priorityInfo := muxer.GetInputInfo(priority);
      assert found;
      rendered := priorityInfo;
      if priorityInfo.timeoutTime == NO_TIMEOUT {
        timer := Stopped;
      } else {
        timer := At(now + Max(0, priorityInfo.timeoutTime - now));
      }
    }

    method SetCurrentSourcePriority(priority: int) returns (priorityValid: bool)
      modifies this`sourceAutoSelectEnabled, this`currentSourcePriority
      ensures priorityValid <==> HasPriority(muxer.Value(), priority)
      ensures Value() == SetCurrentSource(old(Value()), priority)
    {
      priorityValid := priority == LOWEST_PRIORITY || priority in muxer.activeInputs;
      if priorityValid {
        sourceAutoSelectEnabled := false;
        currentSourcePriority := priority;
      }
    }

    method SetSourceAutoSelectEnabled(enabled: bool, now: int)
      requires Valid()
      modifies this, muxer
      ensures Valid() && Value() == SetAutoSelect(old(Value()), enabled, now)
    {
      sourceAutoSelectEnabled := enabled;
      if !sourceAutoSelectEnabled {
        var _ := SetCurrentSourcePriority(muxer.currentPriority);
      }
      Update(now);
    }

    method SetColors(priority: int, ledColors: Frame, timeout: int, clearEffects: bool, component: Component, now: int)
      requires Valid() && (priority == LOWEST_PRIORITY ==> timeout <= 0)
      modifies this, muxer, effectEngine.activeEffects
      ensures Valid()
      ensures Value() ==
              HyperionCore.SetColors(old(Value()), priority, ledColors, timeout, clearEffects, component, now)
    {
      ghost var t := if timeout > 0 then now + timeout else NO_TIMEOUT;
      StepKeepsWellFormed(Base(0), muxer.Value(), OpSet(priority, ledColors, t, component));
      if clearEffects {
        effectEngine.ChannelCleared(priority);
      }
      if timeout > 0 {
        muxer.SetInput(priority, ledColors, now + timeout, component);
      } else {
        muxer.SetInput(priority, ledColors, NO_TIMEOUT, component);
      }
      if !sourceAutoSelectEnabled || priority == muxer.currentPriority {
        Update(now);
      }
    }

    method Clear(priority: int, now: int)
      requires Valid()
      modifies this, muxer, effectEngine.activeEffects
      ensures Valid() && Value() == HyperionCore.Clear(old(Value()), priority, now)
    {
      if priority == LOWEST_PRIORITY || priority in muxer.activeInputs {
        StepKeepsWellFormed(Base(0), muxer.Value(), OpClear(priority));
        muxer.ClearInput(priority);
        if !sourceAutoSelectEnabled && currentSourcePriority == priority {
          SetSourceAutoSelectEnabled(true, now);
        }
        // the cleared channel was the visible one
        if priority < muxer.currentPriority {
          Update(now);
        }
      }
      effectEngine.ChannelCleared(priority);
    }

    method ClearAll(now: int)
      requires Valid()
      modifies this, muxer, effectEngine.activeEffects
      ensures Valid() && Value() == ClearEverything(old(Value()), muxer.lowestPriorityInfo, now)
    {
      muxer.ClearAll();
      SetSourceAutoSelectEnabled(true, now);
      Update(now);
      effectEngine.AllChannelsCleared();
    }

    function GetCurrentPriority(): (p: int)
      reads this, muxer
      ensures p == Visible(muxer.Value(), sourceAutoSelectEnabled, currentSourcePriority)
    {
      if || sourceAutoSelectEnabled
         || !(currentSourcePriority == LOWEST_PRIORITY || currentSourcePriority in muxer.activeInputs)
      then muxer.currentPriority else currentSourcePriority
    }
  }
}
