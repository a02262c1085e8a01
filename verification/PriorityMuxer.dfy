/** The priority multiplexer: a timed map of input channels with a cached minimum. */
module PriorityMuxing {
  import opened Colors

  datatype Component = Invalid | SolidColor | Effect | Other(id: nat)

  datatype InputInfo = InputInfo(priority: int, timeoutTime: int, ledColors: Frame, component: Component)

  const LOWEST_PRIORITY := 255

  /// Marks a channel that never expires.
  const NO_TIMEOUT := -1

  datatype Mux = Mux(current: int, inputs: map<int, InputInfo>)

  function Base(ledCount: nat): InputInfo {
    InputInfo(LOWEST_PRIORITY, NO_TIMEOUT, seq(ledCount, i => BLACK), Invalid)
  }

  ghost predicate IsMin(k: int, keys: set<int>) { k in keys && forall j | j in keys :: k <= j }

  lemma EmptyIfNone(keys: set<int>)
    requires forall k :: k !in keys
    ensures keys == {}
  {
    assert forall k | k in keys :: k in {};
  }

  lemma NonEmpty(keys: set<int>)
    requires keys != {}
    ensures exists k :: k in keys
  {
    if forall k :: k !in keys { EmptyIfNone(keys); }
  }

  lemma MinExists(keys: set<int>)
    requires keys != {}
    ensures exists k :: IsMin(k, keys)
  {
    NonEmpty(keys);
    var k :| k in keys;
    var rest := keys - {k};
    if rest == {} {
      assert keys == {k};
      assert IsMin(k, keys);
    } else {
      MinExists(rest);
      var m :| IsMin(m, rest);
      assert forall j | j in keys :: j == k || j in rest;
      assert IsMin(if k <= m then k else m, keys);
    }
  }

  /// The smallest element of a set of keys.
  ghost function MinKey(keys: set<int>): (k: int)
    requires keys != {}
    ensures IsMin(k, keys)
  {
    MinExists(keys);
    var k :| IsMin(k, keys);
    k
  }

  predicate Alive(info: InputInfo, now: int) { info.timeoutTime == NO_TIMEOUT || now < info.timeoutTime }

  function SetInputStep(m: Mux, p: int, ledColors: Frame, timeoutTime: int, component: Component): Mux {
    Mux(Min(m.current, p), m.inputs[p := InputInfo(p, timeoutTime, ledColors, component)])
  }

  /// Removing the current channel leaves another one to take its place.
  ghost predicate CanClear(m: Mux, p: int) {
    p < LOWEST_PRIORITY && m.current == p ==> (m.inputs - {p}).Keys != {}
  }

  ghost function ClearInputStep(m: Mux, p: int): Mux
    requires CanClear(m, p)
  {
    if p < LOWEST_PRIORITY then
      var rest := m.inputs - {p};
      Mux(if m.current == p then MinKey(rest.Keys) else m.current, rest)
    else m
  }

  function ClearAllStep(base: InputInfo): Mux { Mux(LOWEST_PRIORITY, map[LOWEST_PRIORITY := base]) }

  function Unexpired(inputs: map<int, InputInfo>, now: int): map<int, InputInfo> {
    map k | k in inputs && Alive(inputs[k], now) :: inputs[k]
  }

  ghost function SetCurrentTimeStep(m: Mux, now: int): Mux {
    var rest := Unexpired(m.inputs, now);
    Mux(MinKey(rest.Keys + {LOWEST_PRIORITY}), rest)
  }

  predicate HasPriority(m: Mux, p: int) { p == LOWEST_PRIORITY || p in m.inputs }

  /// The base channel is present for good, every entry knows its own key, and the cached current
  /// priority is the smallest key.
  ghost predicate WellFormed(m: Mux) {
    && LOWEST_PRIORITY in m.inputs && m.inputs[LOWEST_PRIORITY].timeoutTime == NO_TIMEOUT
    && (forall k | k in m.inputs :: m.inputs[k].priority == k)
    && IsMin(m.current, m.inputs.Keys)
  }

  // ----- runs -----

  datatype Op =
    | OpSet(p: int, ledColors: Frame, timeoutTime: int, component: Component)
    | OpClear(p: int)
    | OpClearAll
    | OpTime(now: int)

  /// The base channel may be overwritten, but not given an end.
  predicate KeepsBase(op: Op) { op.OpSet? && op.p == LOWEST_PRIORITY ==> op.timeoutTime == NO_TIMEOUT }

  ghost predicate CanStep(m: Mux, op: Op) { op.OpClear? ==> CanClear(m, op.p) }

  ghost function Step(base: InputInfo, m: Mux, op: Op): Mux
    requires CanStep(m, op)
  {
    match op
    case OpSet(p, ledColors, timeoutTime, component) => SetInputStep(m, p, ledColors, timeoutTime, component)
    case OpClear(p) => ClearInputStep(m, p)
    case OpClearAll => ClearAllStep(base)
    case OpTime(now) => SetCurrentTimeStep(m, now)
  }

  lemma WellFormedCanClear(m: Mux, p: int)
    requires WellFormed(m)
    ensures CanClear(m, p)
  {
    if p < LOWEST_PRIORITY { assert LOWEST_PRIORITY in (m.inputs - {p}).Keys; }
  }

  /** A step keeps the multiplexer well formed exactly when it does not give the base channel an end. */
  lemma StepKeepsWellFormed(base: InputInfo, m: Mux, op: Op)
    requires WellFormed(m) && base.priority == LOWEST_PRIORITY && base.timeoutTime == NO_TIMEOUT
    ensures CanStep(m, op)
    ensures WellFormed(Step(base, m, op)) <==> KeepsBase(op)
  {
    WellFormedCanClear(m, if op.OpClear? then op.p else 0);
    match op
    case OpSet(p, _, _, _) =>
      assert Step(base, m, op).inputs.Keys == m.inputs.Keys + {p};
    case OpClear(p) =>
      if p < LOWEST_PRIORITY { assert Step(base, m, op).inputs.Keys == m.inputs.Keys - {p}; }
    case OpClearAll =>
    case OpTime(now) =>
      var rest := Unexpired(m.inputs, now);
      assert LOWEST_PRIORITY in rest && rest.Keys + {LOWEST_PRIORITY} == rest.Keys;
  }

  ghost predicate Allowed(ops: seq<Op>) { forall op | op in ops :: KeepsBase(op) }

  /// No step of the run clears the current channel when it is the only one left.
  ghost predicate CanMuxRun(ledCount: nat, ops: seq<Op>)
    decreases |ops|, 0
  {
    ops == [] || (CanMuxRun(ledCount, ops[..|ops|-1]) && CanStep(MuxRun(ledCount, ops[..|ops|-1]), ops[|ops|-1]))
  }

  /// The state after a run, starting from a fresh multiplexer.
  ghost function MuxRun(ledCount: nat, ops: seq<Op>): Mux
    requires CanMuxRun(ledCount, ops)
    decreases |ops|, 1
  {
    if ops == [] then ClearAllStep(Base(ledCount))
    else Step(Base(ledCount), MuxRun(ledCount, ops[..|ops|-1]), ops[|ops|-1])
  }

  /** As long as the base channel gets no end, every run is possible and keeps the multiplexer well
      formed. */
  lemma {:induction false} AllowedRunsAreWellFormed(ledCount: nat, ops: seq<Op>)
    requires Allowed(ops)
    ensures CanMuxRun(ledCount, ops) && WellFormed(MuxRun(ledCount, ops))
  {
    if ops != [] {
      assert forall op | op in ops[..|ops|-1] :: op in ops;
      AllowedRunsAreWellFormed(ledCount, ops[..|ops|-1]);
      StepKeepsWellFormed(Base(ledCount), MuxRun(ledCount, ops[..|ops|-1]), ops[|ops|-1]);
    }
  }

  /// A key-by-key account of which channels are live: what the cached state is compared with.
  ghost predicate Live(ledCount: nat, ops: seq<Op>, p: int)
  {
    if ops == [] then p == LOWEST_PRIORITY
    else
      var before := ops[..|ops|-1];
      match ops[|ops|-1]
      case OpSet(q, _, _, _) => p == q || Live(ledCount, before, p)
      case OpClear(q) => Live(ledCount, before, p) && (p != q || q >= LOWEST_PRIORITY)
      case OpClearAll => p == LOWEST_PRIORITY
      case OpTime(now) => Live(ledCount, before, p) && Alive(LastInfo(ledCount, before, p), now)
  }

  /// What was last stored for channel p.
  ghost function LastInfo(ledCount: nat, ops: seq<Op>, p: int): InputInfo {
    if ops == [] then Base(ledCount)
    else
      match ops[|ops|-1]
      case OpSet(q, ledColors, timeoutTime, component) =>
        if p == q then InputInfo(q, timeoutTime, ledColors, component) else LastInfo(ledCount, ops[..|ops|-1], p)
      case OpClear(_) => LastInfo(ledCount, ops[..|ops|-1], p)
      case OpClearAll => Base(ledCount)
      case OpTime(_) => LastInfo(ledCount, ops[..|ops|-1], p)
  }

  /** After any run at all exactly the live channels are stored, each with what was last set on it. */
  lemma {:induction false} StoredIsLive(ledCount: nat, ops: seq<Op>)
    requires CanMuxRun(ledCount, ops)
    ensures var m := MuxRun(ledCount, ops);
            && (forall p :: p in m.inputs <==> Live(ledCount, ops, p))
            && (forall p | p in m.inputs :: m.inputs[p] == LastInfo(ledCount, ops, p))
  {
    if ops != [] {
      StoredIsLive(ledCount, ops[..|ops|-1]);
    }
  }

  /** The cached minimum refines recomputation: as long as the base channel gets no end, the current
      priority is the smallest live one. */
  lemma CacheRefinesRecomputation(ledCount: nat, ops: seq<Op>)
    requires Allowed(ops)
    ensures CanMuxRun(ledCount, ops)
    ensures var m := MuxRun(ledCount, ops);
            && (forall p :: p in m.inputs <==> Live(ledCount, ops, p))
            && (forall p | p in m.inputs :: m.inputs[p] == LastInfo(ledCount, ops, p))
            && Live(ledCount, ops, m.current) && (forall p | Live(ledCount, ops, p) :: m.current <= p)
  {
    AllowedRunsAreWellFormed(ledCount, ops);
    StoredIsLive(ledCount, ops);
    assert IsMin(MuxRun(ledCount, ops).current, MuxRun(ledCount, ops).inputs.Keys);
  }

  /** As long as nobody writes to priority 255 the base channel stays black. */
  lemma {:induction false} BaseStaysBlack(ledCount: nat, ops: seq<Op>)
    requires forall op | op in ops :: op.OpSet? ==> op.p != LOWEST_PRIORITY
    ensures CanMuxRun(ledCount, ops)
    ensures LOWEST_PRIORITY in MuxRun(ledCount, ops).inputs
    ensures MuxRun(ledCount, ops).inputs[LOWEST_PRIORITY] == Base(ledCount)
  {
    AllowedRunsAreWellFormed(ledCount, ops);
    if ops != [] {
      assert ops[|ops|-1] in ops && forall op | op in ops[..|ops|-1] :: op in ops;
      BaseStaysBlack(ledCount, ops[..|ops|-1]);
    }
  }

  // ----- which channel is shown -----

  /// The channel to show: the manual source while it exists, else the current priority.
  function Visible(m: Mux, auto: bool, source: int): int {
    if auto || !HasPriority(m, source) then m.current else source
  }

  /** The base channel: black on every led, without an end, below every other. */
  lemma BaseChannel(ledCount: nat)
    ensures Base(ledCount).priority == 255 && Base(ledCount).timeoutTime == -1
    ensures |Base(ledCount).ledColors| == ledCount
    ensures forall i | 0 <= i < ledCount :: Base(ledCount).ledColors[i] == Color(0, 0, 0)
  {}

  /** A time step keeps exactly the channels without an end and those whose end is later, as they are. */
  lemma TimeKeepsExactly(m: Mux, now: int, p: int)
    ensures var r := SetCurrentTimeStep(m, now);
            && (p in r.inputs <==>
                  p in m.inputs && (m.inputs[p].timeoutTime == -1 || now < m.inputs[p].timeoutTime))
            && (p in r.inputs ==> r.inputs[p] == m.inputs[p])
  {}

  /** Looking up the channel to show never fails, even when the manual source has vanished. */
  lemma LookupSucceeds(m: Mux, auto: bool, source: int)
    requires WellFormed(m)
    ensures Visible(m, auto, source) in m.inputs
  {
  }

  predicate StillThere(m: Mux, p: int, now: int) { p in m.inputs && Alive(m.inputs[p], now) }

  /** Exactly when the lookup of an update succeeds, in any state: a manual source that is still there is
      found, a manual source 255 needs the base channel itself, and otherwise some channel up to 255 must
      be left. */
  lemma LookupExactly(m: Mux, auto: bool, source: int, now: int)
    ensures var r := SetCurrentTimeStep(m, now);
            Visible(r, auto, source) in r.inputs <==>
              if !auto && (source == LOWEST_PRIORITY || StillThere(m, source, now)) then StillThere(m, source, now)
              else exists k :: k <= LOWEST_PRIORITY && StillThere(m, k, now)
  {
    var r := SetCurrentTimeStep(m, now);
    CurrentIsStored(m, now);
    if auto || !HasPriority(r, source) {
      assert Visible(r, auto, source) == r.current;
    } else {
      assert Visible(r, auto, source) == source;
    }
  }

  lemma CurrentIsStored(m: Mux, now: int)
    ensures var r := SetCurrentTimeStep(m, now);
            r.current in r.inputs <==> exists k :: k <= LOWEST_PRIORITY && StillThere(m, k, now)
  {
    var r := SetCurrentTimeStep(m, now);
    var keys := r.inputs.Keys + {LOWEST_PRIORITY};
    assert IsMin(r.current, keys) && LOWEST_PRIORITY in keys;
    if r.current in r.inputs {
      assert r.current <= LOWEST_PRIORITY && StillThere(m, r.current, now);
    }
    forall k | k <= LOWEST_PRIORITY && StillThere(m, k, now) ensures r.current in r.inputs {
      assert k in r.inputs && k in keys;
    }
  }

  /// Some channel up to 255 is live.
  ghost predicate SomeLive(ledCount: nat, ops: seq<Op>) { exists k :: k <= LOWEST_PRIORITY && Live(ledCount, ops, k) }

  lemma SomeLiveIsStored(ledCount: nat, ops: seq<Op>)
    requires CanMuxRun(ledCount, ops)
    ensures SomeLive(ledCount, ops) <==> exists k :: k in MuxRun(ledCount, ops).inputs && k <= LOWEST_PRIORITY
  {
    StoredIsLive(ledCount, ops);
    if k :| k in MuxRun(ledCount, ops).inputs && k <= LOWEST_PRIORITY { assert Live(ledCount, ops, k); }
  }

  /** The same over whole runs, whatever was written to priority 255: the lookup of an update succeeds
      exactly when the manual source, if it counts as present, is live, and otherwise when some channel up to
      255 is. */
  lemma LookupInRuns(ledCount: nat, ops: seq<Op>, now: int, auto: bool, source: int)
    requires CanMuxRun(ledCount, ops)
    ensures CanMuxRun(ledCount, ops + [OpTime(now)])
    ensures var r := MuxRun(ledCount, ops + [OpTime(now)]);
            Visible(r, auto, source) in r.inputs <==>
              if !auto && HasPriority(r, source) then Live(ledCount, ops + [OpTime(now)], source)
              else SomeLive(ledCount, ops + [OpTime(now)])
  {
    var timed := ops + [OpTime(now)];
    var m := MuxRun(ledCount, ops);
    assert timed[..|timed|-1] == ops;
    LookupExactly(m, auto, source, now);
    StoredIsLive(ledCount, timed);
    SomeLiveIsStored(ledCount, timed);
    var r := MuxRun(ledCount, timed);
    assert r == SetCurrentTimeStep(m, now);
    assert forall k :: k in r.inputs <==> k in m.inputs && Alive(m.inputs[k], now);
  }

  /** A run that breaks it: the base channel is given an end and nothing else is set. */
  lemma ExpiredBaseBreaksLookup(ledCount: nat, ledColors: Frame, t: int, component: Component, now: int, auto: bool)
    requires t != NO_TIMEOUT && t <= now
    ensures var ops := [OpSet(LOWEST_PRIORITY, ledColors, t, component), OpTime(now)];
            && CanMuxRun(ledCount, ops)
            && var r := MuxRun(ledCount, ops);
               r.inputs == map[] && HasPriority(r, LOWEST_PRIORITY) && Visible(r, auto, LOWEST_PRIORITY) !in r.inputs
  {
    var set255 := OpSet(LOWEST_PRIORITY, ledColors, t, component);
    var ops := [set255, OpTime(now)];
    var first: seq<Op> := [set255];
    assert first[..0] == [] && ops[..1] == first;
    assert CanMuxRun(ledCount, first);
    assert MuxRun(ledCount, first) == SetInputStep(MuxRun(ledCount, []), LOWEST_PRIORITY, ledColors, t, component);
  }

  class PriorityMuxer {
    const lowestPriorityInfo: InputInfo
    var currentPriority: int
    var activeInputs: map<int, InputInfo>

    ghost function Value(): Mux
      reads this
    {
      Mux(currentPriority, activeInputs)
    }

    constructor (ledCount: nat)
      ensures lowestPriorityInfo == Base(ledCount) && Value() == ClearAllStep(Base(ledCount)) && WellFormed(Value())
    {
      lowestPriorityInfo := Base(ledCount);
      currentPriority := LOWEST_PRIORITY;
      activeInputs := map[LOWEST_PRIORITY := Base(ledCount)];
    }

    /// The lookup's error path: no such priority.
    method GetInputInfo(priority: int) returns (found: bool, info: InputInfo)
      ensures found <==> priority in activeInputs
      ensures found ==> info == activeInputs[priority]
    {
      if priority !in activeInputs { return false, lowestPriorityInfo; }
      return true, activeInputs[priority];
    }

    method SetInput(priority: int, ledColors: Frame, timeoutTime: int, component: Component)
      modifies this
      ensures Value() == SetInputStep(old(Value()), priority, ledColors, timeoutTime, component)
    {
      activeInputs := activeInputs[priority := InputInfo(priority, timeoutTime, ledColors, component)];
      currentPriority := Min(currentPriority, priority);
    }

    static method MinElement(keys: set<int>) returns (k: int)
      requires keys != {}
      ensures IsMin(k, keys)
    {
      NonEmpty(keys);
      k :| k in keys;
      var todo := keys;
      while todo != {}
        invariant todo <= keys && k in keys && forall j :: j in keys && j !in todo ==> k <= j
        decreases |todo|
      {
        NonEmpty(todo);
        var j :| j in todo;
        if j < k { k := j; }
        todo := todo - {j};
      }
    }

    method ClearInput(priority: int)
      requires CanClear(Value(), priority)
      modifies this
      ensures Value() == ClearInputStep(old(Value()), priority)
    {
      if priority < LOWEST_PRIORITY {
        activeInputs := activeInputs - {priority};
        if currentPriority == priority {
          currentPriority := MinElement(activeInputs.Keys);
        }
      }
    }

    method ClearAll()
      modifies this
      ensures Value() == ClearAllStep(lowestPriorityInfo)
    {
      activeInputs := map[];
      currentPriority := LOWEST_PRIORITY;
      activeInputs := activeInputs[currentPriority := lowestPriorityInfo];
    }

    /// Erases expired channels while walking over the map, and recomputes the minimum from the rest.
    method SetCurrentTime(now: int)
      requires forall k | k in activeInputs :: activeInputs[k].priority == k
      modifies this
      ensures Value() == SetCurrentTimeStep(old(Value()), now)
    {
      currentPriority := LOWEST_PRIORITY;
      ghost var was := activeInputs;
      var todo := activeInputs.Keys;
      while todo != {}
        invariant todo <= was.Keys
        invariant activeInputs == map k | k in was && (k in todo || Alive(was[k], now)) :: was[k]
        invariant currentPriority <= LOWEST_PRIORITY
        invariant currentPriority == LOWEST_PRIORITY || (currentPriority in was && Alive(was[currentPriority], now))
        invariant forall k | k in was && k !in todo && Alive(was[k], now) :: currentPriority <= k
        decreases |todo|
      {
        NonEmpty(todo);
        var k :| k in todo;
        var info := activeInputs[k];
        if info.timeoutTime != NO_TIMEOUT && info.timeoutTime <= now {
          activeInputs := activeInputs - {k};
        } else {
          currentPriority := Min(currentPriority, info.priority);
        }
        todo := todo - {k};
      }
      assert activeInputs == Unexpired(was, now);
      assert IsMin(currentPriority, Unexpired(was, now).Keys + {LOWEST_PRIORITY});
    }
  }
}
