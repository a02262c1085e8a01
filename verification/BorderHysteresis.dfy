/** The black border state machine: when a newly detected border replaces the current one. */
module BorderHysteresis {

  /// A detected border. All unknown borders count as the same border.
  datatype BlackBorder = BlackBorder(unknown: bool, horizontalSize: int, verticalSize: int)

  predicate Same(a: BlackBorder, b: BlackBorder) {
    if a.unknown then b.unknown
    else !b.unknown && a.horizontalSize == b.horizontalSize && a.verticalSize == b.verticalSize
  }

  datatype Config = Config(unknownSwitchCnt: nat, borderSwitchCnt: nat, maxInconsistentCnt: nat)

  datatype State = State(current: BlackBorder, previous: BlackBorder, consistentCnt: nat, inconsistentCnt: nat)

  const INITIAL := State(BlackBorder(true, -1, -1), BlackBorder(true, -1, -1), 0, 10)

  /// How many confirmations a border needs before it replaces a known one.
  function Threshold(cfg: Config, b: BlackBorder): nat {
    if b.unknown then cfg.unknownSwitchCnt else cfg.borderSwitchCnt
  }

  function UpdateBorder(cfg: Config, s: State, b: BlackBorder): (State, bool) {
    if !Same(b, s.previous) && s.inconsistentCnt + 1 <= cfg.maxInconsistentCnt then
      (s.(inconsistentCnt := s.inconsistentCnt + 1), false)
    else
      var t := if Same(b, s.previous) then s.(consistentCnt := s.consistentCnt + 1, inconsistentCnt := 0)
               else s.(inconsistentCnt := s.inconsistentCnt + 1, previous := b, consistentCnt := 0);
      if Same(t.current, b) then (t.(inconsistentCnt := 0), false)
      else if (!b.unknown && t.current.unknown) || t.consistentCnt == Threshold(cfg, b) then (t.(current := b), true)
      else (t, false)
  }

  /// A frame either goes through updateBorder or, while detection is off, resets the border.
  datatype Event = Frame(border: BlackBorder) | Disabled

  function Step(cfg: Config, s: State, e: Event): State {
    match e
    case Frame(b) => UpdateBorder(cfg, s, b).0
    case Disabled => s.(current := BlackBorder(true, 0, 0))
  }

  function Run(cfg: Config, s: State, es: seq<Event>): State {
    if es == [] then s else Step(cfg, Run(cfg, s, es[..|es|-1]), es[|es|-1])
  }

  /** updateBorder answers true exactly when the current border changes, and then to the border of
      this very frame. */
  lemma ChangedIffDifferent(cfg: Config, s: State, b: BlackBorder)
    ensures var (t, changed) := UpdateBorder(cfg, s, b);
            && (changed <==> !Same(s.current, t.current))
            && (changed ==> t.current == b)
  {
  }

  // ----- the equality tests are never skipped -----

  ghost predicate Timely(cfg: Config, s: State) {
    s.current.unknown || Same(s.current, s.previous) || s.consistentCnt < Threshold(cfg, s.previous)
  }

  /** In every reachable state the counter is still below its threshold unless nothing is pending. */
  lemma {:induction false} ReachableIsTimely(cfg: Config, es: seq<Event>)
    ensures Timely(cfg, Run(cfg, INITIAL, es))
  {
    if es != [] { ReachableIsTimely(cfg, es[..|es|-1]); }
  }

  /// How many more frames showing b are enough to make it current.
  function Need(cfg: Config, s: State, b: BlackBorder): int {
    if Same(s.current, b) then 0
    else if Same(b, s.previous) then (if s.current.unknown then 1 else Threshold(cfg, b) - s.consistentCnt)
    else (if s.inconsistentCnt < cfg.maxInconsistentCnt then cfg.maxInconsistentCnt - s.inconsistentCnt else 0)
         + 1 + Threshold(cfg, b)
  }

  lemma NeedDecreases(cfg: Config, s: State, b: BlackBorder, f: BlackBorder)
    requires Timely(cfg, s) && Same(f, b)
    ensures var t := UpdateBorder(cfg, s, f).0;
            Timely(cfg, t) && (Need(cfg, t, b) == 0 || Need(cfg, t, b) < Need(cfg, s, b))
            && (Same(s.current, b) ==> Same(t.current, b))
  {
  }

  function RunFrames(cfg: Config, s: State, frames: seq<BlackBorder>): State
    decreases |frames|
  {
    if frames == [] then s else RunFrames(cfg, UpdateBorder(cfg, s, frames[0]).0, frames[1..])
  }

  lemma {:induction false} SettlesWithin(cfg: Config, s: State, b: BlackBorder, frames: seq<BlackBorder>)
    requires Timely(cfg, s) && forall f | f in frames :: Same(f, b)
    requires Need(cfg, s, b) <= |frames|
    ensures Same(RunFrames(cfg, s, frames).current, b)
    decreases |frames|
  {
    if frames != [] {
      assert frames[0] in frames && forall f | f in frames[1..] :: f in frames;
      NeedDecreases(cfg, s, b, frames[0]);
      SettlesWithin(cfg, UpdateBorder(cfg, s, frames[0]).0, b, frames[1..]);
    }
  }

  /** Settling bound: after any history, detection switched off and on in between or not,
      maxInconsistentCnt + 1 + threshold consecutive frames showing b make b the current border. */
  lemma SettlingBound(cfg: Config, es: seq<Event>, b: BlackBorder, frames: seq<BlackBorder>)
    requires forall f | f in frames :: Same(f, b)
    requires |frames| >= cfg.maxInconsistentCnt + 1 + Threshold(cfg, b)
    ensures Same(RunFrames(cfg, Run(cfg, INITIAL, es), frames).current, b)
  {
    ReachableIsTimely(cfg, es);
    SettlesWithin(cfg, Run(cfg, INITIAL, es), b, frames);
  }

  /** The settling bound in the fields themselves: an unknown border settles on unknown, a known one on exactly
      its two sizes, each after its own number of frames. */
  lemma SettlesOnFields(cfg: Config, es: seq<Event>, b: BlackBorder, frames: seq<BlackBorder>)
    requires forall f | f in frames ::
      f.unknown == b.unknown
      && (!b.unknown ==> f.horizontalSize == b.horizontalSize && f.verticalSize == b.verticalSize)
    requires |frames| >= cfg.maxInconsistentCnt + 1 + (if b.unknown then cfg.unknownSwitchCnt else cfg.borderSwitchCnt)
    ensures var c := RunFrames(cfg, Run(cfg, INITIAL, es), frames).current;
            && c.unknown == b.unknown
            && (!b.unknown ==> c.horizontalSize == b.horizontalSize && c.verticalSize == b.verticalSize)
  {
    SettlingBound(cfg, es, b, frames);
  }

  /** No sooner: while fewer frames than that have shown another border, a settled known border stays. */
  lemma StaysOnFields(cfg: Config, s: State, b: BlackBorder, frames: seq<BlackBorder>)
    requires !s.current.unknown && s.previous == s.current && s.inconsistentCnt == 0
    requires b.unknown || b.horizontalSize != s.current.horizontalSize || b.verticalSize != s.current.verticalSize
    requires forall f | f in frames :: f == b
    requires |frames| < cfg.maxInconsistentCnt + 1 + (if b.unknown then cfg.unknownSwitchCnt else cfg.borderSwitchCnt)
    ensures RunFrames(cfg, s, frames).current == s.current
  {
    SettlingBoundIsTight(cfg, s, b, frames);
  }

  /** At the start the first frame with a known border is taken at once if at most ten inconsistent frames are
      allowed; else it has to wait. */
  lemma FirstFrameExactly(cfg: Config, b: BlackBorder)
    requires !b.unknown
    ensures UpdateBorder(cfg, INITIAL, b).0.current == (if cfg.maxInconsistentCnt <= 10 then b else INITIAL.current)
    ensures INITIAL.current.unknown
  {}

  /** Switching the detection off forgets the current border and nothing else: the candidate's next frame
      makes it current again. */
  lemma DisablingForgets(cfg: Config, s: State)
    ensures var r := Step(cfg, s, Disabled);
            && r.current.unknown && r.previous == s.previous
            && r.consistentCnt == s.consistentCnt && r.inconsistentCnt == s.inconsistentCnt
            && (!s.previous.unknown ==> UpdateBorder(cfg, r, s.previous) == (UpdateBorder(cfg, r, s.previous).0, true)
                                        && UpdateBorder(cfg, r, s.previous).0.current == s.previous)
  {}

  /** The bound is exact: from a settled known border one frame less leaves that border in place. */
  lemma {:induction false} SettlingBoundIsTight(cfg: Config, s: State, b: BlackBorder, frames: seq<BlackBorder>)
    requires !s.current.unknown && !Same(s.current, b)
    requires (Same(s.current, s.previous) && s.inconsistentCnt <= cfg.maxInconsistentCnt
                && |frames| < cfg.maxInconsistentCnt - s.inconsistentCnt + 1 + Threshold(cfg, b))
          || (Same(s.previous, b) && |frames| < Threshold(cfg, b) - s.consistentCnt)
    requires forall f | f in frames :: Same(f, b)
    ensures RunFrames(cfg, s, frames).current == s.current
    decreases |frames|
  {
    if frames != [] {
      assert frames[0] in frames && forall f | f in frames[1..] :: f in frames;
      SettlingBoundIsTight(cfg, UpdateBorder(cfg, s, frames[0]).0, b, frames[1..]);
    }
  }

  lemma {:induction false} Returns(cfg: Config, s: State, frames: seq<BlackBorder>)
    requires forall f | f in frames :: Same(f, s.current)
    requires |frames| >= if Same(s.previous, s.current) || s.inconsistentCnt >= cfg.maxInconsistentCnt then 1
                         else cfg.maxInconsistentCnt - s.inconsistentCnt + 1
    ensures var r := RunFrames(cfg, s, frames);
            r.current == s.current && Same(r.previous, s.current) && r.inconsistentCnt == 0
    decreases |frames|
  {
    assert frames[0] in frames && forall f | f in frames[1..] :: f in frames;
    var t := UpdateBorder(cfg, s, frames[0]).0;
    if |frames| == 1 {
      assert RunFrames(cfg, t, frames[1..]) == t;
    } else {
      Returns(cfg, t, frames[1..]);
    }
  }

  /** An interruption that came to nothing is forgotten: after maxInconsistentCnt + 1 frames that show the current
      border again, whatever was pending before, another border needs its full number of frames. */
  lemma InterruptionIsForgotten(cfg: Config, s: State, frames: seq<BlackBorder>, b: BlackBorder,
                                others: seq<BlackBorder>)
    requires !s.current.unknown && (forall f | f in frames :: Same(f, s.current))
    requires |frames| == cfg.maxInconsistentCnt + 1
    requires !Same(s.current, b) && (forall f | f in others :: Same(f, b))
    requires |others| < cfg.maxInconsistentCnt + 1 + Threshold(cfg, b)
    ensures RunFrames(cfg, RunFrames(cfg, s, frames), others).current == s.current
  {
    Returns(cfg, s, frames);
    SettlingBoundIsTight(cfg, RunFrames(cfg, s, frames), b, others);
  }

  // ----- the evidence behind a switch -----

  function Count(w: seq<Event>, b: BlackBorder): nat {
    if w == [] then 0
    else Count(w[..|w|-1], b) + (if w[|w|-1].Frame? && Same(w[|w|-1].border, b) then 1 else 0)
  }

  /// The number of frames at the end of w that differ from b.
  function Trailing(w: seq<Event>, b: BlackBorder): nat {
    if w == [] || (w[|w|-1].Frame? && Same(w[|w|-1].border, b)) then 0 else 1 + Trailing(w[..|w|-1], b)
  }

  ghost predicate NoLongGap(w: seq<Event>, b: BlackBorder, max: nat) {
    w == [] || (NoLongGap(w[..|w|-1], b, max) && Trailing(w, b) <= max)
  }

  lemma {:induction false} TrailingAtLeast(w: seq<Event>, b: BlackBorder, i: nat)
    requires i <= |w| && forall k | i <= k < |w| :: w[k].Frame? && !Same(w[k].border, b)
    ensures Trailing(w, b) >= |w| - i
    decreases |w|
  {
    if i < |w| { TrailingAtLeast(w[..|w|-1], b, i); }
  }

  /** What NoLongGap says in terms of positions: no more than max frames in a row differ from b. */
  lemma {:induction false} NoLongGapMeaning(w: seq<Event>, b: BlackBorder, max: nat, i: nat, j: nat)
    requires NoLongGap(w, b, max) && i <= j <= |w|
    requires forall k | i <= k < j :: w[k].Frame? && !Same(w[k].border, b)
    ensures j - i <= max
    decreases |w|
  {
    if j < |w| {
      NoLongGapMeaning(w[..|w|-1], b, max, i, j);
    } else if i < j {
      TrailingAtLeast(w, b, i);
    }
  }

  /// b is the candidate, the last frame showed it, and it has been confirmed at least once.
  ghost predicate Steady(cfg: Config, s: State, b: BlackBorder) {
    && Timely(cfg, s) && Same(s.previous, b) && s.inconsistentCnt == 0 && s.consistentCnt > 0
    && (s.current.unknown ==> b.unknown)
  }

  lemma {:induction false} BecomesSteady(cfg: Config, s: State, b: BlackBorder, frames: seq<BlackBorder>)
    requires Timely(cfg, s) && forall f | f in frames :: Same(f, b)
    requires |frames| >= if Same(s.previous, b) then 1
                         else if s.inconsistentCnt >= cfg.maxInconsistentCnt then 2
                         else cfg.maxInconsistentCnt - s.inconsistentCnt + 2
    ensures Steady(cfg, RunFrames(cfg, s, frames), b)
    decreases |frames|
  {
    assert frames[0] in frames && forall f | f in frames[1..] :: f in frames;
    NeedDecreases(cfg, s, b, frames[0]);
    var t := UpdateBorder(cfg, s, frames[0]).0;
    if Steady(cfg, t, b) && |frames| == 1 {
      assert RunFrames(cfg, t, frames[1..]) == t;
    } else {
      BecomesSteady(cfg, t, b, frames[1..]);
    }
  }

  lemma {:induction false} GapsAreTolerated(cfg: Config, s: State, b: BlackBorder, w: seq<Event>)
    requires Steady(cfg, s, b) && (forall i | 0 <= i < |w| :: w[i].Frame?)
    requires NoLongGap(w, b, cfg.maxInconsistentCnt)
    ensures var r := Run(cfg, s, w);
            && Timely(cfg, r) && Same(r.previous, b) && r.inconsistentCnt <= Trailing(w, b)
            && (r.current.unknown ==> b.unknown) && (Same(s.current, b) ==> Same(r.current, b))
            && r.consistentCnt == s.consistentCnt + Count(w, b)
    decreases |w|
  {
    if w != [] { GapsAreTolerated(cfg, s, b, w[..|w|-1]); }
  }

  /** The counterpart of the evidence: once b has been seen often enough to be the steady candidate, other frames
      in between do no harm, however many they are, as long as there are never more than maxInconsistentCnt in a
      row. As many frames showing b as the settling bound asks for make it current. */
  lemma SettlesDespiteGaps(cfg: Config, es: seq<Event>, b: BlackBorder, first: seq<BlackBorder>, w: seq<Event>)
    requires |first| == cfg.maxInconsistentCnt + 2 && forall f | f in first :: Same(f, b)
    requires (forall i | 0 <= i < |w| :: w[i].Frame?) && NoLongGap(w, b, cfg.maxInconsistentCnt)
    requires Count(w, b) + 1 >= Threshold(cfg, b)
    ensures Same(Run(cfg, RunFrames(cfg, Run(cfg, INITIAL, es), first), w).current, b)
  {
    ReachableIsTimely(cfg, es);
    BecomesSteady(cfg, Run(cfg, INITIAL, es), b, first);
    GapsAreTolerated(cfg, RunFrames(cfg, Run(cfg, INITIAL, es), first), b, w);
  }

  /// At position j the border b became candidate, and it has stayed so: the frame there replaced another one.
  ghost predicate BecameCandidate(cfg: Config, es: seq<Event>, j: nat, b: BlackBorder) {
    && j < |es| && es[j].Frame? && Same(es[j].border, b)
    && !Same(Run(cfg, INITIAL, es[..j]).previous, b)
    && forall i | j < i <= |es| :: Run(cfg, INITIAL, es[..i]).previous == es[j].border
  }

  /// The frames since position j are those since the pending border became candidate.
  ghost predicate Candidate(cfg: Config, es: seq<Event>, j: nat, s: State) {
    && BecameCandidate(cfg, es, j, s.previous)
    && (forall i | j <= i < |es| :: es[i].Frame?)
    && Count(es[j..], s.previous) == s.consistentCnt + 1
    && NoLongGap(es[j..], s.previous, cfg.maxInconsistentCnt)
    && Trailing(es[j..], s.previous) <= s.inconsistentCnt
  }

  ghost predicate Evidence(cfg: Config, es: seq<Event>, s: State) {
    s.current.unknown || Same(s.current, s.previous) || exists j :: Candidate(cfg, es, j, s)
  }

  lemma CandidateGrows(cfg: Config, es: seq<Event>, j: nat, s: State, e: Event)
    requires Candidate(cfg, es, j, s) && e.Frame?
    requires Same(e.border, s.previous) || s.inconsistentCnt + 1 <= cfg.maxInconsistentCnt
    ensures Count((es + [e])[j..], s.previous) == s.consistentCnt + (if Same(e.border, s.previous) then 2 else 1)
    ensures NoLongGap((es + [e])[j..], s.previous, cfg.maxInconsistentCnt)
    ensures Trailing((es + [e])[j..], s.previous) <= (if Same(e.border, s.previous) then 0 else s.inconsistentCnt + 1)
  {
    var w := (es + [e])[j..];
    assert w[..|w|-1] == es[j..];
  }

  lemma CandidateStarts(cfg: Config, es: seq<Event>, e: Event)
    requires e.Frame?
    ensures var w := (es + [e])[|es|..];
            Count(w, e.border) == 1 && NoLongGap(w, e.border, cfg.maxInconsistentCnt) && Trailing(w, e.border) == 0
  {
    var w := (es + [e])[|es|..];
    assert w == [e] && w[..0] == [];
    assert NoLongGap(w[..0], e.border, cfg.maxInconsistentCnt) && Trailing(w, e.border) == 0;
  }

  lemma RunSnoc(cfg: Config, es: seq<Event>, e: Event)
    ensures Run(cfg, INITIAL, es + [e]) == Step(cfg, Run(cfg, INITIAL, es), e)
    ensures forall i: nat | i <= |es| :: Run(cfg, INITIAL, (es + [e])[..i]) == Run(cfg, INITIAL, es[..i])
  {
    assert (es + [e])[..|es|] == es;
    forall i: nat | i <= |es| ensures Run(cfg, INITIAL, (es + [e])[..i]) == Run(cfg, INITIAL, es[..i]) {
      assert (es + [e])[..i] == es[..i];
    }
  }

  lemma CandidateStays(cfg: Config, es: seq<Event>, j: nat, b: BlackBorder, e: Event)
    requires BecameCandidate(cfg, es, j, b)
    requires Run(cfg, INITIAL, es + [e]).previous == Run(cfg, INITIAL, es).previous
    ensures BecameCandidate(cfg, es + [e], j, b)
  {
    RunSnoc(cfg, es, e);
    assert es[..|es|] == es && (es + [e])[..|es| + 1] == es + [e];
  }

  lemma CandidateAppears(cfg: Config, es: seq<Event>, e: Event)
    requires e.Frame? && !Same(e.border, Run(cfg, INITIAL, es).previous)
    requires Run(cfg, INITIAL, es + [e]).previous == e.border
    ensures BecameCandidate(cfg, es + [e], |es|, e.border)
  {
    assert (es + [e])[..|es|] == es && (es + [e])[..|es| + 1] == es + [e];
  }

  lemma EvidenceStep(cfg: Config, es: seq<Event>, s: State, e: Event)
    requires s == Run(cfg, INITIAL, es) && Evidence(cfg, es, s)
    ensures Evidence(cfg, es + [e], Step(cfg, s, e))
  {
    var t := Step(cfg, s, e);
    RunSnoc(cfg, es, e);
    if e.Frame? && !t.current.unknown && !Same(t.current, t.previous) {
      if Same(e.border, s.previous) || s.inconsistentCnt + 1 <= cfg.maxInconsistentCnt {
        var j: nat :| Candidate(cfg, es, j, s);
        CandidateGrows(cfg, es, j, s, e);
        CandidateStays(cfg, es, j, s.previous, e);
        assert Candidate(cfg, es + [e], j, t);
      } else {
        CandidateStarts(cfg, es, e);
        CandidateAppears(cfg, es, e);
        assert Candidate(cfg, es + [e], |es|, t);
      }
    }
  }

  lemma {:induction false} ReachableHasEvidence(cfg: Config, es: seq<Event>)
    ensures Evidence(cfg, es, Run(cfg, INITIAL, es))
  {
    if es != [] {
      var n := |es| - 1;
      ReachableHasEvidence(cfg, es[..n]);
      EvidenceStep(cfg, es[..n], Run(cfg, INITIAL, es[..n]), es[n]);
      assert es[..n] + [es[n]] == es;
    }
  }

  ghost predicate SwitchWindow(cfg: Config, w: seq<Event>, b: BlackBorder) {
    && w != []
    && (forall i | 0 <= i < |w| :: w[i].Frame?)
    && Same(w[0].border, b)
    && Count(w, b) == Threshold(cfg, b) + 1
    && NoLongGap(w, b, cfg.maxInconsistentCnt)
  }

  /** Switch evidence: when a known current border gives way to b, b replaced another candidate at some
      position j and has been the candidate ever since; the frames from j on are uninterrupted by a reset,
      start with b, contain b exactly threshold + 1 times, and never differ from b more than
      maxInconsistentCnt times in a row. */
  lemma SwitchEvidence(cfg: Config, es: seq<Event>, b: BlackBorder)
    requires var s := Run(cfg, INITIAL, es);
             !s.current.unknown && !Same(s.current, UpdateBorder(cfg, s, b).0.current)
    ensures UpdateBorder(cfg, Run(cfg, INITIAL, es), b).0.current == b
    ensures exists j :: 0 <= j <= |es| && BecameCandidate(cfg, es + [Frame(b)], j, b)
                        && SwitchWindow(cfg, (es + [Frame(b)])[j..], b)
  {
    ReachableHasEvidence(cfg, es);
    var s := Run(cfg, INITIAL, es);
    var e := Frame(b);
    RunSnoc(cfg, es, e);
    if Same(b, s.previous) {
      var j: nat :| Candidate(cfg, es, j, s);
      CandidateGrows(cfg, es, j, s, e);
      CandidateStays(cfg, es, j, s.previous, e);
      var w := (es + [e])[j..];
      SameCounts(w, s.previous, b, cfg.maxInconsistentCnt);
      assert SwitchWindow(cfg, w, b);
    } else {
      CandidateStarts(cfg, es, e);
      CandidateAppears(cfg, es, e);
      assert SwitchWindow(cfg, (es + [e])[|es|..], b);
    }
  }

  /** Equal borders are interchangeable in the window measures. */
  lemma {:induction false} SameCounts(w: seq<Event>, a: BlackBorder, b: BlackBorder, max: nat)
    requires Same(a, b)
    ensures Count(w, a) == Count(w, b) && Trailing(w, a) == Trailing(w, b)
    ensures NoLongGap(w, a, max) <==> NoLongGap(w, b, max)
    decreases |w|
  {
    if w != [] { SameCounts(w[..|w|-1], a, b, max); }
  }
}
