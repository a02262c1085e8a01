/** From channel colours to the device frame: cloned leds are inserted at their own positions and
    every led gets its byte order. */
module CloneMerge {
  import opened Colors

  datatype ColorOrder = RGB | RBG | GRB | BRG | GBR | BGR

  datatype MainLed = MainLed(index: nat, order: ColorOrder)
  datatype CloneLed = CloneLed(index: nat, target: nat, order: ColorOrder)

  /// Both led strings are sorted by index, share no index, and cover 0..n-1 together.
  ghost predicate Layout(mains: seq<MainLed>, clones: seq<CloneLed>) {
    var n := |mains| + |clones|;
    && (forall i, j | 0 <= i < j < |mains| :: mains[i].index < mains[j].index)
    && (forall i, j | 0 <= i < j < |clones| :: clones[i].index < clones[j].index)
    && (forall i, j | 0 <= i < |mains| && 0 <= j < |clones| :: mains[i].index != clones[j].index)
    && (forall v | 0 <= v < n :: IsMain(mains, v) || IsClone(clones, v))
  }

  ghost predicate IsMain(mains: seq<MainLed>, v: int) { exists i :: 0 <= i < |mains| && mains[i].index == v }
  ghost predicate IsClone(clones: seq<CloneLed>, v: int) { exists i :: 0 <= i < |clones| && clones[i].index == v }

  /// a of the mains and b of the clones have an index below v.
  ghost predicate Below(mains: seq<MainLed>, clones: seq<CloneLed>, v: int, a: nat, b: nat) {
    && a + b == v && a <= |mains| && b <= |clones|
    && (forall i | 0 <= i < |mains| :: mains[i].index < v <==> i < a)
    && (forall i | 0 <= i < |clones| :: clones[i].index < v <==> i < b)
  }

  lemma {:induction false} CountBelow(mains: seq<MainLed>, clones: seq<CloneLed>, v: nat) returns (a: nat, b: nat)
    requires Layout(mains, clones) && v <= |mains| + |clones|
    ensures Below(mains, clones, v, a, b)
  {
    if v == 0 {
      a, b := 0, 0;
    } else {
      a, b := CountBelow(mains, clones, v - 1);
      assert IsMain(mains, v - 1) || IsClone(clones, v - 1);
      if IsMain(mains, v - 1) {
        var i :| 0 <= i < |mains| && mains[i].index == v - 1;
        assert a < |mains| && mains[a].index >= v - 1 && i == a;
        a := a + 1;
      } else {
        var i :| 0 <= i < |clones| && clones[i].index == v - 1;
        assert b < |clones| && clones[b].index >= v - 1 && i == b;
        b := b + 1;
      }
    }
  }

  /** The indices stay below the led count. */
  lemma IndicesBelowCount(mains: seq<MainLed>, clones: seq<CloneLed>)
    requires Layout(mains, clones)
    ensures forall i | 0 <= i < |mains| :: mains[i].index < |mains| + |clones|
    ensures forall i | 0 <= i < |clones| :: clones[i].index < |mains| + |clones|
  {
    var a, b := CountBelow(mains, clones, |mains| + |clones|);
  }

  /** How many clones precede a main led, and how many mains precede a clone. */
  lemma Ranks(mains: seq<MainLed>, clones: seq<CloneLed>)
    requires Layout(mains, clones)
    ensures forall j | 0 <= j < |mains| :: 0 <= mains[j].index - j <= |clones|
    ensures forall j, k | 0 <= j < |mains| && 0 <= k < |clones| ::
      clones[k].index < mains[j].index <==> k < mains[j].index - j
    ensures forall k | 0 <= k < |clones| :: 0 <= clones[k].index - k <= |mains|
    ensures forall j, k | 0 <= j < |mains| && 0 <= k < |clones| ::
      mains[j].index < clones[k].index <==> j < clones[k].index - k
  {
    IndicesBelowCount(mains, clones);
    forall j | 0 <= j < |mains|
      ensures 0 <= mains[j].index - j <= |clones|
      ensures forall k | 0 <= k < |clones| :: clones[k].index < mains[j].index <==> k < mains[j].index - j
    {
      var a, b := CountBelow(mains, clones, mains[j].index);
      assert a < |mains| && mains[a].index >= mains[j].index && a == j;
    }
    forall k | 0 <= k < |clones|
      ensures 0 <= clones[k].index - k <= |mains|
      ensures forall j | 0 <= j < |mains| :: mains[j].index < clones[k].index <==> j < clones[k].index - k
    {
      var a, b := CountBelow(mains, clones, clones[k].index);
      assert b < |clones| && clones[b].index >= clones[k].index && b == k;
    }
  }

  function InsertAt<T>(s: seq<T>, i: nat, x: T): seq<T>
    requires i <= |s|
  {
    s[..i] + [x] + s[i..]
  }

  /// Where main j stands after k insertions.
  function Position(mains: seq<MainLed>, j: nat, k: nat): int
    requires j < |mains|
  {
    j + Min(k, mains[j].index - j)
  }

  /// After k insertions every main value is at its interim position.
  ghost predicate MainsPlaced<T>(buffer: seq<T>, values: seq<T>, mains: seq<MainLed>, k: nat) {
    && |values| == |mains| && |buffer| == |mains| + k
    && forall j | 0 <= j < |mains| ::
         0 <= Position(mains, j, k) < |buffer| && buffer[Position(mains, j, k)] == values[j]
  }

  /** Inserting at the next clone's index is in range, moves every main value to its next position and
      changes nothing below that index. */
  lemma InsertStep<T>(buffer: seq<T>, values: seq<T>, mains: seq<MainLed>, clones: seq<CloneLed>, k: nat, x: T)
    requires Layout(mains, clones) && k < |clones| && MainsPlaced(buffer, values, mains, k)
    ensures clones[k].index <= |buffer|
    ensures var r := InsertAt(buffer, clones[k].index, x);
            && MainsPlaced(r, values, mains, k + 1) && r[clones[k].index] == x
            && forall p | 0 <= p < clones[k].index :: r[p] == buffer[p]
  {
    Ranks(mains, clones);
    var c := clones[k].index;
    var r := InsertAt(buffer, c, x);
    forall j | 0 <= j < |mains|
      ensures 0 <= Position(mains, j, k + 1) < |r| && r[Position(mains, j, k + 1)] == values[j]
    {
      if mains[j].index < c {
        assert mains[j].index - j <= k;
        assert Position(mains, j, k) == mains[j].index == Position(mains, j, k + 1);
      } else {
        assert Position(mains, j, k) == j + k >= c && Position(mains, j, k + 1) == j + k + 1;
        assert r[j + k + 1] == buffer[j + k];
      }
    }
  }

  lemma AllPlaced<T>(buffer: seq<T>, values: seq<T>, mains: seq<MainLed>, clones: seq<CloneLed>)
    requires Layout(mains, clones) && MainsPlaced(buffer, values, mains, |clones|)
    ensures forall j | 0 <= j < |mains| :: mains[j].index < |buffer| && buffer[mains[j].index] == values[j]
  {
    Ranks(mains, clones);
    forall j | 0 <= j < |mains| ensures mains[j].index < |buffer| && buffer[mains[j].index] == values[j] {
      assert Position(mains, j, |clones|) == mains[j].index;
    }
  }

  // ----- the merge as a function -----

  /// Every insertion position exists.
  predicate IndicesFit(mainCount: nat, clones: seq<CloneLed>) {
    forall k | 0 <= k < |clones| :: clones[k].index <= mainCount + k
  }

  /// Every clone's target is a position that exists when the clone is inserted; else the source's checked
  /// access throws.
  predicate InRange(mainCount: nat, clones: seq<CloneLed>) {
    forall k | 0 <= k < |clones| :: clones[k].target < mainCount + k
  }

  /// The colours after all insertions, each clone copying what stands at its target's position.
  function MergedColors(colors: Frame, clones: seq<CloneLed>): (r: Frame)
    requires IndicesFit(|colors|, clones) && InRange(|colors|, clones)
    ensures |r| == |colors| + |clones|
  {
    if clones == [] then colors else
      var k := |clones| - 1;
      var buffer := MergedColors(colors, clones[..k]);
      InsertAt(buffer, clones[k].index, buffer[clones[k].target])
  }

  /// The same for values that each clone brings itself.
  function MergedValues<T>(values: seq<T>, clones: seq<CloneLed>, given: seq<T>): (r: seq<T>)
    requires IndicesFit(|values|, clones) && |given| == |clones|
    ensures |r| == |values| + |clones|
  {
    if clones == [] then values else
      var k := |clones| - 1;
      InsertAt(MergedValues(values, clones[..k], given[..k]), clones[k].index, given[k])
  }

  function MainOrders(mains: seq<MainLed>): seq<ColorOrder> {
    seq(|mains|, j requires 0 <= j < |mains| => mains[j].order)
  }

  function CloneOrders(clones: seq<CloneLed>): seq<ColorOrder> {
    seq(|clones|, k requires 0 <= k < |clones| => clones[k].order)
  }

  function MergedOrders(mains: seq<MainLed>, clones: seq<CloneLed>): seq<ColorOrder>
    requires IndicesFit(|mains|, clones)
  {
    MergedValues(MainOrders(mains), clones, CloneOrders(clones))
  }

  /** The insertion loop goes through exactly if all targets are in range. */
  method InsertClones(colors: Frame, clones: seq<CloneLed>) returns (ok: bool, ledBuffer: Frame)
    requires IndicesFit(|colors|, clones)
    ensures ok <==> InRange(|colors|, clones)
    ensures ok ==> ledBuffer == MergedColors(colors, clones)
  {
    ledBuffer := colors;
    for k := 0 to |clones|
      invariant InRange(|colors|, clones[..k]) && ledBuffer == MergedColors(colors, clones[..k])
    {
      var led := clones[k];
      if led.target >= |ledBuffer| { return false, ledBuffer; }
      ledBuffer := InsertAt(ledBuffer, led.index, ledBuffer[led.target]);
      assert clones[..k + 1][..k] == clones[..k];
    }
    assert clones[..|clones|] == clones;
    ok := true;
  }

  /** The colour orders are merged the same way. */
  method MergeOrders(mains: seq<MainLed>, clones: seq<CloneLed>) returns (orders: seq<ColorOrder>)
    requires IndicesFit(|mains|, clones)
    ensures orders == MergedOrders(mains, clones)
  {
    orders := [];
    for i := 0 to |mains|
      invariant |orders| == i && forall j | 0 <= j < i :: orders[j] == mains[j].order
    {
      orders := orders + [mains[i].order];
    }
    ghost var given := CloneOrders(clones);
    assert orders == MainOrders(mains);
    for k := 0 to |clones|
      invariant IndicesFit(|mains|, clones[..k])
      invariant orders == MergedValues(MainOrders(mains), clones[..k], given[..k])
    {
      orders := InsertAt(orders, clones[k].index, clones[k].order);
      assert clones[..k + 1][..k] == clones[..k] && given[..k + 1][..k] == given[..k];
    }
    assert clones[..|clones|] == clones && given[..|clones|] == given;
  }

  // ----- what the merge does -----

  /// What clone k got: the slot of a smaller target, or else the main led that stood at the target's position
  /// when the clone was inserted.
  ghost predicate CloneFilled(buffer: Frame, colors: Frame, mains: seq<MainLed>, clones: seq<CloneLed>, k: nat)
    requires k < |clones|
  {
    var c := clones[k];
    c.index < |buffer| &&
    if c.target < c.index then buffer[c.index] == buffer[c.target]
    else k <= c.target < |colors| + k && buffer[c.index] == colors[c.target - k]
  }

  /** Behind the next clone's index the mains still stand in their own order. */
  lemma MainsBehind(buffer: Frame, colors: Frame, mains: seq<MainLed>, clones: seq<CloneLed>, k: nat, t: nat)
    requires Layout(mains, clones) && k < |clones| && MainsPlaced(buffer, colors, mains, k)
    requires clones[k].index <= t < |mains| + k
    ensures k <= t && buffer[t] == colors[t - k]
  {
    Ranks(mains, clones);
    assert mains[t - k].index >= clones[k].index;
    assert Position(mains, t - k, k) == t;
  }

  /// The mains are at their positions after k insertions, and the first k clones are filled.
  ghost predicate Merged(buffer: Frame, colors: Frame, mains: seq<MainLed>, clones: seq<CloneLed>, k: nat)
    requires k <= |clones|
  {
    MainsPlaced(buffer, colors, mains, k) && forall t | 0 <= t < k :: CloneFilled(buffer, colors, mains, clones, t)
  }

  /** Inserting clone k fills it and keeps the earlier ones filled. */
  lemma FillStep(buffer: Frame, colors: Frame, mains: seq<MainLed>, clones: seq<CloneLed>, k: nat)
    requires Layout(mains, clones) && k < |clones| && Merged(buffer, colors, mains, clones, k)
    requires clones[k].target < |buffer|
    ensures clones[k].index <= |buffer|
    ensures Merged(InsertAt(buffer, clones[k].index, buffer[clones[k].target]), colors, mains, clones, k + 1)
  {
    var c := clones[k];
    InsertStep(buffer, colors, mains, clones, k, buffer[c.target]);
    var r := InsertAt(buffer, c.index, buffer[c.target]);
    if c.target >= c.index { MainsBehind(buffer, colors, mains, clones, k, c.target); }
    assert CloneFilled(r, colors, mains, clones, k);
    forall t | 0 <= t < k ensures CloneFilled(r, colors, mains, clones, t) {
      assert CloneFilled(buffer, colors, mains, clones, t) && clones[t].index < c.index;
    }
  }

  lemma NothingInserted(colors: Frame, mains: seq<MainLed>, clones: seq<CloneLed>)
    requires Layout(mains, clones) && |colors| == |mains|
    ensures Merged(colors, colors, mains, clones, 0)
  {
    Ranks(mains, clones);
  }

  lemma LayoutFits(mains: seq<MainLed>, clones: seq<CloneLed>)
    requires Layout(mains, clones)
    ensures IndicesFit(|mains|, clones)
  {
    Ranks(mains, clones);
  }

  lemma {:induction false} ColorsMerged(colors: Frame, mains: seq<MainLed>, clones: seq<CloneLed>, k: nat)
    requires Layout(mains, clones) && |colors| == |mains| && InRange(|mains|, clones) && k <= |clones|
    ensures IndicesFit(|mains|, clones)
    ensures Merged(MergedColors(colors, clones[..k]), colors, mains, clones, k)
  {
    LayoutFits(mains, clones);
    if k == 0 {
      NothingInserted(colors, mains, clones);
    } else {
      assert clones[..k][..k - 1] == clones[..k - 1];
      ColorsMerged(colors, mains, clones, k - 1);
      FillStep(MergedColors(colors, clones[..k - 1]), colors, mains, clones, k - 1);
    }
  }

  /** Clone insertion is a correct merge: when the indices are a permutation, each main led's colour ends up
      at its own index, each clone with a smaller target holds what its target's slot holds, and any other
      clone k holds the colour of the main led numbered target - k. */
  lemma ColorsPlaced(colors: Frame, mains: seq<MainLed>, clones: seq<CloneLed>)
    requires Layout(mains, clones) && |colors| == |mains| && InRange(|mains|, clones)
    ensures IndicesFit(|mains|, clones)
    ensures var r := MergedColors(colors, clones);
            && (forall j | 0 <= j < |mains| :: mains[j].index < |r| && r[mains[j].index] == colors[j])
            && (forall k | 0 <= k < |clones| :: CloneFilled(r, colors, mains, clones, k))
  {
    ColorsMerged(colors, mains, clones, |clones|);
    assert clones[..|clones|] == clones;
    AllPlaced(MergedColors(colors, clones), colors, mains, clones);
  }

  lemma {:induction false} ValuesMerged<T>(values: seq<T>, mains: seq<MainLed>, clones: seq<CloneLed>,
                                           given: seq<T>, k: nat)
    requires Layout(mains, clones) && |values| == |mains| && |given| == |clones| && k <= |clones|
    ensures IndicesFit(|mains|, clones)
    ensures var r := MergedValues(values, clones[..k], given[..k]);
            && MainsPlaced(r, values, mains, k)
            && forall t | 0 <= t < k :: clones[t].index < |r| && r[clones[t].index] == given[t]
  {
    LayoutFits(mains, clones);
    if k == 0 {
      Ranks(mains, clones);
    } else {
      assert clones[..k][..k - 1] == clones[..k - 1] && given[..k][..k - 1] == given[..k - 1];
      ValuesMerged(values, mains, clones, given, k - 1);
      InsertStep(MergedValues(values, clones[..k - 1], given[..k - 1]), values, mains, clones, k - 1, given[k - 1]);
    }
  }

  /** Values that belong to the leds line up with them position by position. */
  lemma ValuesPlaced<T>(values: seq<T>, mains: seq<MainLed>, clones: seq<CloneLed>, given: seq<T>)
    requires Layout(mains, clones) && |values| == |mains| && |given| == |clones|
    ensures IndicesFit(|mains|, clones)
    ensures var r := MergedValues(values, clones, given);
            && (forall j | 0 <= j < |mains| :: mains[j].index < |r| && r[mains[j].index] == values[j])
            && (forall k | 0 <= k < |clones| :: clones[k].index < |r| && r[clones[k].index] == given[k])
  {
    ValuesMerged(values, mains, clones, given, |clones|);
    assert clones[..|clones|] == clones && given[..|clones|] == given;
    AllPlaced(MergedValues(values, clones, given), values, mains, clones);
  }

  // ----- when the merge is right -----

  function Numbers(from: nat, n: nat): seq<nat> { seq(n, i requires 0 <= i => from + i) }

  /// The merge of the leds' own numbers.
  function MergedNumbers(mainCount: nat, clones: seq<CloneLed>): (r: seq<nat>)
    requires IndicesFit(mainCount, clones)
    ensures |r| == mainCount + |clones|
  {
    MergedValues(Numbers(0, mainCount), clones, Numbers(mainCount, |clones|))
  }

  /// Every led's number stands at the led's index.
  ghost predicate LinesUp(r: seq<nat>, mains: seq<MainLed>, clones: seq<CloneLed>) {
    && (forall j | 0 <= j < |mains| :: mains[j].index < |r| && r[mains[j].index] == j)
    && (forall k | 0 <= k < |clones| :: clones[k].index < |r| && r[clones[k].index] == |mains| + k)
  }

  ghost predicate DistinctBelow(r: seq<nat>, x: nat) {
    (forall p | 0 <= p < |r| :: r[p] < x) && (forall p, q | 0 <= p < q < |r| :: r[p] != r[q])
  }

  lemma MergedNumbersStep(mainCount: nat, clones: seq<CloneLed>, k: nat)
    requires IndicesFit(mainCount, clones) && 0 < k <= |clones|
    ensures MergedNumbers(mainCount, clones[..k])
         == InsertAt(MergedNumbers(mainCount, clones[..k - 1]), clones[k - 1].index, mainCount + (k - 1))
  {
    assert clones[..k][..k - 1] == clones[..k - 1];
    assert Numbers(mainCount, k)[..k - 1] == Numbers(mainCount, k - 1);
  }

  lemma {:induction false} NumbersAreDistinct(mainCount: nat, clones: seq<CloneLed>, k: nat)
    requires IndicesFit(mainCount, clones) && k <= |clones|
    ensures DistinctBelow(MergedNumbers(mainCount, clones[..k]), mainCount + k)
  {
    if k == 0 {
      assert MergedNumbers(mainCount, clones[..0]) == Numbers(0, mainCount);
    } else {
      NumbersAreDistinct(mainCount, clones, k - 1);
      var before, after := MergedNumbers(mainCount, clones[..k - 1]), MergedNumbers(mainCount, clones[..k]);
      assert after == InsertAt(before, clones[k - 1].index, mainCount + (k - 1)) by {
        MergedNumbersStep(mainCount, clones, k);
      }
      OneMoreDistinct(before, after, clones[k - 1].index, mainCount, k);
    }
  }

  lemma OneMoreDistinct(before: seq<nat>, after: seq<nat>, c: nat, mainCount: nat, k: nat)
    requires k > 0 && c <= |before| && DistinctBelow(before, mainCount + (k - 1))
    requires after == InsertAt(before, c, mainCount + (k - 1))
    ensures DistinctBelow(after, mainCount + k)
  {
    InsertDistinct(before, c, mainCount + (k - 1));
  }

  lemma InsertDistinct(before: seq<nat>, c: nat, x: nat)
    requires c <= |before| && DistinctBelow(before, x)
    ensures DistinctBelow(InsertAt(before, c, x), x + 1)
  {
    var r := InsertAt(before, c, x);
    assert forall p | 0 <= p < |r| :: r[p] == if p < c then before[p] else if p == c then x else before[p - 1];
  }

  /** Exactly when everything lines up: for sorted led strings every led's own value ends up at the led's
      index if and only if the indices are a permutation of 0 to the led count. */
  lemma LinesUpExactly(mains: seq<MainLed>, clones: seq<CloneLed>)
    requires forall i, j | 0 <= i < j < |mains| :: mains[i].index <= mains[j].index
    requires forall i, j | 0 <= i < j < |clones| :: clones[i].index <= clones[j].index
    ensures Layout(mains, clones)
       <==> IndicesFit(|mains|, clones) && LinesUp(MergedNumbers(|mains|, clones), mains, clones)
  {
    if Layout(mains, clones) {
      ValuesPlaced(Numbers(0, |mains|), mains, clones, Numbers(|mains|, |clones|));
    } else if IndicesFit(|mains|, clones) && LinesUp(MergedNumbers(|mains|, clones), mains, clones) {
      LinedUpIsLayout(mains, clones);
    }
  }

  lemma LinedUpIsLayout(mains: seq<MainLed>, clones: seq<CloneLed>)
    requires forall i, j | 0 <= i < j < |mains| :: mains[i].index <= mains[j].index
    requires forall i, j | 0 <= i < j < |clones| :: clones[i].index <= clones[j].index
    requires IndicesFit(|mains|, clones) && LinesUp(MergedNumbers(|mains|, clones), mains, clones)
    ensures Layout(mains, clones)
  {
    var r := MergedNumbers(|mains|, clones);
    NumbersAreDistinct(|mains|, clones, |clones|);
    assert clones[..|clones|] == clones;
    forall v | 0 <= v < |r| ensures IsMain(mains, v) || IsClone(clones, v) {
      var x := r[v];
      if x < |mains| { assert mains[x].index == v; } else { assert clones[x - |mains|].index == v; }
    }
  }

  /// What the led with index v shows: a main led its own colour, a clone what its smaller target shows, or the
  /// main led it met instead.
  ghost function Shown(colors: Frame, mains: seq<MainLed>, clones: seq<CloneLed>, v: nat): Color
    requires Layout(mains, clones) && |colors| == |mains| && v < |mains| + |clones| && InRange(|mains|, clones)
    decreases v
  {
    if IsMain(mains, v) then
      var j :| 0 <= j < |mains| && mains[j].index == v; colors[j]
    else
      assert IsClone(clones, v);
      var k :| 0 <= k < |clones| && clones[k].index == v;
      if clones[k].target < v then Shown(colors, mains, clones, clones[k].target)
      else
        Ranks(mains, clones);
        colors[clones[k].target - k]
  }

  /** A buffer that has the mains' colours and filled clones shows just that. */
  lemma {:induction false} BufferShows(buffer: Frame, colors: Frame, mains: seq<MainLed>, clones: seq<CloneLed>, v: nat)
    requires Layout(mains, clones) && |colors| == |mains| && |buffer| == |mains| + |clones| && v < |buffer|
    requires InRange(|mains|, clones)
    requires forall j | 0 <= j < |mains| :: mains[j].index < |buffer| && buffer[mains[j].index] == colors[j]
    requires forall k | 0 <= k < |clones| :: CloneFilled(buffer, colors, mains, clones, k)
    ensures buffer[v] == Shown(colors, mains, clones, v)
    decreases v
  {
    if !IsMain(mains, v) {
      assert IsClone(clones, v);
      var k :| 0 <= k < |clones| && clones[k].index == v;
      assert CloneFilled(buffer, colors, mains, clones, k);
      if clones[k].target < v { BufferShows(buffer, colors, mains, clones, clones[k].target); }
    }
  }

  /** Exactly when cloning works: a clone of a main led shows that led's colour, whatever the colours are, if
      and only if the main led has the smaller index. */
  lemma {:induction false} CloneShowsTargetExactly(mains: seq<MainLed>, clones: seq<CloneLed>, k: nat, j: nat)
    requires Layout(mains, clones) && InRange(|mains|, clones) && k < |clones| && j < |mains|
    requires clones[k].target == mains[j].index && clones[k].index < |mains| + |clones|
    ensures (forall colors: Frame | |colors| == |mains| :: Shown(colors, mains, clones, clones[k].index) == colors[j])
       <==> mains[j].index < clones[k].index
  {
    Ranks(mains, clones);
    var c := clones[k];
    assert !IsMain(mains, c.index);
    if c.target < c.index {
      assert IsMain(mains, c.target);
    } else {
      assert c.target - k != j;
      var colors := seq(|mains|, i => if i == j then BLACK else Color(255, 255, 255));
      assert Shown(colors, mains, clones, c.index) == colors[c.target - k];
    }
  }

  /// The three bytes in the order their name spells.
  function Spelled(c: Color, order: ColorOrder): Color {
    match order
    case RGB => Color(c.red, c.green, c.blue)
    case RBG => Color(c.red, c.blue, c.green)
    case GRB => Color(c.green, c.red, c.blue)
    case BRG => Color(c.blue, c.red, c.green)
    case GBR => Color(c.green, c.blue, c.red)
    case BGR => Color(c.blue, c.green, c.red)
  }

  /// The order's name in the configuration.
  function NameOf(order: ColorOrder): string {
    match order
    case RGB => "rgb"
    case RBG => "rbg"
    case GRB => "grb"
    case BRG => "brg"
    case GBR => "gbr"
    case BGR => "bgr"
  }

  /// The channel that a letter of the name stands for.
  function ChannelOf(letter: char): Channel {
    if letter == 'r' then Red else if letter == 'g' then Green else Blue
  }

  /** Byte k of the colour sent is the channel that letter k of the order's name stands for. */
  lemma SpelledByName(c: Color, order: ColorOrder)
    ensures var name := NameOf(order);
            && |name| == 3
            && Spelled(c, order)
                 == Color(Get(c, ChannelOf(name[0])), Get(c, ChannelOf(name[1])), Get(c, ChannelOf(name[2])))
  {}

  /// The swaps really spell the order's name.
  method SwapBytes(color: Color, order: ColorOrder) returns (c: Color)
    ensures c == Spelled(color, order)
  {
    c := color;
    match order
    case RGB =>
    case BGR =>
      c := c.(red := c.blue, blue := c.red);
    case RBG =>
      c := c.(green := c.blue, blue := c.green);
    case GRB =>
      c := c.(red := c.green, green := c.red);
    case GBR =>
      c := c.(red := c.green, green := c.red);
      c := c.(green := c.blue, blue := c.green);
    case BRG =>
      c := c.(red := c.blue, blue := c.red);
      c := c.(green := c.blue, blue := c.green);
  }

  /** The frame sent to the device: the merged colours in the merged byte orders, and black for spare
      hardware leds. */
  method BuildDeviceFrame(colors: Frame, mains: seq<MainLed>, clones: seq<CloneLed>, hwLedCount: nat)
    returns (ok: bool, frame: Frame)
    requires IndicesFit(|mains|, clones) && |colors| == |mains|
    ensures ok <==> InRange(|mains|, clones)
    ensures ok ==> |frame| == Max(hwLedCount, |mains| + |clones|)
    ensures ok ==> forall i | 0 <= i < |mains| + |clones| ::
      frame[i] == Spelled(MergedColors(colors, clones)[i], MergedOrders(mains, clones)[i])
    ensures ok ==> forall i | |mains| + |clones| <= i < |frame| :: frame[i] == BLACK
  {
    var orders := MergeOrders(mains, clones);
    ok, frame := InsertClones(colors, clones);
    if !ok { return; }
    ghost var buffer := frame;
    for i := 0 to |frame|
      invariant |frame| == |buffer|
      invariant forall j | 0 <= j < i :: frame[j] == Spelled(buffer[j], orders[j])
      invariant forall j | i <= j < |frame| :: frame[j] == buffer[j]
    {
      var color := SwapBytes(frame[i], orders[i]);
      frame := frame[i := color];
    }
    if hwLedCount > |frame| {
      frame := frame + seq(hwLedCount - |frame|, i => BLACK);
    }
  }

  /** Led by led: every main led's position has its colour in its own byte order, and every clone's what the
      clone shows. */
  lemma DeviceFrameShows(colors: Frame, mains: seq<MainLed>, clones: seq<CloneLed>)
    requires Layout(mains, clones) && |colors| == |mains| && InRange(|mains|, clones)
    ensures IndicesFit(|mains|, clones)
    ensures var buffer, orders := MergedColors(colors, clones), MergedOrders(mains, clones);
            && |orders| == |buffer|
            && (forall j | 0 <= j < |mains| :: mains[j].index < |buffer|
                  && buffer[mains[j].index] == colors[j] && orders[mains[j].index] == mains[j].order)
            && (forall k | 0 <= k < |clones| :: clones[k].index < |buffer|
                  && buffer[clones[k].index] == Shown(colors, mains, clones, clones[k].index)
                  && orders[clones[k].index] == clones[k].order)
  {
    ColorsPlaced(colors, mains, clones);
    MergeShows(colors, mains, clones);
    ValuesPlaced(MainOrders(mains), mains, clones, CloneOrders(clones));
  }

  lemma MergeShows(colors: Frame, mains: seq<MainLed>, clones: seq<CloneLed>)
    requires Layout(mains, clones) && |colors| == |mains| && InRange(|mains|, clones)
    ensures IndicesFit(|mains|, clones)
    ensures forall v: nat | v < |mains| + |clones| ::
      MergedColors(colors, clones)[v] == Shown(colors, mains, clones, v)
  {
    ColorsPlaced(colors, mains, clones);
    var buffer := MergedColors(colors, clones);
    forall v: nat | v < |buffer| ensures buffer[v] == Shown(colors, mains, clones, v) {
      BufferShows(buffer, colors, mains, clones, v);
    }
  }
}
