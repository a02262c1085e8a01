/** When a grid of leds splits the picture into disjoint lists. */
module GridPartition {
  import opened Colors
  import opened LedsMapGeometry
  import opened IndexLists

  /// Cut points of one axis: from 0 to 1 in steps that count as area.
  ghost predicate Chain(f: seq<real>) {
    && |f| >= 2 && f[0] == 0.0 && f[|f|-1] == 1.0
    && forall i | 0 <= i < |f| - 1 :: f[i+1] - f[i] >= AREA_MIN
  }

  /// The cut of the axis at f[i], in pixels.
  function Cut(actual: nat, f: seq<real>, i: nat): int
    requires i < |f|
  {
    Round(actual as real * f[i])
  }

  /// Every step of the chain rounds to at least one pixel.
  ghost predicate Coarse(f: seq<real>, actual: nat) {
    forall i: nat | i + 1 < |f| :: Cut(actual, f, i) < Cut(actual, f, i + 1)
  }

  lemma {:induction false} ChainAscends(f: seq<real>, i: nat, j: nat)
    requires Chain(f) && i <= j < |f|
    ensures f[i] <= f[j]
    decreases j - i
  {
    if i < j { ChainAscends(f, i, j - 1); }
  }

  lemma ChainInUnit(f: seq<real>, i: nat)
    requires Chain(f) && i < |f|
    ensures 0.0 <= f[i] <= 1.0
  {
    ChainAscends(f, 0, i);
    ChainAscends(f, i, |f| - 1);
  }

  lemma CutBounds(actual: nat, f: seq<real>, i: nat)
    requires Chain(f) && i < |f|
    ensures 0 <= Cut(actual, f, i) <= actual
    ensures i == 0 ==> Cut(actual, f, i) == 0
    ensures i == |f| - 1 ==> Cut(actual, f, i) == actual
  {
    ChainInUnit(f, i);
    RoundAt(actual, f[i]);
    if i == 0 { assert actual as real * f[0] == 0.0; }
    if i == |f| - 1 { assert actual as real * f[i] == actual as real; }
  }

  lemma CutAscends(actual: nat, f: seq<real>, i: nat, j: nat)
    requires Chain(f) && i <= j < |f|
    ensures Cut(actual, f, i) <= Cut(actual, f, j)
  {
    ChainAscends(f, i, j);
    ScaleMonotone(actual, f[i], f[j]);
    RoundMonotone(actual as real * f[i], actual as real * f[j]);
  }

  /// Position p of the axis belongs to the span of step i, after clamping.
  ghost predicate InStep(actual: nat, f: seq<real>, i: nat, p: int)
    requires i + 1 < |f|
  {
    Lower(actual, f[i]) <= p < Upper(actual, f[i], f[i+1])
  }

  /** A step that rounds to at least one pixel spans exactly the pixels between its cuts. */
  lemma WideStep(actual: nat, f: seq<real>, i: nat)
    requires Chain(f) && i + 1 < |f| && Cut(actual, f, i) < Cut(actual, f, i + 1)
    ensures Lower(actual, f[i]) == Cut(actual, f, i) && Upper(actual, f[i], f[i+1]) == Cut(actual, f, i + 1)
  {
    CutBounds(actual, f, i + 1);
  }

  /// The step between whose cuts position p lies.
  lemma {:induction false} FindStep(actual: nat, f: seq<real>, p: nat, i: nat) returns (k: nat)
    requires Chain(f) && p < actual && i < |f| && Cut(actual, f, i) <= p
    ensures k + 1 < |f| && Cut(actual, f, k) <= p < Cut(actual, f, k + 1)
    ensures InStep(actual, f, k, p)
    decreases |f| - i
  {
    CutBounds(actual, f, i);
    if p < Cut(actual, f, i + 1) {
      k := i;
      WideStep(actual, f, i);
    } else {
      k := FindStep(actual, f, p, i + 1);
    }
  }

  /** In a coarse chain every position of the axis belongs to exactly one step. */
  lemma UniqueStep(actual: nat, f: seq<real>, p: nat) returns (k: nat)
    requires Chain(f) && Coarse(f, actual) && p < actual
    ensures k + 1 < |f| && forall i: nat | i + 1 < |f| :: InStep(actual, f, i, p) <==> i == k
  {
    CutBounds(actual, f, 0);
    k := FindStep(actual, f, p, 0);
    forall i: nat | i + 1 < |f| ensures InStep(actual, f, i, p) <==> i == k {
      WideStep(actual, f, i);
      if i < k { CutAscends(actual, f, i + 1, k); }
      if i > k { CutAscends(actual, f, k + 1, i); }
    }
  }

  /** As soon as one step rounds to nothing, two steps share a position. */
  lemma SharedPosition(actual: nat, f: seq<real>, i: nat) returns (k: nat, p: nat)
    requires Chain(f) && actual > 0 && i + 1 < |f| && Cut(actual, f, i) >= Cut(actual, f, i + 1)
    ensures k + 1 < |f| && k != i && p < actual && InStep(actual, f, i, p) && InStep(actual, f, k, p)
  {
    StepOnAxis(actual, f, i);
    p := Lower(actual, f[i]);
    CutBounds(actual, f, 0);
    k := FindStep(actual, f, p, 0);
  }

  lemma StepOnAxis(actual: nat, f: seq<real>, i: nat)
    requires Chain(f) && actual > 0 && i + 1 < |f|
    ensures 0 <= Lower(actual, f[i]) < Upper(actual, f[i], f[i+1]) <= actual
  {
    ChainInUnit(f, i);
    ChainInUnit(f, i + 1);
    SpanOnAxis(actual, f[i], f[i+1]);
  }

  // ----- the grid -----

  function Cell(fx: seq<real>, fy: seq<real>, i: nat, j: nat): Led
    requires i + 1 < |fx| && j + 1 < |fy|
  {
    Led(fx[i], fx[i+1], fy[j], fy[j+1])
  }

  lemma CellIsValid(fx: seq<real>, fy: seq<real>, i: nat, j: nat)
    requires Chain(fx) && Chain(fy) && i + 1 < |fx| && j + 1 < |fy|
    ensures ValidLed(Cell(fx, fy, i, j)) && HasArea(Cell(fx, fy, i, j))
  {
    ChainInUnit(fx, i); ChainInUnit(fx, i + 1);
    ChainInUnit(fy, j); ChainInUnit(fy, j + 1);
  }

  function GridRow(fx: seq<real>, fy: seq<real>, j: nat): (r: seq<Led>)
    requires Chain(fx) && Chain(fy) && j + 1 < |fy|
    ensures |r| == |fx| - 1 && forall l | l in r :: ValidLed(l)
  {
    var r := seq(|fx| - 1, i requires 0 <= i < |fx| - 1 && j + 1 < |fy| => Cell(fx, fy, i, j));
    assert forall l | l in r :: ValidLed(l) by {
      forall i: nat | i < |r| ensures ValidLed(r[i]) { CellIsValid(fx, fy, i, j); }
    }
    r
  }

  /// The leds of the grid from row j on.
  function Grid(fx: seq<real>, fy: seq<real>, j: nat): (r: seq<Led>)
    requires Chain(fx) && Chain(fy) && j < |fy|
    ensures forall l | l in r :: ValidLed(l)
    decreases |fy| - j
  {
    if j + 1 == |fy| then [] else GridRow(fx, fy, j) + Grid(fx, fy, j + 1)
  }

  function RowLists(b: Bounds, fx: seq<real>, fy: seq<real>, j: nat): seq<seq<nat>>
    requires b.Ok() && Chain(fx) && Chain(fy) && j + 1 < |fy|
  {
    AllIndices(b, GridRow(fx, fy, j))
  }

  function GridLists(b: Bounds, fx: seq<real>, fy: seq<real>, j: nat): seq<seq<nat>>
    requires b.Ok() && Chain(fx) && Chain(fy) && j < |fy|
  {
    AllIndices(b, Grid(fx, fy, j))
  }

  lemma GridListsSplit(b: Bounds, fx: seq<real>, fy: seq<real>, j: nat)
    requires b.Ok() && Chain(fx) && Chain(fy) && j < |fy|
    ensures GridLists(b, fx, fy, j) ==
            if j + 1 == |fy| then [] else RowLists(b, fx, fy, j) + GridLists(b, fx, fy, j + 1)
  {
  }

  /// Index of the pixel at offsets (px, py) inside the borders.
  function PixelIndex(b: Bounds, px: nat, py: nat): nat {
    (b.horizontalBorder + py) * b.width + (b.verticalBorder + px)
  }

  lemma CellMembers(b: Bounds, fx: seq<real>, fy: seq<real>, i: nat, j: nat, px: nat, py: nat)
    requires b.Ok() && Chain(fx) && Chain(fy) && i + 1 < |fx| && j + 1 < |fy| && px < b.ActualWidth()
    ensures PixelIndex(b, px, py) in RowLists(b, fx, fy, j)[i] <==>
            InStep(b.ActualWidth(), fx, i, px) && InStep(b.ActualHeight(), fy, j, py)
  {
    CellIsValid(fx, fy, i, j);
    LedListMembers(b, Cell(fx, fy, i, j), b.verticalBorder + px, b.horizontalBorder + py);
  }

  lemma CellSize(b: Bounds, fx: seq<real>, fy: seq<real>, i: nat, j: nat)
    requires b.Ok() && Chain(fx) && Chain(fy) && i + 1 < |fx| && j + 1 < |fy|
    requires Coarse(fx, b.ActualWidth()) && Coarse(fy, b.ActualHeight())
    ensures |RowLists(b, fx, fy, j)[i]| ==
            (Cut(b.ActualHeight(), fy, j + 1) - Cut(b.ActualHeight(), fy, j))
            * (Cut(b.ActualWidth(), fx, i + 1) - Cut(b.ActualWidth(), fx, i))
  {
    CellIsValid(fx, fy, i, j);
    WideStep(b.ActualWidth(), fx, i);
    WideStep(b.ActualHeight(), fy, j);
    LedListShape(b, Cell(fx, fy, i, j));
  }

  /** Within one row of a coarse grid a pixel occurs once if the row spans it, else never. */
  lemma RowCount(b: Bounds, fx: seq<real>, fy: seq<real>, j: nat, px: nat, py: nat)
    requires b.Ok() && Chain(fx) && Chain(fy) && j + 1 < |fy| && px < b.ActualWidth()
    requires Coarse(fx, b.ActualWidth())
    ensures Count(RowLists(b, fx, fy, j), PixelIndex(b, px, py))
         == (if InStep(b.ActualHeight(), fy, j, py) then 1 else 0)
  {
    var k := UniqueStep(b.ActualWidth(), fx, px);
    var lists, p := RowLists(b, fx, fy, j), PixelIndex(b, px, py);
    forall i: nat | i < |lists|
      ensures p in lists[i] <==> i == k && InStep(b.ActualHeight(), fy, j, py)
    {
      CellMembers(b, fx, fy, i, j, px, py);
    }
    if InStep(b.ActualHeight(), fy, j, py) { CountOne(lists, p, k); } else { CountNone(lists, p); }
  }

  lemma {:induction false} GridCount(b: Bounds, fx: seq<real>, fy: seq<real>, j: nat, px: nat, py: nat, k: nat)
    requires b.Ok() && Chain(fx) && Chain(fy) && j < |fy| && px < b.ActualWidth()
    requires Coarse(fx, b.ActualWidth())
    requires forall m: nat | m + 1 < |fy| :: InStep(b.ActualHeight(), fy, m, py) <==> m == k
    requires k + 1 < |fy|
    ensures Count(GridLists(b, fx, fy, j), PixelIndex(b, px, py)) == (if j <= k then 1 else 0)
    decreases |fy| - j
  {
    GridListsSplit(b, fx, fy, j);
    if j + 1 < |fy| {
      RowCount(b, fx, fy, j, px, py);
      GridCount(b, fx, fy, j + 1, px, py, k);
      CountConcat(RowLists(b, fx, fy, j), GridLists(b, fx, fy, j + 1), PixelIndex(b, px, py));
    }
  }

  lemma RowSize(b: Bounds, fx: seq<real>, fy: seq<real>, j: nat)
    requires b.Ok() && Chain(fx) && Chain(fy) && j + 1 < |fy|
    requires Coarse(fx, b.ActualWidth()) && Coarse(fy, b.ActualHeight())
    ensures TotalSize(RowLists(b, fx, fy, j)) ==
            (Cut(b.ActualHeight(), fy, j + 1) - Cut(b.ActualHeight(), fy, j)) * b.ActualWidth()
  {
    var aw, ah := b.ActualWidth(), b.ActualHeight();
    var lists := RowLists(b, fx, fy, j);
    var cuts := seq(|fx|, i requires 0 <= i < |fx| => Cut(aw, fx, i));
    var h := Cut(ah, fy, j + 1) - Cut(ah, fy, j);
    forall i: nat | i < |lists| ensures |lists[i]| == h * (cuts[i+1] - cuts[i]) { CellSize(b, fx, fy, i, j); }
    SizesTelescope(lists, cuts, h);
    CutBounds(aw, fx, 0);
    CutBounds(aw, fx, |fx| - 1);
  }

  lemma SplitProduct(a: int, b: int, c: int, h: int)
    ensures (b - a) * h + (c - b) * h == (c - a) * h
  {}

  /// `cuts` are the cuts of the vertical axis; naming them keeps the rounding out of this induction.
  lemma {:induction false} GridSize(b: Bounds, fx: seq<real>, fy: seq<real>, j: nat, cuts: seq<int>, aw: nat)
    requires b.Ok() && Chain(fx) && Chain(fy) && j < |fy| == |cuts|
    requires forall k: nat | k + 1 < |fy| :: TotalSize(RowLists(b, fx, fy, k)) == (cuts[k+1] - cuts[k]) * aw
    ensures TotalSize(GridLists(b, fx, fy, j)) == (cuts[|cuts|-1] - cuts[j]) * aw
    decreases |fy| - j
  {
    GridListsSplit(b, fx, fy, j);
    if j + 1 < |fy| {
      GridSize(b, fx, fy, j + 1, cuts, aw);
      CountConcat(RowLists(b, fx, fy, j), GridLists(b, fx, fy, j + 1), 0);
      SplitProduct(cuts[j], cuts[j+1], cuts[|cuts|-1], aw);
    }
  }

  lemma CoarseSize(b: Bounds, fx: seq<real>, fy: seq<real>)
    requires b.Ok() && Chain(fx) && Chain(fy)
    requires Coarse(fx, b.ActualWidth()) && Coarse(fy, b.ActualHeight())
    ensures TotalSize(GridLists(b, fx, fy, 0)) == b.ActualHeight() * b.ActualWidth()
  {
    var cuts := CutList(b, fx, fy);
    GridSize(b, fx, fy, 0, cuts, b.ActualWidth());
  }

  lemma CutList(b: Bounds, fx: seq<real>, fy: seq<real>) returns (cuts: seq<int>)
    requires b.Ok() && Chain(fx) && Chain(fy)
    requires Coarse(fx, b.ActualWidth()) && Coarse(fy, b.ActualHeight())
    ensures |cuts| == |fy| && cuts[0] == 0 && cuts[|fy|-1] == b.ActualHeight()
    ensures forall k: nat | k + 1 < |fy| :: TotalSize(RowLists(b, fx, fy, k)) == (cuts[k+1] - cuts[k]) * b.ActualWidth()
  {
    var ah := b.ActualHeight();
    CutBounds(ah, fy, 0);
    CutBounds(ah, fy, |fy| - 1);
    cuts := seq(|fy|, j requires 0 <= j < |fy| => Cut(ah, fy, j));
    forall k: nat | k + 1 < |fy|
      ensures TotalSize(RowLists(b, fx, fy, k)) == (cuts[k+1] - cuts[k]) * b.ActualWidth()
    {
      RowSize(b, fx, fy, k);
    }
  }

  lemma {:induction false} GridHas(b: Bounds, fx: seq<real>, fy: seq<real>, j: nat, k: nat, p: nat)
    requires b.Ok() && Chain(fx) && Chain(fy) && j <= k && k + 1 < |fy|
    ensures Count(GridLists(b, fx, fy, j), p) >= Count(RowLists(b, fx, fy, k), p)
    decreases k - j
  {
    GridListsSplit(b, fx, fy, j);
    CountConcat(RowLists(b, fx, fy, j), GridLists(b, fx, fy, j + 1), p);
    if j < k { GridHas(b, fx, fy, j + 1, k, p); }
  }

  lemma {:induction false} GridHasTwo(b: Bounds, fx: seq<real>, fy: seq<real>, j: nat, k: nat, m: nat, p: nat)
    requires b.Ok() && Chain(fx) && Chain(fy) && j <= k < m && m + 1 < |fy|
    ensures Count(GridLists(b, fx, fy, j), p) >= Count(RowLists(b, fx, fy, k), p) + Count(RowLists(b, fx, fy, m), p)
    decreases k - j
  {
    GridListsSplit(b, fx, fy, j);
    CountConcat(RowLists(b, fx, fy, j), GridLists(b, fx, fy, j + 1), p);
    if j < k { GridHasTwo(b, fx, fy, j + 1, k, m, p); } else { GridHas(b, fx, fy, j + 1, m, p); }
  }

  /// Every pixel inside the borders occurs in exactly one list.
  ghost predicate Partition(b: Bounds, lists: seq<seq<nat>>)
    requires b.Ok()
  {
    forall px: nat, py: nat | px < b.ActualWidth() && py < b.ActualHeight() :: Count(lists, PixelIndex(b, px, py)) == 1
  }

  lemma ThinColumnOverlaps(b: Bounds, fx: seq<real>, fy: seq<real>, i: nat)
    requires b.Ok() && Chain(fx) && Chain(fy) && i + 1 < |fx|
    requires Cut(b.ActualWidth(), fx, i) >= Cut(b.ActualWidth(), fx, i + 1)
    ensures !Partition(b, GridLists(b, fx, fy, 0))
  {
    var k, px := SharedPosition(b.ActualWidth(), fx, i);
    StepOnAxis(b.ActualHeight(), fy, 0);
    var py: nat := Lower(b.ActualHeight(), fy[0]);
    CellMembers(b, fx, fy, i, 0, px, py);
    CellMembers(b, fx, fy, k, 0, px, py);
    CountTwo(RowLists(b, fx, fy, 0), PixelIndex(b, px, py), Min(i, k), Max(i, k));
    GridHas(b, fx, fy, 0, 0, PixelIndex(b, px, py));
    assert Count(GridLists(b, fx, fy, 0), PixelIndex(b, px, py)) >= 2;
  }

  lemma ThinRowOverlaps(b: Bounds, fx: seq<real>, fy: seq<real>, j: nat)
    requires b.Ok() && Chain(fx) && Chain(fy) && j + 1 < |fy|
    requires Cut(b.ActualHeight(), fy, j) >= Cut(b.ActualHeight(), fy, j + 1)
    ensures !Partition(b, GridLists(b, fx, fy, 0))
  {
    var k, py := SharedPosition(b.ActualHeight(), fy, j);
    StepOnAxis(b.ActualWidth(), fx, 0);
    var px: nat := Lower(b.ActualWidth(), fx[0]);
    CellMembers(b, fx, fy, 0, j, px, py);
    CellMembers(b, fx, fy, 0, k, px, py);
    CountSome(RowLists(b, fx, fy, j), PixelIndex(b, px, py), 0);
    CountSome(RowLists(b, fx, fy, k), PixelIndex(b, px, py), 0);
    GridHasTwo(b, fx, fy, 0, Min(j, k), Max(j, k), PixelIndex(b, px, py));
    assert Count(GridLists(b, fx, fy, 0), PixelIndex(b, px, py)) >= 2;
  }

  lemma CoarsePartitions(b: Bounds, fx: seq<real>, fy: seq<real>)
    requires b.Ok() && Chain(fx) && Chain(fy)
    requires Coarse(fx, b.ActualWidth()) && Coarse(fy, b.ActualHeight())
    ensures Partition(b, GridLists(b, fx, fy, 0))
  {
    forall px: nat, py: nat | px < b.ActualWidth() && py < b.ActualHeight()
      ensures Count(GridLists(b, fx, fy, 0), PixelIndex(b, px, py)) == 1
    {
      var k := UniqueStep(b.ActualHeight(), fy, py);
      GridCount(b, fx, fy, 0, px, py, k);
    }
  }

  /** A grid of leds partitions the picture if and only if every step of both chains rounds to at
      least one pixel; then the lists hold actualWidth * actualHeight entries in all. */
  lemma GridPartitions(b: Bounds, fx: seq<real>, fy: seq<real>)
    requires b.Ok() && Chain(fx) && Chain(fy)
    ensures Partition(b, GridLists(b, fx, fy, 0)) <==> Coarse(fx, b.ActualWidth()) && Coarse(fy, b.ActualHeight())
    ensures Partition(b, GridLists(b, fx, fy, 0)) ==>
      TotalSize(GridLists(b, fx, fy, 0)) == b.ActualHeight() * b.ActualWidth()
  {
    if !Coarse(fx, b.ActualWidth()) {
      var i: nat :| i + 1 < |fx| && Cut(b.ActualWidth(), fx, i) >= Cut(b.ActualWidth(), fx, i + 1);
      ThinColumnOverlaps(b, fx, fy, i);
    } else if !Coarse(fy, b.ActualHeight()) {
      var j: nat :| j + 1 < |fy| && Cut(b.ActualHeight(), fy, j) >= Cut(b.ActualHeight(), fy, j + 1);
      ThinRowOverlaps(b, fx, fy, j);
    } else {
      CoarsePartitions(b, fx, fy);
      CoarseSize(b, fx, fy);
    }
  }
}
