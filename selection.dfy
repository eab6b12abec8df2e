/**
 * `detect_grid` of dataset-gridding.py: the catalog of candidate grids, the
 * continuity score of an occupancy list, and the choice of the best grid.
 */
module GridSelection {
  import opened ImageModel
  import opened CellGeometry
  import opened Occupancy

  datatype Option<T> = None | Some(value: T)

  /** A grid shape: `rows` x `cols` cells. */
  datatype Shape = Shape(rows: nat, cols: nat)

  /** The only sheet size the heuristic accepts: 1024 x 1024 pixels. */
  const ExpectedSide: nat := 1024

  /** The fewest and the most occupied cells a grid may have to be chosen. */
  const MinFrames: nat := 4
  const MaxFrames: nat := 25

  /** `grid_options`, in the order the loop tries them. */
  const Catalog: seq<Shape> := [Shape(2, 2), Shape(4, 4), Shape(5, 5), Shape(2, 4), Shape(4, 2)]

  predicate ValidShape(shape: Shape) {
    shape.rows > 0 && shape.cols > 0
  }

  lemma CatalogShapesValid()
    ensures forall k :: 0 <= k < |Catalog| ==> ValidShape(Catalog[k])
    ensures forall k :: 0 <= k < |Catalog| ==> Catalog[k] != Shape(1, 1)
  {
  }

  function Abs(x: int): nat {
    if x < 0 then -x else x
  }

  /** Two cells whose rows and whose columns each differ by at most one. */
  predicate Adjacent(p: Pos, q: Pos) {
    Abs(p.row - q.row) <= 1 && Abs(p.col - q.col) <= 1
  }

  /**
   * `continuity_score`: how many consecutive pairs of the list are adjacent
   * cells. There are `|ps| - 1` such pairs, so that is the most it can be.
   */
  function ContinuityScore(ps: seq<Pos>): (n: nat)
    ensures |ps| <= 1 ==> n == 0
    ensures |ps| >= 1 ==> n <= |ps| - 1
    decreases |ps|
  {
    if |ps| <= 1 then 0
    else (if Adjacent(ps[0], ps[1]) then 1 else 0) + ContinuityScore(ps[1..])
  }

  /** The score reaches its maximum exactly when every consecutive pair is adjacent. */
  lemma {:induction false} ContinuityFullIffAllAdjacent(ps: seq<Pos>)
    requires |ps| >= 1
    ensures ContinuityScore(ps) == |ps| - 1 <==>
      forall i :: 0 <= i < |ps| - 1 ==> Adjacent(ps[i], ps[i + 1])
    decreases |ps|
  {
    if |ps| > 1 {
      ContinuityFullIffAllAdjacent(ps[1..]);
      AllAdjacentSplit(ps);
    }
  }

  /** The score is zero exactly when no consecutive pair is adjacent. */
  lemma {:induction false} ContinuityZeroIffNoneAdjacent(ps: seq<Pos>)
    ensures ContinuityScore(ps) == 0 <==>
      forall i :: 0 <= i < |ps| - 1 ==> !Adjacent(ps[i], ps[i + 1])
    decreases |ps|
  {
    if |ps| > 1 {
      ContinuityZeroIffNoneAdjacent(ps[1..]);
      NoneAdjacentSplit(ps);
    }
  }

  lemma AllAdjacentSplit(ps: seq<Pos>)
    requires |ps| > 1
    ensures (forall i :: 0 <= i < |ps| - 1 ==> Adjacent(ps[i], ps[i + 1])) <==>
      Adjacent(ps[0], ps[1]) && forall i :: 0 <= i < |ps[1..]| - 1 ==> Adjacent(ps[1..][i], ps[1..][i + 1])
  {
    assert forall i :: 1 <= i < |ps| ==> ps[i] == ps[1..][i - 1];
  }

  lemma NoneAdjacentSplit(ps: seq<Pos>)
    requires |ps| > 1
    ensures (forall i :: 0 <= i < |ps| - 1 ==> !Adjacent(ps[i], ps[i + 1])) <==>
      !Adjacent(ps[0], ps[1]) && forall i :: 0 <= i < |ps[1..]| - 1 ==> !Adjacent(ps[1..][i], ps[1..][i + 1])
  {
    assert forall i :: 1 <= i < |ps| ==> ps[i] == ps[1..][i - 1];
  }

  /** `max(1, frame_count)`. */
  function AtLeastOne(n: nat): nat {
    if n < 1 then 1 else n
  }

  /** `score = frame_count + continuity_score / max(1, frame_count)`, computed exactly. */
  function Score(count: nat, continuity: nat): real {
    count as real + (continuity as real) / (AtLeastOne(count) as real)
  }

  /**
   * With a continuity below `max(1, count)`, as every continuity score is,
   * the fraction stays below one: the score lies in [count, count + 1).
   */
  lemma ScoreBounds(count: nat, continuity: nat)
    requires continuity < AtLeastOne(count)
    ensures count as real <= Score(count, continuity) < count as real + 1.0
  {
    var m := AtLeastOne(count) as real;
    var f := (continuity as real) / m;
    assert f * m == continuity as real;
  }

  /**
   * So scores rank grids by occupied count first and, between equal counts,
   * by continuity.
   */
  lemma ScoreOrder(count1: nat, continuity1: nat, count2: nat, continuity2: nat)
    requires continuity1 < AtLeastOne(count1) && continuity2 < AtLeastOne(count2)
    ensures Score(count1, continuity1) > Score(count2, continuity2) <==>
      count1 > count2 || (count1 == count2 && continuity1 > continuity2)
  {
    ScoreBounds(count1, continuity1);
    ScoreBounds(count2, continuity2);
    if count1 == count2 {
      DivisionOrder(continuity1, continuity2, AtLeastOne(count1));
    } else if count1 > count2 {
      assert count1 as real >= count2 as real + 1.0;
    } else {
      assert count2 as real >= count1 as real + 1.0;
    }
  }

  lemma DivisionOrder(x: nat, y: nat, n: nat)
    requires n > 0
    ensures (x as real) / (n as real) > (y as real) / (n as real) <==> x > y
  {
    var m := n as real;
    var fx, fy := (x as real) / m, (y as real) / m;
    assert fx * m == x as real && fy * m == y as real;
    if x > y {
      assert (fx - fy) * m == (x - y) as real;
    } else {
      assert (fy - fx) * m == (y - x) as real;
    }
  }

  /** The scan `detect_grid` runs for one shape: background sampled at (0, 0), default threshold. */
  function SheetScan(img: Image, shape: Shape): (scan: Scan)
    requires img.Valid() && ValidShape(shape)
    ensures scan.Valid()
  {
    Scan(img, shape.rows, shape.cols, BackgroundColor(img), DefaultThreshold)
  }

  /**
   * The `frame_positions` of every shape on one sheet. The selection below is
   * stated for any such assignment of occupied cells to shapes and applied to
   * this one.
   */
  function SheetOccupancy(img: Image): Shape -> seq<Pos>
    requires img.Valid()
  {
    shape => if ValidShape(shape) then OccupiedCells(SheetScan(img, shape)) else []
  }

  /** What the catalog loop learns about one shape: its `frame_count` and its `score`. */
  datatype Measurement = Measurement(shape: Shape, frames: nat, score: real)

  /** `frame_count` is the number of occupied cells; the score adds their continuity. */
  function MeasureCells(shape: Shape, cells: seq<Pos>): Measurement {
    Measurement(shape, |cells|, Score(|cells|, ContinuityScore(cells)))
  }

  function Measure(occupancy: Shape -> seq<Pos>, shape: Shape): Measurement {
    MeasureCells(shape, occupancy(shape))
  }

  /** The `frame_count` of one shape. */
  function FrameCount(occupancy: Shape -> seq<Pos>, shape: Shape): nat {
    Measure(occupancy, shape).frames
  }

  /** The `score` of one shape. */
  function ShapeScore(occupancy: Shape -> seq<Pos>, shape: Shape): real {
    Measure(occupancy, shape).score
  }

  /** An occupied count in 4..25: the range in which a grid may be chosen. */
  predicate InFrameRange(frames: nat) {
    MinFrames <= frames <= MaxFrames
  }

  /** A shape whose occupied count lies in 4..25 may be chosen. */
  predicate Qualifies(occupancy: Shape -> seq<Pos>, shape: Shape) {
    InFrameRange(FrameCount(occupancy, shape))
  }

  /** The measurements of the first `n` catalog entries, in catalog order. */
  function MeasurementsUpTo(occupancy: Shape -> seq<Pos>, n: nat): seq<Measurement>
    requires n <= |Catalog|
  {
    if n == 0 then [] else MeasurementsUpTo(occupancy, n - 1) + [Measure(occupancy, Catalog[n - 1])]
  }

  /** Measuring one more catalog entry appends its measurement. */
  lemma MeasurementsUpToSnoc(occupancy: Shape -> seq<Pos>, n: nat)
    requires n < |Catalog|
    ensures MeasurementsUpTo(occupancy, n + 1) == MeasurementsUpTo(occupancy, n) + [Measure(occupancy, Catalog[n])]
  {
  }

  lemma {:induction false} MeasurementsUpToFacts(occupancy: Shape -> seq<Pos>, n: nat)
    requires n <= |Catalog|
    ensures |MeasurementsUpTo(occupancy, n)| == n
    ensures forall j :: 0 <= j < n ==> MeasurementsUpTo(occupancy, n)[j] == Measure(occupancy, Catalog[j])
  {
    if n > 0 {
      MeasurementsUpToFacts(occupancy, n - 1);
    }
  }

  /**
   * Entry `k` is the one a first-strict-maximum loop keeps among `ms`: its
   * count is in range, it beats every earlier in-range entry strictly, and no
   * later in-range entry beats it strictly (a later tie does not replace it).
   */
  predicate Leads(ms: seq<Measurement>, k: nat) {
    && k < |ms|
    && InFrameRange(ms[k].frames)
    && (forall j :: 0 <= j < k && InFrameRange(ms[j].frames) ==> ms[j].score < ms[k].score)
    && (forall j :: k < j < |ms| && InFrameRange(ms[j].frames) ==> ms[j].score <= ms[k].score)
  }

  /** At most one entry leads. */
  lemma LeadsUnique(ms: seq<Measurement>, k1: nat, k2: nat)
    requires Leads(ms, k1) && Leads(ms, k2)
    ensures k1 == k2
  {
  }

  /**
   * One more entry that does not strictly beat the leader (or is out of
   * range) leaves the leader in place.
   */
  lemma LeadsKeep(ms: seq<Measurement>, k: nat, m: Measurement)
    requires Leads(ms, k)
    requires !(InFrameRange(m.frames) && m.score > ms[k].score)
    ensures Leads(ms + [m], k)
  {
    var ms' := ms + [m];
    assert forall j :: 0 <= j < |ms| ==> ms'[j] == ms[j];
  }

  /**
   * An in-range entry that strictly beats every in-range entry before it
   * becomes the new leader.
   */
  lemma LeadsTake(ms: seq<Measurement>, m: Measurement, bound: real)
    requires InFrameRange(m.frames) && m.score > bound
    requires forall j :: 0 <= j < |ms| && InFrameRange(ms[j].frames) ==> ms[j].score <= bound
    ensures Leads(ms + [m], |ms|)
  {
    var ms' := ms + [m];
    assert forall j :: 0 <= j < |ms| ==> ms'[j] == ms[j];
  }

  /**
   * The index the catalog loop holds after visiting `ms`: an entry replaces
   * the held one when its count is in range and, if one is held, its score
   * is strictly higher.
   */
  function Chosen(ms: seq<Measurement>): (r: Option<nat>)
    ensures r.Some? ==> r.value < |ms|
    decreases |ms|
  {
    if |ms| == 0 then None
    else
      var prev := Chosen(ms[..|ms| - 1]);
      var m := ms[|ms| - 1];
      if InFrameRange(m.frames) && (prev.None? || m.score > ms[prev.value].score) then Some(|ms| - 1)
      else prev
  }

  /** Visiting one more entry: the step the loop body takes. */
  lemma ChosenSnoc(ms: seq<Measurement>, m: Measurement)
    ensures Chosen(ms + [m]) ==
      if InFrameRange(m.frames) && (Chosen(ms).None? || m.score > ms[Chosen(ms).value].score)
      then Some(|ms|) else Chosen(ms)
    ensures Chosen(ms).Some? ==> (ms + [m])[Chosen(ms).value] == ms[Chosen(ms).value]
  {
    assert (ms + [m])[..|ms|] == ms;
  }

  /**
   * What the loop holds is the leader of `ms`, and it holds nothing exactly
   * when no entry's count is in range.
   */
  lemma {:induction false} ChosenIsLeader(ms: seq<Measurement>)
    ensures Chosen(ms).Some? ==> Leads(ms, Chosen(ms).value)
    ensures Chosen(ms).None? <==> forall j :: 0 <= j < |ms| ==> !InFrameRange(ms[j].frames)
    decreases |ms|
  {
    if |ms| > 0 {
      var init := ms[..|ms| - 1];
      var m := ms[|ms| - 1];
      assert ms == init + [m];
      ChosenIsLeader(init);
      var prev := Chosen(init);
      if InFrameRange(m.frames) && (prev.None? || m.score > init[prev.value].score) {
        var bound := if prev.None? then m.score - 1.0 else init[prev.value].score;
        LeadsTake(init, m, bound);
      } else if prev.Some? {
        LeadsKeep(init, prev.value, m);
      }
    }
  }

  /** Catalog entry `k` is the grid `detect_grid` keeps. */
  predicate Selected(occupancy: Shape -> seq<Pos>, k: nat) {
    Leads(MeasurementsUpTo(occupancy, |Catalog|), k)
  }

  /**
   * Entry `k`, shape by shape: it qualifies, it scores strictly above every
   * earlier qualifying entry, and no later qualifying entry scores strictly
   * above it.
   */
  predicate FirstBest(occupancy: Shape -> seq<Pos>, k: nat)
    requires k < |Catalog|
  {
    && Qualifies(occupancy, Catalog[k])
    && (forall j :: 0 <= j < k && Qualifies(occupancy, Catalog[j]) ==>
          ShapeScore(occupancy, Catalog[j]) < ShapeScore(occupancy, Catalog[k]))
    && (forall j :: k < j < |Catalog| && Qualifies(occupancy, Catalog[j]) ==>
          ShapeScore(occupancy, Catalog[j]) <= ShapeScore(occupancy, Catalog[k]))
  }

  /** Being selected is being the first best catalog entry. */
  lemma SelectedIffFirstBest(occupancy: Shape -> seq<Pos>, k: nat)
    requires k < |Catalog|
    ensures Selected(occupancy, k) <==> FirstBest(occupancy, k)
  {
    MeasurementsUpToFacts(occupancy, |Catalog|);
  }

  /** At most one catalog entry is selected. */
  lemma SelectedUnique(occupancy: Shape -> seq<Pos>, k1: nat, k2: nat)
    requires Selected(occupancy, k1) && Selected(occupancy, k2)
    ensures k1 == k2
  {
    LeadsUnique(MeasurementsUpTo(occupancy, |Catalog|), k1, k2);
  }

  predicate IsExpectedSize(img: Image) {
    img.width == ExpectedSide && img.height == ExpectedSide
  }

  /** The grid `detect_grid` returns: rows, columns and occupied count. */
  datatype Grid = Grid(rows: nat, cols: nat, frameCount: nat)

  /** The fallback `(1, 1, 1)`. */
  const SingleCell: Grid := Grid(1, 1, 1)

  /** What the catalog loop settles on for a 1024 x 1024 sheet. */
  function ChosenGrid(occupancy: Shape -> seq<Pos>): Grid {
    var ms := MeasurementsUpTo(occupancy, |Catalog|);
    match Chosen(ms)
    case None => SingleCell
    case Some(k) => Grid(ms[k].shape.rows, ms[k].shape.cols, ms[k].frames)
  }

  /**
   * The catalog loop answers (1, 1, 1) exactly when no catalog grid
   * qualifies; otherwise it answers the selected catalog grid with its
   * occupied count, which lies in 4..25.
   */
  lemma ChosenGridSpec(occupancy: Shape -> seq<Pos>)
    ensures ChosenGrid(occupancy) == SingleCell <==>
      forall k :: 0 <= k < |Catalog| ==> !Qualifies(occupancy, Catalog[k])
    ensures (exists k :: 0 <= k < |Catalog| && Qualifies(occupancy, Catalog[k])) ==>
      exists k :: 0 <= k < |Catalog| && Selected(occupancy, k) &&
        Catalog[k] == Shape(ChosenGrid(occupancy).rows, ChosenGrid(occupancy).cols) &&
        ChosenGrid(occupancy).frameCount == FrameCount(occupancy, Catalog[k]) &&
        MinFrames <= ChosenGrid(occupancy).frameCount <= MaxFrames
  {
    CatalogShapesValid();
    var ms := MeasurementsUpTo(occupancy, |Catalog|);
    MeasurementsUpToFacts(occupancy, |Catalog|);
    ChosenIsLeader(ms);
    match Chosen(ms)
    case None =>
      forall k | 0 <= k < |Catalog|
        ensures !Qualifies(occupancy, Catalog[k])
      {
        assert ms[k] == Measure(occupancy, Catalog[k]);
      }
    case Some(k) =>
      assert ms[k] == Measure(occupancy, Catalog[k]);
      assert Selected(occupancy, k);
  }

  /**
   * One pass of the catalog loop before the comparison: the occupied count
   * of `shape` and the score built from its continuity.
   */
  method MeasureShape(img: Image, shape: Shape, background: Pixel) returns (frames: nat, score: real)
    requires img.Valid() && ValidShape(shape) && background == BackgroundColor(img)
    ensures Measurement(shape, frames, score) == MeasureCells(shape, OccupiedCells(SheetScan(img, shape)))
    ensures frames as real <= score < frames as real + 1.0
  {
    var positions;
    frames, positions := CountOccupiedFrames(img, shape.rows, shape.cols, background, DefaultThreshold);
    var continuity := ContinuityScore(positions);
    score := Score(frames, continuity);
    ScoreBounds(frames, continuity);
  }

  /**
   * `detect_grid`: (1, 1, 1) for a sheet that is not 1024 x 1024; otherwise
   * the catalog loop.
   */
  method DetectGrid(img: Image) returns (rows: nat, cols: nat, frameCount: nat)
    requires img.Valid()
    ensures !IsExpectedSize(img) ==> Grid(rows, cols, frameCount) == SingleCell
    ensures IsExpectedSize(img) ==> Grid(rows, cols, frameCount) == ChosenGrid(SheetOccupancy(img))
  {
    if img.width != ExpectedSide || img.height != ExpectedSide {
      rows, cols, frameCount := 1, 1, 1;
    } else {
      var background := BackgroundColor(img);
      rows, cols, frameCount := CatalogLoop(img, background, SheetOccupancy(img));
    }
  }

  /**
   * The catalog loop of `detect_grid`: measures each catalog grid in turn
   * and keeps the first strictly best qualifying one, with the (1, 1, 1)
   * fallback when none qualifies. `occupancy` names, for the proof, the
   * occupied cells the loop finds for each shape.
   */
  method CatalogLoop(img: Image, background: Pixel, ghost occupancy: Shape -> seq<Pos>)
    returns (rows: nat, cols: nat, frameCount: nat)
    requires img.Valid() && background == BackgroundColor(img)
    requires forall shape {:trigger OccupiedCells(SheetScan(img, shape))} :: ValidShape(shape) ==>
      occupancy(shape) == OccupiedCells(SheetScan(img, shape))
    ensures Grid(rows, cols, frameCount) == ChosenGrid(occupancy)
  {
    var bestGrid: Option<Shape> := None;
    var bestFrameCount: nat := 0;
    var bestScore: real := 0.0;
    var i := 0;
    while i < |Catalog|
      invariant i <= |Catalog|
      invariant Tracks(MeasurementsUpTo(occupancy, i), bestGrid, bestFrameCount, bestScore)
    {
      bestGrid, bestFrameCount, bestScore := VisitShape(img, background, occupancy, i, bestGrid, bestFrameCount, bestScore);
      i := i + 1;
    }
    if bestGrid.None? {
      rows, cols, frameCount := 1, 1, 1;
    } else {
      rows, cols, frameCount := bestGrid.value.rows, bestGrid.value.cols, bestFrameCount;
    }
  }

  /**
   * What the catalog loop holds after measuring `measured`: no grid and a
   * best score of 0 when no entry has qualified, and otherwise the shape,
   * count and score of the entry `Chosen` picks.
   */
  ghost predicate Tracks(measured: seq<Measurement>, bestGrid: Option<Shape>, bestFrameCount: nat, bestScore: real) {
    && (bestGrid.None? <==> Chosen(measured).None?)
    && (bestGrid.None? ==> bestScore == 0.0)
    && (bestGrid.Some? ==>
          var m := measured[Chosen(measured).value];
          bestGrid.value == m.shape && bestFrameCount == m.frames && bestScore == m.score)
  }

  /**
   * The body of the catalog loop for entry `i`: measures the shape, and if
   * its count is in 4..25 and its score beats the best so far strictly, it
   * replaces the best. With the score at least the count, the initial best
   * score of 0 is beaten by any shape in range, so the loop keeps the entry
   * `Chosen` picks.
   */
  method VisitShape(img: Image, background: Pixel, ghost occupancy: Shape -> seq<Pos>, i: nat,
                    bestGrid: Option<Shape>, bestFrameCount: nat, bestScore: real)
    returns (bestGrid': Option<Shape>, bestFrameCount': nat, bestScore': real)
    requires img.Valid() && background == BackgroundColor(img) && i < |Catalog|
    requires forall shape {:trigger OccupiedCells(SheetScan(img, shape))} :: ValidShape(shape) ==>
      occupancy(shape) == OccupiedCells(SheetScan(img, shape))
    requires Tracks(MeasurementsUpTo(occupancy, i), bestGrid, bestFrameCount, bestScore)
    ensures Tracks(MeasurementsUpTo(occupancy, i + 1), bestGrid', bestFrameCount', bestScore')
  {
    CatalogShapesValid();
    var shape := Catalog[i];
    var frames, score := MeasureShape(img, shape, background);
    ghost var m := Measurement(shape, frames, score);
    assert m == Measure(occupancy, shape);
    MeasurementsUpToSnoc(occupancy, i);
    ChosenSnoc(MeasurementsUpTo(occupancy, i), m);
    bestGrid', bestFrameCount', bestScore' := bestGrid, bestFrameCount, bestScore;
    if frames > 0 {
      if score > bestScore && MinFrames <= frames <= MaxFrames {
        bestGrid' := Some(shape);
        bestFrameCount' := frames;
        bestScore' := score;
      }
    }
  }

  /**
   * On a sheet of a single colour no grid of the catalog qualifies, so
   * `detect_grid` falls back to (1, 1, 1).
   */
  lemma UniformSheetQualifiesNowhere(img: Image)
    requires img.Valid()
    requires forall y, x :: 0 <= y < img.height && 0 <= x < img.width ==> img.pixels[y][x] == img.pixels[0][0]
    ensures forall k :: 0 <= k < |Catalog| ==> !Qualifies(SheetOccupancy(img), Catalog[k])
    ensures ChosenGrid(SheetOccupancy(img)) == SingleCell
  {
    CatalogShapesValid();
    forall k | 0 <= k < |Catalog|
      ensures !Qualifies(SheetOccupancy(img), Catalog[k])
    {
      UniformSheetHasNoOccupiedCells(SheetScan(img, Catalog[k]));
    }
    ChosenGridSpec(SheetOccupancy(img));
  }
}
