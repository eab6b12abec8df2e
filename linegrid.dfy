/**
 * The line-based variant of dataset-testing.py: `detect_grid` counts the
 * nearly horizontal and nearly vertical segments a line detector reports
 * and takes one more row and one more column than there are of each;
 * `save_frames` writes every cell of that grid, occupied or not.
 */
module LineGrid {
  import opened ImageModel
  import opened CellGeometry
  import opened FrameExtraction
  import GridSelection

  /** A detected segment from (x1, y1) to (x2, y2). */
  datatype Segment = Segment(x1: int, y1: int, x2: int, y2: int)

  /** A segment whose ends differ by fewer pixels than this counts as axis-parallel. */
  const LineTolerance: int := 10

  predicate IsHorizontal(s: Segment) {
    GridSelection.Abs(s.y1 - s.y2) < LineTolerance
  }

  /** Only a segment that is not horizontal is tested for being vertical. */
  predicate IsVertical(s: Segment) {
    !IsHorizontal(s) && GridSelection.Abs(s.x1 - s.x2) < LineTolerance
  }

  /** The segments of every reported line, line after line. */
  function Flatten(lines: seq<seq<Segment>>): seq<Segment>
    decreases |lines|
  {
    if |lines| == 0 then [] else Flatten(lines[..|lines| - 1]) + lines[|lines| - 1]
  }

  /** The horizontal segments of `ss`, in order. */
  function Horizontals(ss: seq<Segment>): seq<Segment>
    decreases |ss|
  {
    if |ss| == 0 then []
    else Horizontals(ss[..|ss| - 1]) + (if IsHorizontal(ss[|ss| - 1]) then [ss[|ss| - 1]] else [])
  }

  /** The vertical segments of `ss`, in order. */
  function Verticals(ss: seq<Segment>): seq<Segment>
    decreases |ss|
  {
    if |ss| == 0 then []
    else Verticals(ss[..|ss| - 1]) + (if IsVertical(ss[|ss| - 1]) then [ss[|ss| - 1]] else [])
  }

  /**
   * The two lists split the segments: a segment is in the horizontal list
   * exactly when it is a horizontal segment of `ss`, in the vertical list
   * exactly when it is a vertical one, never in both, and together the
   * lists are no longer than `ss`.
   */
  lemma {:induction false} ClassifiedSegments(ss: seq<Segment>)
    ensures forall s :: s in Horizontals(ss) <==> s in ss && IsHorizontal(s)
    ensures forall s :: s in Verticals(ss) <==> s in ss && IsVertical(s)
    ensures forall s :: !(s in Horizontals(ss) && s in Verticals(ss))
    ensures |Horizontals(ss)| + |Verticals(ss)| <= |ss|
    decreases |ss|
  {
    if |ss| > 0 {
      var init := ss[..|ss| - 1];
      ClassifiedSegments(init);
      assert ss == init + [ss[|ss| - 1]];
    }
  }

  /**
   * `detect_grid` after line detection: walks every segment of every line,
   * appends the horizontal ones to one list and the vertical ones to
   * another, and answers one more row than horizontal segments and one more
   * column than vertical ones.
   */
  method DetectGridByLines(lines: seq<seq<Segment>>) returns (rows: nat, cols: nat)
    ensures rows == |Horizontals(Flatten(lines))| + 1
    ensures cols == |Verticals(Flatten(lines))| + 1
  {
    var horizontalLines: seq<Segment> := [];
    var verticalLines: seq<Segment> := [];
    var i := 0;
    while i < |lines|
      invariant i <= |lines|
      invariant horizontalLines == Horizontals(Flatten(lines[..i]))
      invariant verticalLines == Verticals(Flatten(lines[..i]))
    {
      FlattenSnoc(lines, i);
      horizontalLines, verticalLines := ClassifyLine(lines[i], Flatten(lines[..i]), horizontalLines, verticalLines);
      i := i + 1;
    }
    assert lines[..i] == lines;
    rows := |horizontalLines| + 1;
    cols := |verticalLines| + 1;
  }

  /**
   * The inner loop of `detect_grid`: the segments of one reported line, each
   * appended to the horizontal list if it is horizontal and otherwise to the
   * vertical list if it is vertical. `seen` names the segments classified
   * before this line.
   */
  method ClassifyLine(line: seq<Segment>, ghost seen: seq<Segment>,
                      horizontalLines: seq<Segment>, verticalLines: seq<Segment>)
    returns (horizontalLines': seq<Segment>, verticalLines': seq<Segment>)
    requires horizontalLines == Horizontals(seen) && verticalLines == Verticals(seen)
    ensures horizontalLines' == Horizontals(seen + line) && verticalLines' == Verticals(seen + line)
  {
    horizontalLines', verticalLines' := horizontalLines, verticalLines;
    var j := 0;
    assert seen + line[..j] == seen;
    while j < |line|
      invariant j <= |line|
      invariant horizontalLines' == Horizontals(seen + line[..j])
      invariant verticalLines' == Verticals(seen + line[..j])
    {
      var s := line[j];
      ClassifySnoc(seen + line[..j], s);
      assert seen + line[..j + 1] == (seen + line[..j]) + [s];
      if GridSelection.Abs(s.y1 - s.y2) < LineTolerance {
        horizontalLines' := horizontalLines' + [s];
      } else if GridSelection.Abs(s.x1 - s.x2) < LineTolerance {
        verticalLines' := verticalLines' + [s];
      }
      j := j + 1;
    }
    assert line[..j] == line;
  }

  lemma FlattenSnoc(lines: seq<seq<Segment>>, i: nat)
    requires i < |lines|
    ensures Flatten(lines[..i + 1]) == Flatten(lines[..i]) + lines[i]
  {
    assert lines[..i + 1][..i] == lines[..i];
  }

  /** Classifying one more segment appends it to at most one of the two lists. */
  lemma ClassifySnoc(ss: seq<Segment>, s: Segment)
    ensures Horizontals(ss + [s]) == Horizontals(ss) + (if IsHorizontal(s) then [s] else [])
    ensures Verticals(ss + [s]) == Verticals(ss) + (if IsVertical(s) then [s] else [])
  {
    assert (ss + [s])[..|ss|] == ss;
  }

  /**
   * The grid has at least one row and one column, and no more rows and
   * columns together than segments plus two; with no segments it is 1 x 1.
   */
  lemma LineGridBounds(lines: seq<seq<Segment>>)
    ensures |Horizontals(Flatten(lines))| + 1 + |Verticals(Flatten(lines))| + 1 <= |Flatten(lines)| + 2
    ensures Flatten(lines) == [] ==> |Horizontals(Flatten(lines))| + 1 == 1 && |Verticals(Flatten(lines))| + 1 == 1
  {
    ClassifiedSegments(Flatten(lines));
  }

  /**
   * Cell `p` written as `frame_{row}_{col}.png`: the crop of the cell,
   * `height // rows` rows of `width // cols` pixels.
   */
  function CellFrame(img: Image, rows: nat, cols: nat, p: Pos): (f: SavedFrame)
    requires img.Valid() && rows > 0 && cols > 0 && InGrid(p, rows, cols)
    ensures f.name == AtCell(p.row, p.col)
    ensures |f.pixels| == img.height / rows && RowsOfWidth(f.pixels, img.width / cols)
  {
    CropFacts(img, CellBox(img.width, img.height, rows, cols, p));
    SavedFrame(AtCell(p.row, p.col), Crop(img, CellBox(img.width, img.height, rows, cols, p)))
  }

  /**
   * `save_frames` of the line-based variant: writes every cell of the grid,
   * row by row and column by column, under its row and column. The k-th
   * frame written is the cell the scan visits at step k, and every cell of
   * the grid is written at its scan number.
   */
  method SaveAllCells(img: Image, rows: nat, cols: nat) returns (saved: seq<SavedFrame>)
    requires img.Valid() && rows > 0 && cols > 0
    ensures |saved| == rows * cols
    ensures forall k :: 0 <= k < |saved| ==>
      InGrid(CellAt(cols, k), rows, cols) && saved[k] == CellFrame(img, rows, cols, CellAt(cols, k))
    ensures forall p :: InGrid(p, rows, cols) ==>
      CellIndex(cols, p) < |saved| && saved[CellIndex(cols, p)] == CellFrame(img, rows, cols, p)
  {
    saved := [];
    var row := 0;
    while row < rows
      invariant row <= rows
      invariant |saved| == row * cols
      invariant forall k :: 0 <= k < |saved| ==>
        InGrid(CellAt(cols, k), rows, cols) && saved[k] == CellFrame(img, rows, cols, CellAt(cols, k))
    {
      var col := 0;
      while col < cols
        invariant col <= cols
        invariant |saved| == row * cols + col
        invariant forall k :: 0 <= k < |saved| ==>
          InGrid(CellAt(cols, k), rows, cols) && saved[k] == CellFrame(img, rows, cols, CellAt(cols, k))
      {
        var p := Pos(row, col);
        CellIndexRoundTrip(rows, cols, p);
        var box := CellBox(img.width, img.height, rows, cols, p);
        var frame := Crop(img, box);
        saved := saved + [SavedFrame(AtCell(row, col), frame)];
        col := col + 1;
      }
      MulSuccLeft(row, cols);
      row := row + 1;
    }
    forall p | InGrid(p, rows, cols)
      ensures CellIndex(cols, p) < |saved| && saved[CellIndex(cols, p)] == CellFrame(img, rows, cols, p)
    {
      CellIndexRoundTrip(rows, cols, p);
    }
  }

  /** Different scan steps write different cells, hence different files. */
  lemma CellNamesDistinct(img: Image, rows: nat, cols: nat, i: nat, j: nat)
    requires img.Valid() && rows > 0 && cols > 0 && i < j < rows * cols
    ensures InGrid(CellAt(cols, i), rows, cols) && InGrid(CellAt(cols, j), rows, cols)
    ensures CellFrame(img, rows, cols, CellAt(cols, i)).name != CellFrame(img, rows, cols, CellAt(cols, j)).name
  {
    CellAtRoundTrip(rows, cols, i);
    CellAtRoundTrip(rows, cols, j);
  }
}
