/**
 * How a grid shape of `rows` x `cols` cuts an image into equally sized cells:
 * `frame_width = img_width // cols`, `frame_height = img_height // rows`, and
 * cell (row, col) is the box from (col * frame_width, row * frame_height) to
 * ((col + 1) * frame_width, (row + 1) * frame_height). Both scripts use this
 * partition.
 */
module CellGeometry {
  import opened ImageModel

  /** A grid cell, by row and column. */
  datatype Pos = Pos(row: nat, col: nat)

  /** `p` is a cell of a grid of `rows` x `cols` cells. */
  predicate InGrid(p: Pos, rows: nat, cols: nat) {
    p.row < rows && p.col < cols
  }

  /** Strict row-major order: a row-by-row, column-by-column scan visits `p` before `q`. */
  predicate Before(p: Pos, q: Pos) {
    p.row < q.row || (p.row == q.row && p.col < q.col)
  }

  /** The crop box of cell `p` of an image of `width` x `height` pixels. */
  function CellBox(width: nat, height: nat, rows: nat, cols: nat, p: Pos): (b: Box)
    requires rows > 0 && cols > 0
    ensures b.right - b.left == width / cols && b.bottom - b.top == height / rows
    ensures InGrid(p, rows, cols) ==> b.Inside(width, height)
  {
    var fw := width / cols;
    var fh := height / rows;
    var b := Box(p.col * fw, p.row * fh, (p.col + 1) * fw, (p.row + 1) * fh);
    assert InGrid(p, rows, cols) ==> b.Inside(width, height) by {
      FloorTimes(width, cols);
      FloorTimes(height, rows);
      if InGrid(p, rows, cols) {
        MulMono(p.col + 1, cols, fw);
        MulMono(p.row + 1, rows, fh);
      }
    }
    b
  }

  /**
   * A point inside some cell lies in the covered region
   * [0, cols * frame_width) x [0, rows * frame_height), and dividing its
   * coordinates by the cell size gives back that cell: a point lies in one
   * cell only.
   */
  lemma {:induction false} CellOfPoint(width: nat, height: nat, rows: nat, cols: nat, p: Pos, x: int, y: int)
    requires rows > 0 && cols > 0 && InGrid(p, rows, cols)
    requires CellBox(width, height, rows, cols, p).Contains(x, y)
    ensures width / cols > 0 && height / rows > 0
    ensures 0 <= x < cols * (width / cols) && 0 <= y < rows * (height / rows)
    ensures x / (width / cols) == p.col && y / (height / rows) == p.row
  {
    var fw, fh := width / cols, height / rows;
    MulMono(p.col + 1, cols, fw);
    MulMono(p.row + 1, rows, fh);
    DivOfBand(x, p.col, fw);
    DivOfBand(y, p.row, fh);
  }

  /**
   * Every point of the covered region [0, cols * frame_width) x
   * [0, rows * frame_height) lies in a cell of the grid: the cells cover it.
   */
  lemma {:induction false} PointInCell(width: nat, height: nat, rows: nat, cols: nat, x: int, y: int)
    requires rows > 0 && cols > 0
    requires 0 <= x < cols * (width / cols) && 0 <= y < rows * (height / rows)
    ensures width / cols > 0 && height / rows > 0
    ensures InGrid(Pos(y / (height / rows), x / (width / cols)), rows, cols)
    ensures CellBox(width, height, rows, cols, Pos(y / (height / rows), x / (width / cols))).Contains(x, y)
  {
    var fw, fh := width / cols, height / rows;
    PositiveFactor(cols, fw, x);
    PositiveFactor(rows, fh, y);
    DivBelow(x, fw, cols);
    DivBelow(y, fh, rows);
    DivBand(x, fw);
    DivBand(y, fh);
  }

  /** Two different cells of the grid share no pixel. */
  lemma CellsDisjoint(width: nat, height: nat, rows: nat, cols: nat, p: Pos, q: Pos, x: int, y: int)
    requires rows > 0 && cols > 0 && InGrid(p, rows, cols) && InGrid(q, rows, cols)
    requires p != q
    ensures !(CellBox(width, height, rows, cols, p).Contains(x, y) &&
              CellBox(width, height, rows, cols, q).Contains(x, y))
  {
    if CellBox(width, height, rows, cols, p).Contains(x, y) &&
       CellBox(width, height, rows, cols, q).Contains(x, y) {
      CellOfPoint(width, height, rows, cols, p, x, y);
      CellOfPoint(width, height, rows, cols, q, x, y);
    }
  }

  /**
   * Floor division drops fewer than `cols` trailing columns and fewer than
   * `rows` trailing rows of pixels from the partition.
   */
  lemma DroppedMargin(width: nat, height: nat, rows: nat, cols: nat)
    requires rows > 0 && cols > 0
    ensures 0 <= width - cols * (width / cols) < cols
    ensures 0 <= height - rows * (height / rows) < rows
  {
  }

  /** Position of cell `p` in the row-major scan of a grid with `cols` columns. */
  function CellIndex(cols: nat, p: Pos): nat {
    p.row * cols + p.col
  }

  /** The cell the row-major scan visits at step `k`. */
  function CellAt(cols: nat, k: nat): Pos
    requires cols > 0
  {
    Pos(k / cols, k % cols)
  }

  /** Numbering the cells in scan order and looking the number up again gives back the cell. */
  lemma {:induction false} CellIndexRoundTrip(rows: nat, cols: nat, p: Pos)
    requires InGrid(p, rows, cols)
    ensures CellIndex(cols, p) < rows * cols
    ensures CellAt(cols, CellIndex(cols, p)) == p
  {
    MulMono(p.row + 1, rows, cols);
    DivOfBand(CellIndex(cols, p), p.row, cols);
  }

  /** Every step of the scan visits a cell of the grid, and its number is that step. */
  lemma {:induction false} CellAtRoundTrip(rows: nat, cols: nat, k: nat)
    requires cols > 0 && k < rows * cols
    ensures InGrid(CellAt(cols, k), rows, cols)
    ensures CellIndex(cols, CellAt(cols, k)) == k
  {
    DivBelow(k, cols, rows);
  }

  /** Row-major order is the order of the scan numbers. */
  lemma BeforeIsIndexOrder(rows: nat, cols: nat, p: Pos, q: Pos)
    requires InGrid(p, rows, cols) && InGrid(q, rows, cols)
    ensures Before(p, q) <==> CellIndex(cols, p) < CellIndex(cols, q)
  {
    if p.row < q.row {
      EarlierRowLowerIndex(cols, p, q);
    } else if q.row < p.row {
      EarlierRowLowerIndex(cols, q, p);
    }
  }

  lemma EarlierRowLowerIndex(cols: nat, p: Pos, q: Pos)
    requires p.row < q.row && p.col < cols
    ensures CellIndex(cols, p) < CellIndex(cols, q)
  {
    MulSuccLeft(p.row, cols);
    MulMono(p.row + 1, q.row, cols);
  }

  /** The cells among columns 0..n-1 of `row` that `keep` accepts, left to right. */
  function KeptInRow(keep: Pos -> bool, row: nat, n: nat): seq<Pos>
    decreases n
  {
    if n == 0 then []
    else KeptInRow(keep, row, n - 1) + (if keep(Pos(row, n - 1)) then [Pos(row, n - 1)] else [])
  }

  /**
   * The cells of rows 0..m-1 of a grid with `cols` columns that `keep`
   * accepts, in the order of a row-by-row, column-by-column scan.
   */
  function KeptInRows(keep: Pos -> bool, cols: nat, m: nat): seq<Pos>
    decreases m
  {
    if m == 0 then [] else KeptInRows(keep, cols, m - 1) + KeptInRow(keep, m - 1, cols)
  }

  lemma {:induction false} KeptInRowFacts(keep: Pos -> bool, row: nat, n: nat)
    ensures |KeptInRow(keep, row, n)| <= n
    ensures forall i :: 0 <= i < |KeptInRow(keep, row, n)| ==>
      var p := KeptInRow(keep, row, n)[i];
      p.row == row && p.col < n && keep(p)
    ensures forall c :: 0 <= c < n && keep(Pos(row, c)) ==> Pos(row, c) in KeptInRow(keep, row, n)
    ensures forall i, j :: 0 <= i < j < |KeptInRow(keep, row, n)| ==>
      KeptInRow(keep, row, n)[i].col < KeptInRow(keep, row, n)[j].col
    decreases n
  {
    if n > 0 {
      KeptInRowFacts(keep, row, n - 1);
    }
  }

  /**
   * The row-major scan lists exactly the accepted cells of the grid's first
   * `m` rows, each once, in strictly increasing row-major order.
   */
  lemma {:induction false} KeptInRowsFacts(keep: Pos -> bool, rows: nat, cols: nat, m: nat)
    requires m <= rows
    ensures |KeptInRows(keep, cols, m)| <= m * cols
    ensures forall i :: 0 <= i < |KeptInRows(keep, cols, m)| ==>
      var p := KeptInRows(keep, cols, m)[i];
      p.row < m && InGrid(p, rows, cols) && keep(p)
    ensures forall p: Pos :: p.row < m && InGrid(p, rows, cols) && keep(p) ==> p in KeptInRows(keep, cols, m)
    ensures forall i, j :: 0 <= i < j < |KeptInRows(keep, cols, m)| ==>
      Before(KeptInRows(keep, cols, m)[i], KeptInRows(keep, cols, m)[j])
    decreases m
  {
    if m > 0 {
      KeptInRowsFacts(keep, rows, cols, m - 1);
      KeptInRowFacts(keep, m - 1, cols);
      var prev := KeptInRows(keep, cols, m - 1);
      var last := KeptInRow(keep, m - 1, cols);
      var all := KeptInRows(keep, cols, m);
      assert all == prev + last;
      assert |all| <= m * cols by {
        MulSuccLeft(m - 1, cols);
      }
      forall i, j | 0 <= i < j < |all|
        ensures Before(all[i], all[j])
      {
        if j < |prev| {
          assert all[i] == prev[i] && all[j] == prev[j];
        } else if i >= |prev| {
          assert all[i] == last[i - |prev|] && all[j] == last[j - |prev|];
        } else {
          assert all[i] == prev[i] && all[j] == last[j - |prev|];
        }
      }
      forall p: Pos | p.row < m && InGrid(p, rows, cols) && keep(p)
        ensures p in prev + last
      {
        if p.row == m - 1 {
          assert p == Pos(m - 1, p.col);
          assert p in last;
        } else {
          assert p in prev;
        }
      }
    }
  }

  /** A scan that accepts no cell of the grid lists nothing. */
  lemma {:induction false} KeptInRowsNone(keep: Pos -> bool, rows: nat, cols: nat, m: nat)
    requires m <= rows
    requires forall p: Pos :: InGrid(p, rows, cols) ==> !keep(p)
    ensures KeptInRows(keep, cols, m) == []
    decreases m
  {
    if m > 0 {
      KeptInRowsNone(keep, rows, cols, m - 1);
      KeptInRowNone(keep, m - 1, rows, cols, cols);
    }
  }

  lemma {:induction false} KeptInRowNone(keep: Pos -> bool, row: nat, rows: nat, cols: nat, n: nat)
    requires row < rows && n <= cols
    requires forall p: Pos :: InGrid(p, rows, cols) ==> !keep(p)
    ensures KeptInRow(keep, row, n) == []
    decreases n
  {
    if n > 0 {
      KeptInRowNone(keep, row, rows, cols, n - 1);
      assert InGrid(Pos(row, n - 1), rows, cols);
    }
  }

  /** Scanning fewer columns of a row yields a prefix of what scanning more yields. */
  lemma {:induction false} KeptInRowPrefix(keep: Pos -> bool, row: nat, n: nat, n': nat)
    requires n <= n'
    ensures KeptInRow(keep, row, n) <= KeptInRow(keep, row, n')
    decreases n' - n
  {
    if n < n' {
      KeptInRowPrefix(keep, row, n, n' - 1);
    }
  }

  /** Scanning fewer rows yields a prefix of what scanning more rows yields. */
  lemma {:induction false} KeptInRowsPrefix(keep: Pos -> bool, cols: nat, m: nat, m': nat)
    requires m <= m'
    ensures KeptInRows(keep, cols, m) <= KeptInRows(keep, cols, m')
    decreases m' - m
  {
    if m < m' {
      KeptInRowsPrefix(keep, cols, m, m' - 1);
    }
  }

  /**
   * How many of `n` candidates a scan takes when it stops as soon as it has
   * taken `limit`: `min(n, limit)`, and none when `limit` is not positive.
   */
  function Capped(n: nat, limit: int): (r: nat)
    ensures r <= n
    ensures limit >= 0 ==> r <= limit
    ensures limit >= n ==> r == n
    ensures limit <= 0 ==> r == 0
    ensures 0 < limit < n ==> r == limit
  {
    if limit <= 0 then 0 else if n <= limit then n else limit
  }

  /** The first `Capped(|xs|, limit)` entries of `xs`. */
  function FirstOf(xs: seq<Pos>, limit: int): (r: seq<Pos>)
    ensures |r| == Capped(|xs|, limit) && r <= xs
  {
    xs[..Capped(|xs|, limit)]
  }

  /** While fewer than `limit` have been taken, taking one more is appending it. */
  lemma FirstOfGrows(xs: seq<Pos>, ys: seq<Pos>, limit: int)
    requires |xs| < limit && |ys| <= 1
    ensures FirstOf(xs, limit) == xs
    ensures FirstOf(xs + ys, limit) == xs + ys
  {
  }

  /** Once `limit` entries have been taken, what follows changes nothing. */
  lemma FirstOfSettled(xs: seq<Pos>, ys: seq<Pos>, limit: int)
    requires xs <= ys
    requires xs == ys || |FirstOf(xs, limit)| >= limit
    ensures FirstOf(ys, limit) == FirstOf(xs, limit)
  {
  }

  /**
   * The row-by-row, column-by-column scan of a `rows` x `cols` grid that
   * counts and lists the cells `keep` accepts.
   */
  method ScanCells(keep: Pos -> bool, rows: nat, cols: nat) returns (count: nat, kept: seq<Pos>)
    ensures kept == KeptInRows(keep, cols, rows)
    ensures count == |kept|
  {
    count := 0;
    kept := [];
    var row := 0;
    while row < rows
      invariant row <= rows
      invariant kept == KeptInRows(keep, cols, row)
      invariant count == |kept|
    {
      var col := 0;
      while col < cols
        invariant col <= cols
        invariant kept == KeptInRows(keep, cols, row) + KeptInRow(keep, row, col)
        invariant count == |kept|
      {
        if keep(Pos(row, col)) {
          count := count + 1;
          kept := kept + [Pos(row, col)];
        }
        col := col + 1;
      }
      row := row + 1;
    }
  }

  /**
   * The same scan, except that each row's inner loop breaks as soon as
   * `limit` cells have been taken: what it takes is the first
   * `Capped(n, limit)` of the `n` cells the full scan lists.
   */
  method ScanFirstCells(keep: Pos -> bool, rows: nat, cols: nat, limit: int) returns (count: nat, kept: seq<Pos>)
    ensures kept == FirstOf(KeptInRows(keep, cols, rows), limit)
    ensures count == |kept|
  {
    count := 0;
    kept := [];
    var row := 0;
    while row < rows
      invariant row <= rows
      invariant kept == FirstOf(KeptInRows(keep, cols, row), limit)
      invariant count == |kept|
    {
      ghost var done := KeptInRows(keep, cols, row);
      var col := 0;
      while col < cols
        invariant col <= cols
        invariant kept == FirstOf(done + KeptInRow(keep, row, col), limit)
        invariant count == |kept|
      {
        if count >= limit {
          break;
        }
        ghost var seen := done + KeptInRow(keep, row, col);
        ghost var step := if keep(Pos(row, col)) then [Pos(row, col)] else [];
        AppendAssoc(done, KeptInRow(keep, row, col), step);
        FirstOfGrows(seen, step, limit);
        if keep(Pos(row, col)) {
          count := count + 1;
          kept := kept + [Pos(row, col)];
        }
        col := col + 1;
      }
      KeptInRowPrefix(keep, row, col, cols);
      FirstOfSettled(done + KeptInRow(keep, row, col), KeptInRows(keep, cols, row + 1), limit);
      row := row + 1;
    }
  }

  // Arithmetic helpers.

  lemma MulMono(a: int, b: int, k: nat)
    requires a <= b
    ensures a * k <= b * k
  {
  }

  lemma MulSuccLeft(a: int, k: int)
    ensures (a + 1) * k == a * k + k
  {
  }

  lemma AppendAssoc<T>(a: seq<T>, b: seq<T>, c: seq<T>)
    ensures (a + b) + c == a + (b + c)
  {
  }

  lemma FloorTimes(n: nat, d: nat)
    requires d > 0
    ensures d * (n / d) <= n
  {
  }

  lemma PositiveFactor(a: nat, b: nat, x: int)
    requires 0 <= x < a * b
    ensures b > 0
  {
  }

  lemma DivBand(x: int, f: int)
    requires f > 0
    ensures (x / f) * f <= x < (x / f + 1) * f
  {
  }

  lemma DivOfBand(x: int, c: int, f: int)
    requires f > 0 && c * f <= x < (c + 1) * f
    ensures x / f == c
  {
    var q := x / f;
    DivBand(x, f);
    if q < c {
      MulMono(q + 1, c, f);
    } else if q > c {
      MulMono(c + 1, q, f);
    }
  }

  lemma DivBelow(x: int, f: int, n: int)
    requires f > 0 && 0 <= x < n * f
    ensures 0 <= x / f < n
  {
    var q := x / f;
    DivBand(x, f);
    PositiveMultiple(q + 1, f);
    SmallerMultiple(q, n, f);
  }

  lemma PositiveMultiple(a: int, f: int)
    requires f > 0 && a * f > 0
    ensures a > 0
  {
  }

  lemma SmallerMultiple(a: int, b: int, f: int)
    requires f > 0 && a * f < b * f
    ensures a < b
  {
  }

}
