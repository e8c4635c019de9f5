/** The pixel grid produced by rasterising a glyph, and the row-major list of
    its filled cells that every export walks. */
module Grid {

  /** Rows top to bottom, each row left to right; a non-zero cell is ink. */
  type Grid = seq<seq<int>>

  /** Column `x` and row `y` of one cell. */
  datatype Cell = Cell(x: nat, y: nat)

  /** Every row is as long as the grid is tall. */
  predicate IsSquare(g: Grid) {
    forall y :: 0 <= y < |g| ==> |g[y]| == |g|
  }

  /** The cell at column x of row y exists and is ink. */
  predicate Filled(g: Grid, x: nat, y: nat) {
    y < |g| && x < |g[y]| && g[y][x] != 0
  }

  /** Row-major order: an earlier row, or the same row and an earlier column. */
  predicate Before(a: Cell, b: Cell) {
    a.y < b.y || (a.y == b.y && a.x < b.x)
  }

  /** Strictly increasing in row-major order (so also free of repeats). */
  predicate RowMajor(cells: seq<Cell>) {
    forall i, j :: 0 <= i < j < |cells| ==> Before(cells[i], cells[j])
  }

  /** The ink cells among the first `w` columns of `row` (row number `y`),
      left to right, in the order a column loop meets them. */
  function RowFilled(row: seq<int>, y: nat, w: nat): seq<Cell>
    requires w <= |row|
  {
    if w == 0 then []
    else RowFilled(row, y, w - 1) + (if row[w - 1] != 0 then [Cell(w - 1, y)] else [])
  }

  /** The ink cells of the first `h` rows, in the order nested row/column loops meet them. */
  function FilledRows(g: Grid, h: nat): seq<Cell>
    requires h <= |g|
  {
    if h == 0 then [] else FilledRows(g, h - 1) + RowFilled(g[h - 1], h - 1, |g[h - 1]|)
  }

  /** The cells every export visits: a cell is listed exactly when it is ink,
      and the list is strictly row-major, so each ink cell appears once. */
  function FilledCells(g: Grid): (cells: seq<Cell>)
    ensures forall c :: c in cells <==> Filled(g, c.x, c.y)
    ensures RowMajor(cells)
  {
    FilledRowsSpec(g, |g|);
    FilledRows(g, |g|)
  }

  /** Cell-wise: every ink cell of `a` is an ink cell of `b`, on grids of one shape. */
  predicate Covers(a: Grid, b: Grid) {
    && |a| == |b|
    && (forall y :: 0 <= y < |a| ==> |a[y]| == |b[y]|)
    && (forall y, x :: 0 <= y < |a| && 0 <= x < |a[y]| && a[y][x] != 0 ==> b[y][x] != 0)
  }

  /** A row prefix lists exactly its ink columns, left to right. */
  lemma {:induction false} RowFilledSpec(row: seq<int>, y: nat, w: nat)
    requires w <= |row|
    ensures forall c :: c in RowFilled(row, y, w) <==> c.y == y && c.x < w && row[c.x] != 0
    ensures RowMajor(RowFilled(row, y, w))
  {
    if w > 0 {
      RowFilledSpec(row, y, w - 1);
    }
  }

  /** A prefix of rows lists exactly its ink cells, in row-major order. */
  lemma {:induction false} FilledRowsSpec(g: Grid, h: nat)
    requires h <= |g|
    ensures forall c :: c in FilledRows(g, h) <==> c.y < h && Filled(g, c.x, c.y)
    ensures RowMajor(FilledRows(g, h))
  {
    if h > 0 {
      FilledRowsSpec(g, h - 1);
      RowFilledSpec(g[h - 1], h - 1, |g[h - 1]|);
      var front, last := FilledRows(g, h - 1), RowFilled(g[h - 1], h - 1, |g[h - 1]|);
      assert forall i :: 0 <= i < |front| ==> front[i] in front;
      assert forall j :: 0 <= j < |last| ==> last[j] in last;
    }
  }

  /** A grid with no ink cell yields no cells at all. */
  lemma NoInkNoCells(g: Grid)
    requires forall y, x :: 0 <= y < |g| && 0 <= x < |g[y]| ==> g[y][x] == 0
    ensures FilledCells(g) == []
  {
    NoInkNoRows(g, |g|);
  }

  lemma {:induction false} NoInkNoRows(g: Grid, h: nat)
    requires h <= |g|
    requires forall y, x :: 0 <= y < |g| && 0 <= x < |g[y]| ==> g[y][x] == 0
    ensures FilledRows(g, h) == []
  {
    if h > 0 {
      NoInkNoRows(g, h - 1);
      NoInkNoColumns(g[h - 1], h - 1, |g[h - 1]|);
    }
  }

  lemma {:induction false} NoInkNoColumns(row: seq<int>, y: nat, w: nat)
    requires w <= |row|
    requires forall x :: 0 <= x < |row| ==> row[x] == 0
    ensures RowFilled(row, y, w) == []
  {
    if w > 0 {
      NoInkNoColumns(row, y, w - 1);
    }
  }

  lemma {:induction false} RowFilledCovers(a: seq<int>, b: seq<int>, y: nat, w: nat)
    requires w <= |a| == |b|
    requires forall x :: 0 <= x < |a| && a[x] != 0 ==> b[x] != 0
    ensures |RowFilled(a, y, w)| <= |RowFilled(b, y, w)|
  {
    if w > 0 {
      RowFilledCovers(a, b, y, w - 1);
    }
  }

  lemma {:induction false} FilledRowsCovers(a: Grid, b: Grid, h: nat)
    requires Covers(a, b) && h <= |a|
    ensures |FilledRows(a, h)| <= |FilledRows(b, h)|
  {
    if h > 0 {
      FilledRowsCovers(a, b, h - 1);
      RowFilledCovers(a[h - 1], b[h - 1], h - 1, |a[h - 1]|);
    }
  }

  /** More ink cell-wise means at least as many listed cells. */
  lemma CoversCount(a: Grid, b: Grid)
    requires Covers(a, b)
    ensures |FilledCells(a)| <= |FilledCells(b)|
  {
    FilledRowsCovers(a, b, |a|);
  }
}
