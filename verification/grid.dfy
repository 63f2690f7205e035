/**
  The grid model of the Game of Life engine: a grid is a row-major matrix of
  cells, `true` meaning alive. The engine never mutates a grid; every edit
  returns a new value.

  The engine accepts any matrix, rectangular or not: its column count is the
  length of row 0 (0 for a grid without rows), and a read past the end of a
  shorter row yields a dead cell. `LiveAt` captures exactly that reading rule.
 */
module GridModel {

  type Grid = seq<seq<bool>>

  function Rows(g: Grid): nat {
    |g|
  }

  /** The column count is taken from the first row, or 0 when there is none. */
  function Cols(g: Grid): nat {
    if |g| == 0 then 0 else |g[0]|
  }

  /** Every row has the length of row 0. */
  predicate IsRect(g: Grid) {
    forall i :: 0 <= i < |g| ==> |g[i]| == Cols(g)
  }

  /** (r, c) lies inside `[0, Rows) x [0, Cols)`. */
  predicate InBounds(g: Grid, r: int, c: int) {
    0 <= r < Rows(g) && 0 <= c < Cols(g)
  }

  /** The cell (r, c) counts as a live neighbour: it is in bounds and holds
      `true`; a position past the end of its own row reads as dead. */
  predicate LiveAt(g: Grid, r: int, c: int) {
    InBounds(g, r, c) && c < |g[r]| && g[r][c]
  }

  /** (r, c) is a cell that the grid actually stores. */
  predicate HasCell(g: Grid, r: int, c: int) {
    0 <= r < |g| && 0 <= c < |g[r]|
  }

  /** Two grids have the same shape: same number of rows, row by row the same length. */
  predicate SameShape(a: Grid, b: Grid) {
    |a| == |b| && forall i :: 0 <= i < |a| ==> |a[i]| == |b[i]|
  }

  /** An all-dead grid of `rows` rows of `cols` cells; a negative size gives
      an empty dimension, as an array of negative length is empty. */
  function CreateEmptyGrid(rows: int, cols: int): (g: Grid)
    ensures |g| == if rows < 0 then 0 else rows
    ensures forall i :: 0 <= i < |g| ==> |g[i]| == if cols < 0 then 0 else cols
    ensures forall i, j :: HasCell(g, i, j) ==> !g[i][j]
    ensures IsRect(g)
  {
    var width := if cols < 0 then 0 else cols;
    seq(if rows < 0 then 0 else rows, _ => seq(width, _ => false))
  }

  /** The grid with the single cell (row, col) set to `alive`; rows other
      than `row` and cells other than `col` in that row are copied as they
      are. A position the grid does not store changes nothing. */
  function SetCell(g: Grid, row: int, col: int, alive: bool): (r: Grid)
    ensures SameShape(r, g)
    ensures IsRect(g) ==> IsRect(r) && Cols(r) == Cols(g)
    ensures HasCell(g, row, col) ==> r[row][col] == alive
    ensures forall i, j :: HasCell(g, i, j) && (i != row || j != col) ==> r[i][j] == g[i][j]
  {
    seq(|g|, i requires 0 <= i < |g| =>
      if i != row then g[i]
      else seq(|g[i]|, j requires 0 <= j < |g[i]| => if j == col then alive else g[i][j]))
  }

  /** Two grids of the same shape that agree on every stored cell are equal. */
  lemma SameCellsEqual(a: Grid, b: Grid)
    requires SameShape(a, b)
    requires forall i, j :: HasCell(a, i, j) ==> a[i][j] == b[i][j]
    ensures a == b
  {
    forall i | 0 <= i < |a|
      ensures a[i] == b[i]
    {
      assert forall j :: 0 <= j < |a[i]| ==> a[i][j] == b[i][j] by {
        forall j | 0 <= j < |a[i]| ensures a[i][j] == b[i][j] {
          assert HasCell(a, i, j);
        }
      }
    }
  }

  /** An edit at a position the grid does not store returns the grid unchanged. */
  lemma SetCellOutOfRange(g: Grid, row: int, col: int, alive: bool)
    requires !HasCell(g, row, col)
    ensures SetCell(g, row, col, alive) == g
  {
    SameCellsEqual(SetCell(g, row, col, alive), g);
  }

  /** Setting a cell twice to the same value is the same as setting it once. */
  lemma SetCellIdempotent(g: Grid, row: int, col: int, alive: bool)
    ensures SetCell(SetCell(g, row, col, alive), row, col, alive) == SetCell(g, row, col, alive)
  {
    SetCellLastWins(g, row, col, alive, alive);
  }

  /** A second edit of the same cell overrides the first. */
  lemma SetCellLastWins(g: Grid, row: int, col: int, first: bool, second: bool)
    ensures SetCell(SetCell(g, row, col, first), row, col, second) == SetCell(g, row, col, second)
  {
    var once := SetCell(g, row, col, second);
    var twice := SetCell(SetCell(g, row, col, first), row, col, second);
    SameCellsEqual(twice, once);
  }

  /** Writing the value a cell already holds returns the grid unchanged. */
  lemma SetCellSameValue(g: Grid, row: int, col: int)
    requires HasCell(g, row, col)
    ensures SetCell(g, row, col, g[row][col]) == g
  {
    SameCellsEqual(SetCell(g, row, col, g[row][col]), g);
  }

  /** Edits of two different cells can be applied in either order. */
  lemma SetCellCommutes(g: Grid, r1: int, c1: int, a1: bool, r2: int, c2: int, a2: bool)
    requires r1 != r2 || c1 != c2
    ensures SetCell(SetCell(g, r1, c1, a1), r2, c2, a2) == SetCell(SetCell(g, r2, c2, a2), r1, c1, a1)
  {
    SameCellsEqual(SetCell(SetCell(g, r1, c1, a1), r2, c2, a2), SetCell(SetCell(g, r2, c2, a2), r1, c1, a1));
  }
}
