/**
  The neighbour counter: how many of the eight cells around (row, col) are
  alive, with planar edges (a neighbour outside the grid is not counted).

  `CountLiveNeighbors` follows the engine's nested loops: it visits the nine
  positions of the 3 x 3 window in row-major order, skips the centre, and adds
  one for each live in-bounds cell. `LiveNeighbours` is an independent
  description of the same quantity, the set of live adjacent cells, and
  `CountIsLiveNeighbourCard` proves the two agree.
 */
module Neighbours {
  import opened GridModel

  /** Window position k, for k in 0..8, is the k-th offset the loops visit:
      the outer loop runs the row offset from -1 to 1, the inner loop the
      column offset from -1 to 1. */
  function RowOffset(k: int): int {
    k / 3 - 1
  }

  function ColOffset(k: int): int {
    k % 3 - 1
  }

  /** The window position of offset (0, 0), the cell itself. */
  const Centre: nat := 4

  /** Window position k holds a neighbour that the counter adds. */
  predicate Counted(g: Grid, row: int, col: int, k: int) {
    k != Centre && LiveAt(g, row + RowOffset(k), col + ColOffset(k))
  }

  /** 1 for true, 0 for false. */
  function Bit(b: bool): nat {
    if b then 1 else 0
  }

  /** The running count after the loops have visited the first k window positions. */
  function CountUpTo(g: Grid, row: int, col: int, k: nat): (n: nat)
    requires k <= 9
    ensures n <= if k <= Centre then k else k - 1
  {
    if k == 0 then 0
    else CountUpTo(g, row, col, k - 1) + Bit(Counted(g, row, col, k - 1))
  }

  /** The number of live cells among the eight neighbours of (row, col). */
  function CountLiveNeighbors(g: Grid, row: int, col: int): (n: nat)
    ensures n <= 8
  {
    CountUpTo(g, row, col, 9)
  }

  /** The count written out as the sum over the eight offsets, in loop order. */
  lemma CountUnrolled(g: Grid, row: int, col: int)
    ensures CountLiveNeighbors(g, row, col)
         == Bit(LiveAt(g, row - 1, col - 1)) + Bit(LiveAt(g, row - 1, col)) + Bit(LiveAt(g, row - 1, col + 1))
          + Bit(LiveAt(g, row, col - 1))                                      + Bit(LiveAt(g, row, col + 1))
          + Bit(LiveAt(g, row + 1, col - 1)) + Bit(LiveAt(g, row + 1, col)) + Bit(LiveAt(g, row + 1, col + 1))
  {
    assert CountUpTo(g, row, col, 1) == CountUpTo(g, row, col, 0) + Bit(Counted(g, row, col, 0));
    assert CountUpTo(g, row, col, 2) == CountUpTo(g, row, col, 1) + Bit(Counted(g, row, col, 1));
    assert CountUpTo(g, row, col, 3) == CountUpTo(g, row, col, 2) + Bit(Counted(g, row, col, 2));
    assert CountUpTo(g, row, col, 4) == CountUpTo(g, row, col, 3) + Bit(Counted(g, row, col, 3));
    assert CountUpTo(g, row, col, 5) == CountUpTo(g, row, col, 4) + Bit(Counted(g, row, col, 4));
    assert CountUpTo(g, row, col, 6) == CountUpTo(g, row, col, 5) + Bit(Counted(g, row, col, 5));
    assert CountUpTo(g, row, col, 7) == CountUpTo(g, row, col, 6) + Bit(Counted(g, row, col, 6));
    assert CountUpTo(g, row, col, 8) == CountUpTo(g, row, col, 7) + Bit(Counted(g, row, col, 7));
    assert CountUpTo(g, row, col, 9) == CountUpTo(g, row, col, 8) + Bit(Counted(g, row, col, 8));
  }

  /** (r, c) is one of the eight cells around (row, col). */
  predicate Adjacent(row: int, col: int, r: int, c: int) {
    row - 1 <= r <= row + 1 && col - 1 <= c <= col + 1 && (r != row || c != col)
  }

  /** The live cells adjacent to (row, col), as a set of positions. */
  ghost function LiveNeighbours(g: Grid, row: int, col: int): set<(int, int)> {
    set r, c | row - 1 <= r <= row + 1 && col - 1 <= c <= col + 1 && Adjacent(row, col, r, c) && LiveAt(g, r, c) :: (r, c)
  }

  /** The cells the counter has added after visiting the first k window positions. */
  ghost function FoundUpTo(g: Grid, row: int, col: int, k: int): set<(int, int)> {
    set i | 0 <= i < k && Counted(g, row, col, i) :: WindowCell(row, col, i)
  }

  /** The cell at window position k. */
  function WindowCell(row: int, col: int, k: int): (int, int) {
    (row + RowOffset(k), col + ColOffset(k))
  }

  /** Visiting position k adds its cell, which was not added before, when it
      is counted, and adds nothing otherwise. */
  lemma FoundStep(g: Grid, row: int, col: int, k: nat)
    requires k < 9
    ensures WindowCell(row, col, k) !in FoundUpTo(g, row, col, k)
    ensures FoundUpTo(g, row, col, k + 1)
         == if Counted(g, row, col, k) then FoundUpTo(g, row, col, k) + {WindowCell(row, col, k)}
            else FoundUpTo(g, row, col, k)
  {
  }

  /** The running count is the number of distinct cells added so far. */
  lemma {:induction false} CountUpToIsCard(g: Grid, row: int, col: int, k: nat)
    requires k <= 9
    ensures CountUpTo(g, row, col, k) == |FoundUpTo(g, row, col, k)|
  {
    if k > 0 {
      CountUpToIsCard(g, row, col, k - 1);
      FoundStep(g, row, col, k - 1);
    }
  }

  /** After the whole window, the cells added are exactly the live neighbours. */
  lemma FoundAllIsLiveNeighbours(g: Grid, row: int, col: int)
    ensures FoundUpTo(g, row, col, 9) == LiveNeighbours(g, row, col)
  {
    forall p | p in LiveNeighbours(g, row, col)
      ensures p in FoundUpTo(g, row, col, 9)
    {
      var i := 3 * (p.0 - row + 1) + (p.1 - col + 1);
      assert RowOffset(i) == p.0 - row && ColOffset(i) == p.1 - col;
      assert Counted(g, row, col, i);
    }
  }

  /** The counter returns the number of live cells adjacent to (row, col):
      the cell itself and every position outside the grid are left out. */
  lemma CountIsLiveNeighbourCard(g: Grid, row: int, col: int)
    ensures CountLiveNeighbors(g, row, col) == |LiveNeighbours(g, row, col)|
  {
    CountUpToIsCard(g, row, col, 9);
    FoundAllIsLiveNeighbours(g, row, col);
  }

  /** The count depends only on which of the eight cells around (row, col)
      count as live: two grids that agree there give the same count. */
  lemma CountIsLocal(a: Grid, b: Grid, row: int, col: int)
    requires forall r, c :: Adjacent(row, col, r, c) ==> (LiveAt(a, r, c) <==> LiveAt(b, r, c))
    ensures CountLiveNeighbors(a, row, col) == CountLiveNeighbors(b, row, col)
  {
    CountIsLiveNeighbourCard(a, row, col);
    CountIsLiveNeighbourCard(b, row, col);
    assert LiveNeighbours(a, row, col) == LiveNeighbours(b, row, col);
  }

  /** The cell itself is never counted: editing it leaves its own count unchanged. */
  lemma CentreNotCounted(g: Grid, row: int, col: int, alive: bool)
    ensures CountLiveNeighbors(SetCell(g, row, col, alive), row, col) == CountLiveNeighbors(g, row, col)
  {
    var e := SetCell(g, row, col, alive);
    forall r, c | Adjacent(row, col, r, c)
      ensures LiveAt(e, r, c) <==> LiveAt(g, r, c)
    {
      if InBounds(g, r, c) && c < |g[r]| {
        assert HasCell(g, r, c);
      }
    }
    CountIsLocal(e, g, row, col);
  }

  /** A grid with no live cell anywhere gives every cell a count of 0. */
  lemma NoLiveCellsNoNeighbours(g: Grid, row: int, col: int)
    requires forall i, j :: HasCell(g, i, j) ==> !g[i][j]
    ensures CountLiveNeighbors(g, row, col) == 0
  {
    CountIsLiveNeighbourCard(g, row, col);
    forall r, c
      ensures !LiveAt(g, r, c)
    {
      if 0 <= r < |g| && 0 <= c < |g[r]| {
        assert HasCell(g, r, c);
      }
    }
    assert LiveNeighbours(g, row, col) == {};
  }

  /** Planar edges: a cell on the top or bottom row, or in the leftmost or
      rightmost column (the width being that of row 0), has at most 5
      neighbours that can count, and a corner cell at most 3, since the
      positions beyond the edge are skipped. */
  lemma BorderCellsHaveFewerNeighbours(g: Grid, row: int, col: int)
    ensures row == 0 || row == Rows(g) - 1 || col == 0 || col == Cols(g) - 1 ==> CountLiveNeighbors(g, row, col) <= 5
    ensures (row == 0 || row == Rows(g) - 1) && (col == 0 || col == Cols(g) - 1) ==> CountLiveNeighbors(g, row, col) <= 3
  {
    CountUnrolled(g, row, col);
  }
}
