/**
  Two classic configurations: the 2 x 2 block, a still life, and the
  three-cell blinker, an oscillator of period 2. Each is placed anywhere in a
  grid of any size that holds it; each grid is drawn from a predicate that says
  which of its cells are alive. The instances built by edits of an empty grid
  (a 4 x 4 block at (1,1), a 5 x 5 blinker around (2,2)) are shown equal to
  the drawn grids.
 */
module Shapes {
  import opened GridModel
  import opened Neighbours
  import opened Generation

  /** The block with its top-left cell at (top, left): rows top..top+1,
      columns left..left+1. */
  predicate InBlock(top: int, left: int, r: int, c: int) {
    top <= r <= top + 1 && left <= c <= left + 1
  }

  /** The block lies inside a rows x cols grid. */
  predicate BlockFits(rows: nat, cols: nat, top: int, left: int) {
    0 <= top && top + 2 <= rows && 0 <= left && left + 2 <= cols
  }

  /** A rows x cols grid whose only live cells form the block at (top, left). */
  function Block(rows: nat, cols: nat, top: int, left: int): Grid {
    seq(rows, i => seq(cols, j => InBlock(top, left, i, j)))
  }

  lemma BlockLiveAt(rows: nat, cols: nat, top: int, left: int, r: int, c: int)
    requires BlockFits(rows, cols, top, left)
    ensures LiveAt(Block(rows, cols, top, left), r, c) <==> InBlock(top, left, r, c)
  {
  }

  /** The neighbour count of any position, as arithmetic on the position. */
  lemma BlockCount(rows: nat, cols: nat, top: int, left: int, i: int, j: int)
    requires BlockFits(rows, cols, top, left)
    ensures CountLiveNeighbors(Block(rows, cols, top, left), i, j)
         == Bit(InBlock(top, left, i - 1, j - 1)) + Bit(InBlock(top, left, i - 1, j)) + Bit(InBlock(top, left, i - 1, j + 1))
         + Bit(InBlock(top, left, i, j - 1)) + Bit(InBlock(top, left, i, j + 1))
         + Bit(InBlock(top, left, i + 1, j - 1)) + Bit(InBlock(top, left, i + 1, j)) + Bit(InBlock(top, left, i + 1, j + 1))
  {
    CountUnrolled(Block(rows, cols, top, left), i, j);
    BlockLiveAt(rows, cols, top, left, i - 1, j - 1);
    BlockLiveAt(rows, cols, top, left, i - 1, j);
    BlockLiveAt(rows, cols, top, left, i - 1, j + 1);
    BlockLiveAt(rows, cols, top, left, i, j - 1);
    BlockLiveAt(rows, cols, top, left, i, j + 1);
    BlockLiveAt(rows, cols, top, left, i + 1, j - 1);
    BlockLiveAt(rows, cols, top, left, i + 1, j);
    BlockLiveAt(rows, cols, top, left, i + 1, j + 1);
  }

  /** The block is a still life: in a grid of any size, wherever it lies,
      one step leaves the grid unchanged. */
  lemma BlockIsStill(rows: nat, cols: nat, top: int, left: int)
    requires BlockFits(rows, cols, top, left)
    ensures NextGeneration(Block(rows, cols, top, left)) == Block(rows, cols, top, left)
  {
    var g := Block(rows, cols, top, left);
    forall i, j | HasCell(g, i, j)
      ensures NextGeneration(g)[i][j] == g[i][j]
    {
      BlockCount(rows, cols, top, left, i, j);
    }
    SameCellsEqual(NextGeneration(g), g);
  }

  /** Four edits of an empty 4 x 4 grid draw the block at (1,1), so that grid
      is a still life. */
  lemma BlockIsBuiltByEdits()
    ensures SetCell(SetCell(SetCell(SetCell(CreateEmptyGrid(4, 4), 1, 1, true), 1, 2, true), 2, 1, true), 2, 2, true) == Block(4, 4, 1, 1)
  {
    var built := SetCell(SetCell(SetCell(SetCell(CreateEmptyGrid(4, 4), 1, 1, true), 1, 2, true), 2, 1, true), 2, 2, true);
    SameCellsEqual(built, Block(4, 4, 1, 1));
  }

  /** The horizontal blinker centred on (row, col): row `row`, columns col-1..col+1. */
  predicate InHorizontalBlinker(row: int, col: int, r: int, c: int) {
    r == row && col - 1 <= c <= col + 1
  }

  /** The vertical blinker centred on (row, col): column `col`, rows row-1..row+1. */
  predicate InVerticalBlinker(row: int, col: int, r: int, c: int) {
    row - 1 <= r <= row + 1 && c == col
  }

  /** Both phases of the blinker centred on (row, col) lie inside a rows x cols grid. */
  predicate BlinkerFits(rows: nat, cols: nat, row: int, col: int) {
    1 <= row && row + 2 <= rows && 1 <= col && col + 2 <= cols
  }

  /** A rows x cols grid whose only live cells form the horizontal blinker. */
  function HorizontalBlinker(rows: nat, cols: nat, row: int, col: int): Grid {
    seq(rows, i => seq(cols, j => InHorizontalBlinker(row, col, i, j)))
  }

  /** A rows x cols grid whose only live cells form the vertical blinker. */
  function VerticalBlinker(rows: nat, cols: nat, row: int, col: int): Grid {
    seq(rows, i => seq(cols, j => InVerticalBlinker(row, col, i, j)))
  }

  lemma HorizontalBlinkerLiveAt(rows: nat, cols: nat, row: int, col: int, r: int, c: int)
    requires BlinkerFits(rows, cols, row, col)
    ensures LiveAt(HorizontalBlinker(rows, cols, row, col), r, c) <==> InHorizontalBlinker(row, col, r, c)
  {
  }

  lemma VerticalBlinkerLiveAt(rows: nat, cols: nat, row: int, col: int, r: int, c: int)
    requires BlinkerFits(rows, cols, row, col)
    ensures LiveAt(VerticalBlinker(rows, cols, row, col), r, c) <==> InVerticalBlinker(row, col, r, c)
  {
  }

  /** The neighbour count of any position, as arithmetic on the position. */
  lemma HorizontalBlinkerCount(rows: nat, cols: nat, row: int, col: int, i: int, j: int)
    requires BlinkerFits(rows, cols, row, col)
    ensures CountLiveNeighbors(HorizontalBlinker(rows, cols, row, col), i, j)
         == Bit(InHorizontalBlinker(row, col, i - 1, j - 1)) + Bit(InHorizontalBlinker(row, col, i - 1, j)) + Bit(InHorizontalBlinker(row, col, i - 1, j + 1))
         + Bit(InHorizontalBlinker(row, col, i, j - 1)) + Bit(InHorizontalBlinker(row, col, i, j + 1))
         + Bit(InHorizontalBlinker(row, col, i + 1, j - 1)) + Bit(InHorizontalBlinker(row, col, i + 1, j)) + Bit(InHorizontalBlinker(row, col, i + 1, j + 1))
  {
    CountUnrolled(HorizontalBlinker(rows, cols, row, col), i, j);
    HorizontalBlinkerLiveAt(rows, cols, row, col, i - 1, j - 1);
    HorizontalBlinkerLiveAt(rows, cols, row, col, i - 1, j);
    HorizontalBlinkerLiveAt(rows, cols, row, col, i - 1, j + 1);
    HorizontalBlinkerLiveAt(rows, cols, row, col, i, j - 1);
    HorizontalBlinkerLiveAt(rows, cols, row, col, i, j + 1);
    HorizontalBlinkerLiveAt(rows, cols, row, col, i + 1, j - 1);
    HorizontalBlinkerLiveAt(rows, cols, row, col, i + 1, j);
    HorizontalBlinkerLiveAt(rows, cols, row, col, i + 1, j + 1);
  }

  /** The neighbour count of any position, as arithmetic on the position. */
  lemma VerticalBlinkerCount(rows: nat, cols: nat, row: int, col: int, i: int, j: int)
    requires BlinkerFits(rows, cols, row, col)
    ensures CountLiveNeighbors(VerticalBlinker(rows, cols, row, col), i, j)
         == Bit(InVerticalBlinker(row, col, i - 1, j - 1)) + Bit(InVerticalBlinker(row, col, i - 1, j)) + Bit(InVerticalBlinker(row, col, i - 1, j + 1))
         + Bit(InVerticalBlinker(row, col, i, j - 1)) + Bit(InVerticalBlinker(row, col, i, j + 1))
         + Bit(InVerticalBlinker(row, col, i + 1, j - 1)) + Bit(InVerticalBlinker(row, col, i + 1, j)) + Bit(InVerticalBlinker(row, col, i + 1, j + 1))
  {
    CountUnrolled(VerticalBlinker(rows, cols, row, col), i, j);
    VerticalBlinkerLiveAt(rows, cols, row, col, i - 1, j - 1);
    VerticalBlinkerLiveAt(rows, cols, row, col, i - 1, j);
    VerticalBlinkerLiveAt(rows, cols, row, col, i - 1, j + 1);
    VerticalBlinkerLiveAt(rows, cols, row, col, i, j - 1);
    VerticalBlinkerLiveAt(rows, cols, row, col, i, j + 1);
    VerticalBlinkerLiveAt(rows, cols, row, col, i + 1, j - 1);
    VerticalBlinkerLiveAt(rows, cols, row, col, i + 1, j);
    VerticalBlinkerLiveAt(rows, cols, row, col, i + 1, j + 1);
  }

  /** One step turns the horizontal blinker upright: the centre survives, the
      two end cells die, the cells above and below the centre are born, and
      nothing else lives. */
  lemma HorizontalBlinkerTurns(rows: nat, cols: nat, row: int, col: int)
    requires BlinkerFits(rows, cols, row, col)
    ensures NextGeneration(HorizontalBlinker(rows, cols, row, col)) == VerticalBlinker(rows, cols, row, col)
  {
    var g := HorizontalBlinker(rows, cols, row, col);
    var h := VerticalBlinker(rows, cols, row, col);
    forall i, j | HasCell(g, i, j)
      ensures NextGeneration(g)[i][j] == h[i][j]
    {
      HorizontalBlinkerCount(rows, cols, row, col, i, j);
    }
    SameCellsEqual(NextGeneration(g), h);
  }

  /** One step lays the upright blinker back down. */
  lemma VerticalBlinkerTurns(rows: nat, cols: nat, row: int, col: int)
    requires BlinkerFits(rows, cols, row, col)
    ensures NextGeneration(VerticalBlinker(rows, cols, row, col)) == HorizontalBlinker(rows, cols, row, col)
  {
    var g := VerticalBlinker(rows, cols, row, col);
    var h := HorizontalBlinker(rows, cols, row, col);
    forall i, j | HasCell(g, i, j)
      ensures NextGeneration(g)[i][j] == h[i][j]
    {
      VerticalBlinkerCount(rows, cols, row, col, i, j);
    }
    SameCellsEqual(NextGeneration(g), h);
  }

  /** The blinker oscillates with period exactly 2: two steps restore it and
      one step does not. */
  lemma BlinkerHasPeriodTwo(rows: nat, cols: nat, row: int, col: int)
    requires BlinkerFits(rows, cols, row, col)
    ensures NextGeneration(NextGeneration(HorizontalBlinker(rows, cols, row, col))) == HorizontalBlinker(rows, cols, row, col)
    ensures NextGeneration(HorizontalBlinker(rows, cols, row, col)) != HorizontalBlinker(rows, cols, row, col)
  {
    HorizontalBlinkerTurns(rows, cols, row, col);
    VerticalBlinkerTurns(rows, cols, row, col);
    assert VerticalBlinker(rows, cols, row, col)[row - 1][col] != HorizontalBlinker(rows, cols, row, col)[row - 1][col];
  }

  /** Three edits of an empty 5 x 5 grid draw the horizontal blinker centred
      on (2,2): row 2, columns 1..3. */
  lemma HorizontalBlinkerIsBuiltByEdits()
    ensures SetCell(SetCell(SetCell(CreateEmptyGrid(5, 5), 2, 1, true), 2, 2, true), 2, 3, true) == HorizontalBlinker(5, 5, 2, 2)
  {
    var built := SetCell(SetCell(SetCell(CreateEmptyGrid(5, 5), 2, 1, true), 2, 2, true), 2, 3, true);
    SameCellsEqual(built, HorizontalBlinker(5, 5, 2, 2));
  }
}
