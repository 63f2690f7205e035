/**
  The generation stepper: Conway's rule B3/S23 applied to every cell at once.
  Each cell of the new grid is computed from the neighbour count in the OLD
  grid, so no cell sees a partly updated generation.
 */
module Generation {
  import opened GridModel
  import opened Neighbours

  /** The fate of one cell: a live cell survives with 2 or 3 live neighbours,
      a dead cell is born with exactly 3. */
  function CellFate(isAlive: bool, liveNeighbors: nat): bool {
    if isAlive then liveNeighbors == 2 || liveNeighbors == 3
    else liveNeighbors == 3
  }

  /** The next generation: same shape as the input; a cell is alive in it
      exactly when it has 3 live neighbours, or it is alive with 2. */
  function NextGeneration(g: Grid): (next: Grid)
    ensures SameShape(next, g)
    ensures IsRect(g) ==> IsRect(next) && Cols(next) == Cols(g)
    ensures forall i, j :: HasCell(g, i, j) ==>
      (next[i][j] <==> CountLiveNeighbors(g, i, j) == 3 || (g[i][j] && CountLiveNeighbors(g, i, j) == 2))
  {
    seq(|g|, i requires 0 <= i < |g| =>
      seq(|g[i]|, j requires 0 <= j < |g[i]| => CellFate(g[i][j], CountLiveNeighbors(g, i, j))))
  }

  /** Survival: a live cell stays alive exactly when 2 or 3 of its adjacent
      cells are alive. */
  lemma Survival(g: Grid, i: int, j: int)
    requires HasCell(g, i, j) && g[i][j]
    ensures NextGeneration(g)[i][j] <==> |LiveNeighbours(g, i, j)| in {2, 3}
  {
    CountIsLiveNeighbourCard(g, i, j);
  }

  /** Birth: a dead cell comes alive exactly when 3 of its adjacent cells are alive. */
  lemma Birth(g: Grid, i: int, j: int)
    requires HasCell(g, i, j) && !g[i][j]
    ensures NextGeneration(g)[i][j] <==> |LiveNeighbours(g, i, j)| == 3
  {
    CountIsLiveNeighbourCard(g, i, j);
  }

  /** An all-dead grid stays all dead. */
  lemma EmptyGridIsStill(rows: int, cols: int)
    ensures NextGeneration(CreateEmptyGrid(rows, cols)) == CreateEmptyGrid(rows, cols)
  {
    var g := CreateEmptyGrid(rows, cols);
    forall i, j | HasCell(g, i, j)
      ensures NextGeneration(g)[i][j] == g[i][j]
    {
      NoLiveCellsNoNeighbours(g, i, j);
    }
    SameCellsEqual(NextGeneration(g), g);
  }
}
