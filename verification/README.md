# Game of Life engine — Dafny model

This project models the simulation engine of a browser Game of Life
(`src/lib/gameOfLife.ts`): a grid of boolean cells, an all-dead grid
constructor, the planar neighbour counter, the B3/S23 generation step and the
single-cell editor. Every operation is a pure function over an immutable
`seq<seq<bool>>`, as the engine itself never mutates its input.

Modules, following the engine's components:

- `GridModel` (`grid.dfy`): the grid type, its dimensions (`Rows`, `Cols`
  taken from row 0), the rectangularity predicate `IsRect`, the reading rule
  `LiveAt`, `CreateEmptyGrid` and `SetCell` with the algebra of edits.
- `Neighbours` (`neighbours.dfy`): `CountLiveNeighbors`, written as the
  engine's nested loops over the 3 x 3 window, and `LiveNeighbours`, the set
  of live adjacent cells, with the proof that the count is that set's size.
- `Generation` (`generation.dfy`): `NextGeneration` and the survival and
  birth rules stated against the set of live neighbours.
- `Shapes` (`shapes.dfy`): the block still life and the blinker oscillator.

Two points where a stricter reading of the engine's purpose (a rectangular-grid
invariant, a `setCell` that rejects bad positions) differs from its code; the
model follows the code:

- The engine accepts any `boolean[][]`, not only rectangular ones. The column
  bound of the neighbour counter is the length of row 0 (0 when there are no
  rows), and a read past the end of a shorter row gives `undefined`, which
  counts as dead. `LiveAt` models exactly this. No operation requires
  `IsRect`; instead `SetCell` and `NextGeneration` are proved to preserve it.
- `setCell` with a position outside the grid is not rejected: the code
  returns an unchanged grid, and so does the model (`SetCellOutOfRange`).

`createEmptyGrid` with a negative size yields an empty dimension: `Array.from`
converts the `length` it is given to a non-negative array length, which turns
a negative number into 0. The model takes `int` sizes and clamps them at 0.

## Model

| member | source | states |
|---|---|---|
| GridModel.CreateEmptyGrid | src/lib/gameOfLife.ts:6-8 | the result has `max(rows, 0)` rows, each of `max(cols, 0)` cells, every cell dead, and it is rectangular |
| GridModel.SetCell | src/lib/gameOfLife.ts:52-60 | the result has the input's shape, so a rectangular grid stays rectangular with the same columns; the stored cell at (row, col) becomes `alive`; every other cell keeps its value |
| GridModel.SetCellOutOfRange | src/lib/gameOfLife.ts:53-58 | an edit at a position the grid does not store returns the grid unchanged |
| GridModel.SetCellIdempotent | src/lib/gameOfLife.ts:52-60 | applying the same edit twice gives the same grid as applying it once |
| GridModel.SetCellLastWins | src/lib/gameOfLife.ts:52-60 | a second edit of the same cell overrides the first |
| GridModel.SetCellSameValue | src/lib/gameOfLife.ts:52-60 | writing the value a cell already holds returns the grid unchanged |
| GridModel.SetCellCommutes | src/lib/gameOfLife.ts:52-60 | edits of two different cells commute |
| Neighbours.CountUpTo | src/lib/gameOfLife.ts:19-33 | after visiting k window positions the running count is at most k, or k - 1 once the skipped centre has been passed |
| Neighbours.CountLiveNeighbors | src/lib/gameOfLife.ts:16-36 | the neighbour count is between 0 and 8 |
| Neighbours.CountUnrolled | src/lib/gameOfLife.ts:21-33 | the count is the sum over the eight offsets, in loop order, of 1 for each live in-bounds neighbour |
| Neighbours.CountUpToIsCard | src/lib/gameOfLife.ts:19-33 | the running count equals the number of distinct cells added so far |
| Neighbours.FoundAllIsLiveNeighbours | src/lib/gameOfLife.ts:21-31 | after the whole window, the cells added are exactly the live in-bounds cells adjacent to (row, col) |
| Neighbours.CountIsLiveNeighbourCard | src/lib/gameOfLife.ts:16-36 | the count equals the size of the set of live adjacent cells inside `[0, rows) x [0, cols)`, with `cols` taken from row 0 |
| Neighbours.CountIsLocal | src/lib/gameOfLife.ts:16-36 | two grids that agree on which of the eight adjacent positions hold a live in-bounds cell give the same count, whatever else they hold |
| Neighbours.CentreNotCounted | src/lib/gameOfLife.ts:23-25 | the cell itself is never counted: editing it leaves its own count unchanged |
| Neighbours.NoLiveCellsNoNeighbours | src/lib/gameOfLife.ts:28-31 | in a grid without live cells every count is 0 |
| Neighbours.BorderCellsHaveFewerNeighbours | src/lib/gameOfLife.ts:26-31 | out-of-bounds positions are skipped on all four edges (the right edge given by row 0's length): a cell on the top or bottom row or the first or last column has at most 5 counted neighbours, a corner cell at most 3 |
| Generation.NextGeneration | src/lib/gameOfLife.ts:38-50 | the result has the input's shape, row by row, so a rectangular grid stays rectangular with the same columns; a cell is alive in it exactly when its count in the input grid is 3, or it is alive with count 2 |
| Generation.Survival | src/lib/gameOfLife.ts:43-45 | a live cell survives if and only if 2 or 3 of its adjacent cells are alive in the input |
| Generation.Birth | src/lib/gameOfLife.ts:47 | a dead cell is born if and only if exactly 3 of its adjacent cells are alive in the input |
| Generation.EmptyGridIsStill | src/lib/gameOfLife.ts:38-50 | an all-dead grid of any size is unchanged by a step |
| Shapes.BlockIsBuiltByEdits | src/lib/gameOfLife.test.ts:14-18 | four edits of an empty 4 x 4 grid produce the 4 x 4 grid holding only the block at (1,1), (1,2), (2,1), (2,2) |
| Shapes.BlockIsStill | src/lib/gameOfLife.test.ts:13-23 | a grid of any size whose only live cells are a 2 x 2 block lying inside it, wherever it lies, is unchanged by a step |
| Shapes.HorizontalBlinkerIsBuiltByEdits | src/lib/gameOfLife.test.ts:26-29 | three edits of an empty 5 x 5 grid produce the 5 x 5 grid holding only the horizontal blinker on row 2, columns 1..3 |
| Shapes.HorizontalBlinkerTurns | src/lib/gameOfLife.test.ts:25-38 | in a grid of any size, a horizontal blinker on row R, columns C-1..C+1 (with both phases inside the grid) becomes exactly the vertical blinker on column C, rows R-1..R+1: (R,C-1) and (R,C+1) die and no other cell lives |
| Shapes.VerticalBlinkerTurns | src/lib/gameOfLife.ts:38-50 | in a grid of any size, the vertical blinker on column C, rows R-1..R+1 becomes exactly the horizontal blinker on row R |
| Shapes.BlinkerHasPeriodTwo | src/lib/gameOfLife.ts:38-50 | for every blinker position and grid size that hold it, two steps restore the blinker and one step does not |

## Left out

- `createRandomGrid` (src/lib/gameOfLife.ts:10-14): it draws from a random source with a floating-point probability, so its result cannot be stated.
- GridModel.CreateEmptyGrid: does not model the `RangeError` that `Array.from` (src/lib/gameOfLife.ts:7) throws when a length reaches 2^32, for `rows` of 2^32 or more, or for at least one row and `cols` of 2^32 or more; the model returns a grid of that size. Running out of memory for large sizes is not modelled either.
- Numbers that are not integers: the engine's coordinates and sizes are JavaScript numbers; the model uses integers, so a fractional `row` in `setCell` or a fractional size in `createEmptyGrid` is not modelled.
- Wrapping (toroidal) edges, `countLiveCells`, `placePattern` with its pattern table, and `serializeGrid`/`deserializeGrid`: the test file imports them (src/lib/gameOfLife.test.ts:3-9, 40-84), but `src/lib/gameOfLife.ts` defines none of them, so there is no behaviour to model.
- The constants `DEFAULT_ROWS` and `DEFAULT_COLS` (src/lib/gameOfLife.ts:3-4): only the application uses them, to size its first grid; the engine's operations take sizes as parameters.
- Row sharing: `setCell` hands back untouched rows by reference; with value sequences there is no aliasing to describe.
- The application in `src/App.tsx`: React state, canvas painting, the timer that calls `nextGeneration` repeatedly, and the mouse mapping that checks bounds before calling `setCell`. They are user-interface code outside the engine.
