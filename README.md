# Maze generator of maze-game, in Dafny

This project models the maze generator in `index.js` of maze-game. The
generator carves a maze on a grid of `cellsVertical` rows and
`cellsHorizontal` columns (`rows` and `cols` here):

- **shuffle** (`Shuffling.Shuffle`) is the in-place Fisher–Yates shuffle, over a Dafny `array`.
- **The three matrices** are fields of the class `Maze.Generator`, each an `array2<bool>`:
  - `grid` marks the visited cells;
  - `verticals[r][c]` is true once the wall between cells (r, c) and (r, c+1) is open;
  - `horizontals[r][c]` is true once the wall between (r, c) and (r+1, c) is open.
- **stepThroughCell** is the method `StepThroughCell`. It is recursive, and the recursion passes through the loop over the shuffled neighbours, modelled by `VisitNeighbors`, `TryNeighbor` and `CarveTowards`.
- **The start cell** and the first call are `Generate` and `CarveFrom`.
- **The emission of wall bodies** is a pure selection over the final matrices (`Emission.ClosedWalls`).

Two ghost sets shadow the matrices pointwise, and `Generator.Valid()` ties them together:

- `visited`: the cells whose `grid` entry is true;
- `passages`: the walls whose entry is true.

These sets carry the proofs:

- every cell ends up visited;
- every two cells are joined by a walk through open passages (`Grid.Linked`);
- exactly `rows * cols - 1` entries are set to true;
- so the passages form a spanning tree of the grid;
- `(rows - 1) * (cols - 1)` walls are left for emission.

## Randomness

`Math.random()` is an oracle. A `Shuffling.Chooser` gives the value of
`Math.floor(Math.random() * n)` at the k-th call of `Math.random()`, and the
generator counts its calls in `draws`:

- 2 calls for the start cell;
- 4 calls per visited cell, for the shuffle of its neighbours.

`Shuffling.FromDraws` builds a chooser from a stream of reals in [0, 1).

## Matrix shapes

The matrices use the shapes a `rows` x `cols` grid needs: `verticals` is
rows x (cols - 1) and `horizontals` is (rows - 1) x cols (`Grid.WallShape`).
The source sizes them as cellsVertical x (cellsVertical - 1) and
(cellsHorizontal - 1) x cellsHorizontal (index.js:83-89). That is right only
on a square grid, which index.js has (3 x 3, index.js:15-16). See Findings.

## Model

| member | source | states |
|---|---|---|
| `Shuffling.ScaledIndex` | index.js:59 | `Math.floor(u * counter)` for a draw `u` in [0, 1) is a valid slot: below `counter` |
| `Shuffling.Draw` | index.js:59 | every index a draw selects among `counter` slots is below `counter`, so both swapped slots are in bounds |
| `Shuffling.FromDraws` | index.js:59 | a stream of `Math.random()` results defines a chooser whose every choice is the floor of the scaled draw |
| `Shuffling.Swap` | index.js:63-65 | the three-assignment swap exchanges slots i and j and leaves every other slot as it was |
| `Shuffling.SwapPermutes` | index.js:63-65 | a swap keeps the multiset of elements |
| `Shuffling.ShuffleSteps` | index.js:56-66 | the array after the first `steps` iterations of the loop has the original length |
| `Shuffling.ShuffleStepsPermute` | index.js:56-66 | every prefix of the loop keeps the multiset of elements |
| `Shuffling.ShuffleStepsNext` | index.js:58-66 | one iteration (draw below `counter`, decrement, swap slot `counter` with the drawn slot) takes the state after `done` iterations to the state after `done + 1` |
| `Shuffling.Shuffled` | index.js:55-68 | the reference definition of the whole shuffle (all `arr.length` iterations); it keeps the length, `Shuffle` is proved equal to it and `ShuffledIsPermutation` proves it a permutation |
| `Shuffling.ShuffledIsPermutation` | index.js:55-68 | the shuffled array has the same length, the same multiset and the same members as the input |
| `Shuffling.Shuffle` | index.js:55-68 | the in-place loop leaves the array equal to the shuffle of its old contents, after exactly `arr.length` iterations and draws |
| `Grid.AllCells` | index.js:72-74 | the cells of the grid are exactly the (r, c) with 0 <= r < rows and 0 <= c < cols |
| `Grid.AllCellsCount` | index.js:72-74 | the grid has rows * cols cells |
| `Grid.WallShape` | index.js:83-89 | the corrected shapes, rows x (cols - 1) and (rows - 1) x cols: an entry exists in its matrix exactly when both cells it separates are on the grid, so every carve writes in range and every entry is a real wall |
| `Grid.WallSidesAdjacent` | index.js:83-89 | the two cells a matrix entry separates are adjacent |
| `Grid.SourceWallShape` | index.js:83-89 | the shapes as written: `verticals` cellsVertical x (cellsVertical - 1), `horizontals` (cellsHorizontal - 1) x cellsHorizontal |
| `Grid.SourceWallShapeOnSquareGrid` | index.js:15-16 | on an n x n grid, such as the source's 3 x 3, the shapes as written equal the corrected ones |
| `Grid.SourceWallShapeMisfit` | index.js:87-89 | on a 3 x 2 grid the shapes as written have no entry for the wall below cell (1, 0), although both of its cells exist |
| `Grid.ClosedSetCoversGrid` | index.js:94-143 | a set of cells that holds the start and every grid neighbour of each of its cells holds the whole grid |
| `Grid.LinkedThrough` | index.js:129-139 | an open wall from a cell to a neighbour, followed by a walk from that neighbour, is a walk from the cell |
| `Grid.LinkedTransitive` | index.js:94-143 | two walks through passages that meet make one walk |
| `Grid.LinkedSymmetric` | index.js:94-143 | a walk through passages can be taken backwards |
| `Grid.LinkedThroughHub` | index.js:94-143 | cells all joined to the start cell are joined to each other |
| `Maze.Candidates` | index.js:104-109 | four candidates, each adjacent to the current cell |
| `Maze.CandidatesCoverNeighbors` | index.js:104-109 | every cell adjacent to the current cell is one of the candidates |
| `Maze.Carved` | index.js:129-137 | the entry written for each direction is the wall between the current cell and its neighbour in that direction (`left`: `verticals[row][column-1]`, `right`: `verticals[row][column]`, `up`: `horizontals[row-1][column]`, `down`: `horizontals[row][column]`) |
| `Maze.CarvedSeparates` | index.js:129-137 | the entry set for each direction is the wall between the current cell and the candidate |
| `Maze.ClosedCount` | index.js:145-189 | with rows * cols - 1 open entries among the (rows - 1) * cols + rows * (cols - 1) entries, (rows - 1) * (cols - 1) stay closed |
| `Maze.Generator.constructor` | index.js:72-89 | the three matrices are fresh and distinct, with every entry false and the corrected shapes; nothing is visited and no wall is open |
| `Maze.Generator.MarkVisited` | index.js:101 | sets the flag of the current cell; the visited set gains exactly that cell |
| `Maze.Generator.OpenWall` | index.js:129-137 | the entry set for a direction exists in its matrix; the passages gain exactly that wall |
| `Maze.Generator.StepThroughCell` | index.js:94-141 | on a visited cell it changes nothing. Otherwise it visits the cell. No flag of any matrix goes from true to false. Every newly visited cell has all its grid neighbours visited and is joined to the cell by open passages. Each new passage joins two newly visited cells. There is one more new cell than new passages, and four draws per new cell |
| `Maze.Generator.ShuffleCandidates` | index.js:104-110 | the candidates come out shuffled with the next four draws; the members are the same four |
| `Maze.Generator.VisitNeighbors` | index.js:112-140 | after the loop every grid neighbour of the cell is visited; the new passages equal the new cells in number and join them to the cell |
| `Maze.Generator.TryNeighbor` | index.js:113-127 | a candidate off the grid or already visited is skipped: the generator's fields and all three matrices stay unchanged; a candidate on the grid ends up visited |
| `Maze.Generator.CarveTowards` | index.js:129-139 | a wall is opened only towards an on-grid, unvisited candidate, and the candidate is then visited |
| `Maze.Generator.Generate` | index.js:91-143 | the start row and column are the first two draws. Every grid flag ends up true. Every two cells are joined through passages. rows * cols - 1 entries are true and (rows - 1) * (cols - 1) walls stay closed |
| `Maze.Generator.CarveFrom` | index.js:143 | a carve from an on-grid start over fresh matrices visits every cell and leaves a spanning tree of rows * cols - 1 passages |
| `Maze.Generator.SpanningTree` | index.js:94-143 | a closed, connected visited set with one more cell than passages is the whole grid, joined by rows * cols - 1 passages |
| `Maze.Generator.TreeCounts` | index.js:145-189 | with rows * cols - 1 passages, rows * cols - 1 entries are true and (rows - 1) * (cols - 1) false |
| `Maze.Generator.OpenWallsArePassages` | index.js:129-137 | the entries set to true are exactly the passages, each once |
| `Maze.Generator.ClosedWallsAreUnopened` | index.js:145-189 | the walls the emission turns into bodies are exactly the walls inside the grid that are not passages |
| `Emission.EntriesInRow` | index.js:146-150 | the inner `forEach` selects exactly the columns of the row whose entry has the given value, left to right |
| `Emission.Entries` | index.js:145-150 | the nested `forEach` selects exactly the positions whose entry has the given value, row by row, none twice |
| `Emission.Walls` | index.js:145-189 | the selected walls are exactly the entries with the given value, `horizontals` first, each matrix in walk order |
| `Emission.ClosedWalls` | index.js:145-189 | a body is placed for exactly the entries still false and for no true entry, in the source's order |
| `Emission.RowEntriesSplit` | index.js:146-150 | every entry of a row is either open or closed |
| `Emission.EntriesSplit` | index.js:145-150 | the open and closed positions of a matrix number its rows times its columns |
| `Emission.WallsSplit` | index.js:145-189 | open and closed walls together are all entries of the two matrices |
| `Emission.WallsDistinct` | index.js:145-189 | the walk meets every wall once |
| `Emission.DistinctCount` | index.js:145-189 | a sequence without repetitions has as many elements as its set |

## Left out

- Matter.js: the engine, renderer, runner, bodies, `World.add` and event hooks (index.js:13, 23-51, 151-164, 174-187, 194-225, 250-271) are calls into a library whose code is not part of this model.
- Geometry: the window size, `unitLengthX`/`unitLengthY` and every rectangle position and size (index.js:17-21, 151-156, 174-179, 194-215) are floating-point pixel arithmetic. `Emission.ClosedWalls` returns the entry coordinates of the walls to place, not the bodies.
- The keyboard handler that clamps the ball's velocity (index.js:227-246) and the win handler (index.js:250-271) are DOM and physics callbacks.
- `Math.random()` is an oracle (`Chooser`), not a random source. Nothing about uniformity or probability is stated.
- `Shuffling.ScaledIndex` computes `Math.floor(u * counter)` over exact reals. The rounding of the floating-point product is not modelled.
- `Shuffling.Shuffle` returns the number of the next unused draw instead of the array: the source returns the same array it shuffled in place.
- `Maze.Generator.constructor` requires `rows >= 1` and `cols >= 1`. The source sizes its matrices from two constants, both 3, and validates nothing. An `InvalidDimensions` error for other sizes is not in the code, so it is not modelled.
- Each row of a source matrix is its own array (index.js:70-74); an `array2` has no shared rows, so aliasing between rows is not modelled.

## Findings

| source | as written | input that shows it | evidently intended | confidence | as-written member | corrected member |
|---|---|---|---|---|---|---|
| index.js:83-89 | `verticals` is cellsVertical x (cellsVertical - 1) and `horizontals` is (cellsHorizontal - 1) x cellsHorizontal | cellsVertical = 3, cellsHorizontal = 2: carving down from cell (1, 0) writes `horizontals[1][0]`, but `horizontals` has one row | `verticals` rows x (cols - 1) and `horizontals` (rows - 1) x cols; harmless on the source's 3 x 3 grid | not executed | `Grid.SourceWallShapeMisfit` | `Grid.WallShape` |
