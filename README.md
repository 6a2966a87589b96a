# Forest-fire grid engine

A Dafny model of the `Grid` engine of the forest-fire simulator. The grid is a
rectangle of cells, each an integer: `EMPTY = 0` is bare ground, `TREE = -1` a tree,
`BURNING = 5` a cell that has just caught fire. A burning cell counts down by one per
update, through the ash levels 4, 3, 2 and 1, back to `EMPTY`. One `update()` computes
every cell's next value from the state before the update:

- a burning or ash cell (value above 0) counts down by one;
- a tree next to a `BURNING` cell, or hit by the step's lightning strike, becomes `BURNING`;
- an empty cell whose planting draw succeeds grows a tree;
- every other cell keeps its value.

The model follows the behaviour that the test suite `tests/test_grid.py` pins down,
call by call, and the way the console renderer `src/renderer/cli.py` consumes the
grid's iteration.

Modules, one file each:

- `neighbourhood.dfy` (`Neighbourhood`): coordinates and the clipped Moore
  neighbourhood `Neighbors(x, y, width, height)`, in the order `get_neighbor` yields it.
  The outer loop runs over the columns `x - 1 .. x + 1`, the inner loop over the rows.
- `automaton.dfy` (`Automaton`): the cell encoding and the transition.
  `NextCell` gives one cell's next value, `Step` the whole synchronous update and `Run`
  a sequence of updates. All three are pure functions of the snapshot.
- `layout.dfy` (`Layout`): the iteration order `Flatten`, which lists the cells row by row.
- `engine.dfy` (`Engine`): the `Grid` class. It holds the dimensions, the two rates and
  the rows of cells (`cells: seq<seq<int>>`). It has `Get`/`Set` for `grid[x, y]`, `Len`,
  `Iterate`, and `Update`, which fills a fresh buffer row by row from the old state and
  then replaces the state with it.
- `scenarios.dfy` (`Scenarios`): the deterministic scenarios of the test suite, as
  facts about `Step` and `Run`.
- `replays.dfy` (`Replays`): the test suite's call sequences on a `Grid` object. Cells
  are written one by one, the grid is updated, and the results are read back.

Randomness is an input. Each update receives a `Draws` value holding the set of cells
whose planting draw succeeded and the cell struck by lightning, if any. `Drawn` states
which draws the rates allow:

- at rate 0 no planting draw succeeds and there is no strike;
- at planting rate 1 every cell's planting draw succeeds;
- at lightning rate 1 there is exactly one strike, inside the grid.

Three facts the tests fix:

- The constructor's first argument is the number of rows (`Grid(6, 5)` has 6 rows of 5
  cells, `tests/test_grid.py:27-34`).
- Neighbours come in x-major order (`tests/test_grid.py:175-208`).
- Lightning is one draw per update, striking at most one cell: at lightning rate 1 on a
  grid of trees only one tree ignites (`tests/test_grid.py:135-150`).

## Model

| member | source | states |
|---|---|---|
| Neighbourhood.Neighbors | tests/test_grid.py:175-208 | `get_neighbor(x, y)`: the scan of columns `x - 1 .. x + 1`, each over rows `y - 1 .. y + 1`, skipping the centre and cells outside the grid; `NeighborsUnique` proves it is the only sound, complete, x-major list |
| Neighbourhood.NeighborsInBounds | tests/test_grid.py:175-208 | every listed neighbour lies inside the grid and is one of the eight cells around the centre, never the centre itself |
| Neighbourhood.NeighborsComplete | tests/test_grid.py:175-208 | every in-bounds cell around the centre is listed |
| Neighbourhood.NeighborsSorted | tests/test_grid.py:175-208 | the list is in x-major order: by column, then by row |
| Neighbourhood.NeighborsSpec | tests/test_grid.py:175-208 | the three properties together: sound, complete and x-major sorted |
| Neighbourhood.NeighborsUnique | tests/test_grid.py:175-208 | any list that is sound, complete and x-major sorted is exactly `Neighbors`, so these properties define the enumeration |
| Neighbourhood.NeighborCount | tests/test_grid.py:175-208 | an in-bounds cell has (columns in reach) x (rows in reach) - 1 neighbours |
| Neighbourhood.NeighborCountByPosition | tests/test_grid.py:175-208 | on a grid of at least 2 x 2 cells, corners have 3 neighbours, other border cells 5 and interior cells 8 |
| Neighbourhood.InteriorNeighbors | tests/test_grid.py:205-208 | an interior cell's list is its eight neighbours, column by column, each column top to bottom |
| Neighbourhood.NeighborsOfCornerTopLeft | tests/test_grid.py:175-178 | on 4 rows of 5 columns, the neighbours of (0, 0) are [(0, 1), (1, 0), (1, 1)] |
| Neighbourhood.NeighborsOfCornerTopRight | tests/test_grid.py:180-183 | the neighbours of (4, 0) are [(3, 0), (3, 1), (4, 1)] |
| Neighbourhood.NeighborsOfCornerBottomRight | tests/test_grid.py:185-188 | the neighbours of (4, 3) are [(3, 2), (3, 3), (4, 2)] |
| Neighbourhood.NeighborsOfCornerBottomLeft | tests/test_grid.py:190-193 | the neighbours of (0, 3) are [(0, 2), (1, 2), (1, 3)] |
| Neighbourhood.NeighborsOfLeftEdge | tests/test_grid.py:195-198 | the neighbours of (0, 2) are [(0, 1), (0, 3), (1, 1), (1, 2), (1, 3)] |
| Neighbourhood.NeighborsOfTopEdge | tests/test_grid.py:200-203 | the neighbours of (2, 0) are [(1, 0), (1, 1), (2, 1), (3, 0), (3, 1)] |
| Neighbourhood.NeighborsOfCentre | tests/test_grid.py:205-208 | the neighbours of (1, 2) are the eight listed cells in x-major order |
| Automaton.AnyBurning | tests/test_grid.py:74-101 | the scan of a tree's neighbours for a `BURNING` cell; `AnyBurningNeighbors` proves it true exactly when some in-bounds cell around the tree is `BURNING` |
| Automaton.Drawn | tests/test_grid.py:111-173 | the draws a random source can produce at the given rates: none at rate 0, every planting draw at planting rate 1, one in-bounds strike at lightning rate 1; `PlantingRule`, `PlantingRateOne`, `LightningSparesEmpty` and `LightningRateOne` use it |
| Automaton.NextCell | tests/test_grid.py:41-173 | one cell's next value read from the snapshot; `DecayRule`, `TreeRule`, `LightningSparesEmptyCell` and `PlantingRule` state each rule |
| Automaton.Step | tests/test_grid.py:74-109 | `update()` as a function: every cell's `NextCell`, keeping the grid's shape; `StepKeepsStates` states what it preserves, `TreeRule`, `DecayRule` and `LightningSparesEmptyCell` what it computes, `LightningAtMostOne` how many trees lightning ignites |
| Automaton.Run | tests/test_grid.py:41-72 | successive updates, keeping the grid's shape; `RunSnoc` and `QuietRun` state how it unfolds |
| Automaton.DecayRule | tests/test_grid.py:41-72 | a burning or ash cell counts down by one on every update, whatever the draws |
| Automaton.LightningSparesEmptyCell | tests/test_grid.py:129-133 | an EMPTY cell's next value is the same with or without a strike: a tree exactly when its planting draw succeeded |
| Automaton.PlantingRule | tests/test_grid.py:111-116 | at planting rate 1 every EMPTY cell becomes a tree, whatever the lightning rate |
| Automaton.AnyBurningNeighbors | tests/test_grid.py:74-101 | the scan over `Neighbors` finds a `BURNING` cell exactly when some in-bounds cell around the centre is `BURNING` |
| Automaton.TreeRule | tests/test_grid.py:74-101 | a tree becomes `BURNING` exactly when a neighbour was `BURNING` before the update or lightning strikes it; otherwise it stays a tree |
| Automaton.QuietStep | tests/test_grid.py:41-109 | at both rates 0 a burning or ash cell counts down by one, a tree next to a `BURNING` cell ignites, and every other cell keeps its value |
| Automaton.ColdRowsNotExposed | tests/test_grid.py:74-83 | a cell whose own and adjacent rows hold no `BURNING` value has no `BURNING` neighbour |
| Automaton.StepKeepsStates | src/renderer/cli.py:61-66 | an update keeps every cell among `TREE`, `EMPTY` and the levels 1..5, the values the renderer can draw |
| Automaton.LightningAtMostOne | tests/test_grid.py:135-173 | the trees ignited without a burning neighbour are at most one: the struck cell |
| Automaton.PlantingRateOne | tests/test_grid.py:111-116 | at planting rate 1, an all-empty grid is all trees after one update |
| Automaton.LightningSparesEmpty | tests/test_grid.py:129-133 | at planting rate 0, an all-empty grid is unchanged by an update, whatever the lightning rate and strike |
| Automaton.StrikeOnForest | tests/test_grid.py:135-150 | on a grid of trees, the struck cell becomes `BURNING` and every other cell stays a tree |
| Automaton.LightningRateOne | tests/test_grid.py:135-150 | at lightning rate 1, a grid of trees holds exactly one `BURNING` cell after an update, the struck one |
| Automaton.QuietRun | tests/test_grid.py:41-72 | at both rates 0, with no tree next to a `BURNING` cell, after n updates a burning cell of level v reads max(v - n, 0) and every other cell keeps its value |
| Automaton.RunSnoc | tests/test_grid.py:53-69 | one more update after a sequence of updates is the update of that sequence's result |
| Layout.Flatten | tests/test_grid.py:115-116 | `for cell in grid`: the rows in order, each from column 0; `FlattenAt` and `FlattenChunks` state where each cell lands |
| Layout.FlattenLength | tests/test_grid.py:36-38 | iteration yields height x width items |
| Layout.FlattenAt | src/renderer/cli.py:29-33 | item `y * width + x` of the iteration is row y, column x |
| Layout.FlattenChunks | src/renderer/cli.py:29-33 | cutting the iteration into slices of `width` items gives back the rows, slice `y` being row `y` |
| Layout.UniformIteration | tests/test_grid.py:6-7 | every cell holds `v` exactly when every item of the iteration is `v` |
| Engine.InitialCells | tests/test_grid.py:25-34 | a new grid's cells form `rows` rows of `columns` cells |
| Engine.NewGridEmpty | tests/test_grid.py:21-23 | a grid built without an initial state is all `EMPTY`, cell by cell and item by item of its iteration |
| Engine.InitialStateCells | tests/test_grid.py:25-34 | an initial state holds trees exactly on the seeded cells and only trees and `EMPTY` cells |
| Engine.Grid.constructor | tests/test_grid.py:33-34 | the first argument is the number of rows, the second the number of columns; the cells are the initial cells |
| Engine.Grid.Get | tests/test_grid.py:14-19 | `grid[x, y]` is row y, column x of the storage, which is item `y * width + x` of the iteration |
| Engine.Grid.Set | tests/test_grid.py:50-52 | `grid[x, y] = v` makes `grid[x, y]` read `v` and leaves every other cell unchanged |
| Engine.Grid.Load | tests/test_grid.py:95-97 | writing every cell of a list of rows, column by column, makes the storage that list |
| Engine.Grid.Len | tests/test_grid.py:36-38 | `len(grid)` is `width * height` |
| Engine.Grid.Iterate | tests/test_grid.py:115-116 | `for cell in grid` yields the cells row by row, `width * height` of them |
| Engine.Grid.Update | tests/test_grid.py:98-109 | `update()` replaces the state with the synchronous step computed from the state before it |
| Scenarios.AshRowCalm | tests/test_grid.py:42 | in the row `[TREE, EMPTY, BURNING]` no tree is next to a `BURNING` cell |
| Scenarios.BurningAshCycle | tests/test_grid.py:41-72 | at both rates 0, after n updates the row reads `[TREE, EMPTY, max(5 - n, 0)]` |
| Scenarios.EmptyForestStaysEmpty | tests/test_grid.py:129-133 | at planting rate 0 an all-empty grid stays empty for any number of updates, whatever the lightning rate of each update |
| Scenarios.SpreadFirstStepTrees | tests/test_grid.py:75-83 | in the first update the trees next to (2, 3) ignite and the tree at (1, 1) stays a tree |
| Scenarios.SpreadFirstStep | tests/test_grid.py:75-83 | the first update of the spread scenario gives the second listed grid |
| Scenarios.SpreadSecondStep | tests/test_grid.py:80-88 | the second update gives the third listed grid: (1, 1) ignites only now |
| Scenarios.SpreadThirdStep | tests/test_grid.py:85-93 | the third update gives the fourth listed grid: every fire cools by one |
| Replays.ReadCells | tests/test_grid.py:54-56 | reading every cell through `grid[x, y]`, column by column, gives back the grid's rows |
| Replays.ReplayBurningAshCycle | tests/test_grid.py:41-72 | on a `Grid` object, the five updates give the rows listed in the test |
| Replays.ReplaySpread | tests/test_grid.py:74-109 | on a `Grid` object, the three updates give the three listed grids |
| Replays.ReplayAllTrees | tests/test_grid.py:111-116 | a new grid at planting rate 1 iterates over 20 `EMPTY` cells, and over 20 trees after one update |
| Replays.ReplayLightningOnEmpty | tests/test_grid.py:129-133 | at lightning rate 1 an empty grid is still empty after an update |
| Replays.ReplayLightningOnTree | tests/test_grid.py:135-150 | a grid filled with trees at lightning rate 1 has, after one update, the struck cell `BURNING` and every other cell a tree |
| Replays.ReplayLightningRate | tests/test_grid.py:152-173 | at lightning rate 0.5, the grid stays all trees while no strike has come, and the first strike ignites exactly its cell |

## Left out

- The console renderer (`src/renderer/cli.py`) is left out: colours, glyphs, `print` and pacing. Only its row chunking (`Layout.FlattenChunks`) and the set of values it can draw (`Automaton.StepKeepsStates`) are modelled.
- The random number generator and the draw order are left out. Draws are inputs to `Update`, and `Drawn` only constrains them at rates 0 and 1, and keeps any strike inside the grid. The seeded fixtures depend on one particular pseudo-random stream, so the model does not reproduce them. These are the initial planting pattern (`tests/test_grid.py:25-34`), the planting pattern at rate 0.5 (`tests/test_grid.py:118-127`), the struck cells (3, 0) and (2, 3), and the update on which the 0.5-rate strike comes.
- Engine.Grid.constructor: the initial planting pass takes the seeded cells as an arbitrary set. The model does not tie that set to the planting rate.
- Default arguments are left out. The constructor takes both rates, the initial-state flag and the seeded cells explicitly. The deterministic tests use rates 0 unless they pass others.
- Argument validation is left out: non-positive dimensions and rates outside [0, 1]. The tests do not exercise it, and the dimensions are `nat`.
- Engine.Grid.Get and Engine.Grid.Set require in-bounds coordinates. Out-of-bounds access is not pinned by the tests, and Python's negative list indices would wrap rather than fail.
- `tests/test_grid.py:16` stores strings in the storage to observe the addressing. Cells here are integers, and `Engine.Grid.Get` states the same addressing.
- Some choices the tests leave open are model choices, not established behaviour:
  - only a `BURNING` (level 5) neighbour ignites a tree, while ash levels 1 to 4 do not;
  - lightning and planting read the state before the update;
  - a strike on a cell that is not a tree has no effect.
- Engine.Grid.Update requires its draws to satisfy `Drawn` for the grid's rates. That is an assumption about the random source, not a demand on callers.
