# Conway's Game of Life, modelled in Dafny

This project models the simulation core of a Python implementation of Conway's Game of
Life on a bounded, non-wrapping board, and proves what that core promises.

- `Cells` (`cell.dfy`): the immutable alive/dead `Cell` and its two factories.
- `Positions` (`position.dfy`): integer `(row, col)` positions and their 8 neighbours. The
  neighbours come in row-major order over the offsets and are not bounds-checked.
- `GridSizes` (`grid_size.dfy`): the bounds check `Contains` and the row-major enumeration
  `AllPositions`, with its length, order, distinctness and coverage.
- `Generations` (`generation.dfy`): the generation counter and `Next`.
- `Counting` (`counting.dfy`): counting the elements of a sequence that satisfy a test.
  This is the `sum(1 for .. if ..)` idiom the grid uses. The count is proved equal to the
  size of the selected set.
- `Grids` (`grid.dfy`): the mutable `Grid` class. Its fixed `size` is the source's `size()`
  accessor. Its `cells` map is written in place by the constructor and by `SetCell`. The
  read-only queries (`get_cell`, `count_living_neighbors`, `living_cells`) are members of the
  value `GridState` that `Grid.State()` returns. `GridState.Valid()` is the grid invariant:
  the stored keys are exactly the in-bounds positions.
- `Rules` (`game_rules.dfy`): the B3/S23 rule.
- `Engine` (`game_engine.dfy`): `NextGeneration`, the synchronous step as a pure function on
  states. `CalculateNextGeneration` is the loop that builds the next grid into a fresh grid.
  The `GameEngine` class owns a grid and a generation.
- `Iteration` (`iteration.dfy`): iterating a step function, with fixed points, period-two
  points and invariants carried over any number of steps.
- `Patterns` (`patterns.dfy`): the empty board, the block and the blinker, proved on boards
  of any size where they fit.
- `Legacy` (`game_of_life.py` as `game_of_life.dfy`): the older `GameOfLife` facade. Its
  array-style accessors become members that take `(row, col)`:
  - `GetItem` is `grid[row][col]`;
  - `SetItem` is `grid[row][col] = value`;
  - `SetGrid` is the `grid` setter;
  - `ToList` is the grid accessor's `_to_list`;
  - `Len` is the accessors' `__len__`;
  - `GenerationNumber` and `SetGeneration` are the `generation` property and its setter.

  Its step computes the whole next picture as an n x n boolean matrix and then overwrites
  its own grid cell by cell. `Step` proves that this in-place write-back still gives exactly
  `NextGeneration` of the previous state.

Python's `ValueError` from `set_cell` on a position outside the board is modelled as the
result `Failed(OutOfBounds(p))`. On that path nothing changes.

`GridSize` accepts any integers and has no check for non-positive dimensions. Such a board
contains nothing and enumerates nothing (`GridSizes.DegenerateBoardIsEmpty`). The one place
that needs a positive size is the `GameOfLife` constructor. There it is a precondition,
because the configuration object guarantees `grid_size >= 1`.

The legacy facade overwrites its grid in place. `Legacy.GameOfLife.Step` proves that this
still equals the synchronous update.

## Model

| member | source | states |
|---|---|---|
| Cells.Cell.IsAlive | domain/cell.py:24-26 | a cell is alive exactly when its `alive` field is set |
| Cells.Cell.IsDead | domain/cell.py:28-30 | a cell is dead exactly when its `alive` field is not set |
| Cells.AliveCell | domain/cell.py:14-17 | the alive factory gives a cell that is alive and not dead |
| Cells.DeadCell | domain/cell.py:19-22 | the dead factory gives a cell that is dead and not alive |
| Cells.ExactlyTwoCells | domain/cell.py:5-22 | the two factory values differ, every cell equals one of them, and it is the alive one exactly when it is alive |
| Cells.DeadIsNotAlive | domain/cell.py:24-30 | `is_dead` is exactly the negation of `is_alive` |
| Cells.SameLivenessSameCell | domain/cell.py:5-12 | two cells that agree on being alive are the same value (frozen record, structural equality) |
| Positions.Position.Neighbors | domain/position.py:17-28 | exactly 8 positions; first (row-1, col-1), last (row+1, col+1); q is among them iff it differs by at most 1 in each coordinate and is not the position itself (so the position is never its own neighbour and negative coordinates occur at the border); strictly row-major order |
| Positions.NeighborSymmetric | domain/position.py:23-28 | q is a neighbour of p iff p is a neighbour of q |
| Positions.NeighborsDistinct | domain/position.py:23-28 | the 8 neighbours are pairwise distinct |
| GridSizes.GridSize.Contains | domain/grid_size.py:20-30 | p is on the board iff 0 <= row < height and 0 <= col < width |
| GridSizes.GridSize.AllPositions | domain/grid_size.py:32-41 | a position is enumerated iff `contains` holds for it |
| GridSizes.GridSize.AllPositionsRowMajor | domain/grid_size.py:39-41 | the enumeration has width * height elements (0 for a non-positive dimension) and element i is (i / width, i % width) |
| GridSizes.GridSize.AllPositionsDistinct | domain/grid_size.py:39-41 | no position is enumerated twice, so every contained position occurs exactly once |
| GridSizes.DegenerateBoardIsEmpty | domain/grid_size.py:17-41 | with width <= 0 or height <= 0 nothing is contained and the enumeration is empty; the size itself is not rejected |
| Generations.Generation.Next | domain/generation.py:14-20 | the new counter is exactly one more, so strictly greater |
| Generations.AdvanceAddsK | domain/generation.py:14-20 | k calls of `next` add exactly k |
| Generations.AdvanceFromZero | tests/test_game_engine.py:92-102 | k steps from generation 0 reach generation k |
| Generations.AdvanceStrictlyIncreasing | domain/generation.py:20 | along a run of `next` calls the number strictly increases |
| Counting.CountIf | domain/grid.py:66-68 | the count of matching elements never exceeds the length |
| Counting.CountIfIsCardinality | domain/grid.py:66-68 | over distinct elements the count is the size of the set of elements that pass the test |
| Counting.CountIfCongruent | domain/grid.py:66-68 | two tests that agree on every element give the same count |
| Grids.GridState.Get | domain/grid.py:44-55 | off the board the cell is dead; on the board of a valid grid it is the stored cell |
| Grids.GridState.LivingNeighbors | domain/grid.py:57-68 | the neighbour count lies in 0..8 |
| Grids.GridState.LivingCells | domain/grid.py:70-77 | q is a living cell iff q is on the board and its cell is alive |
| Grids.ValidStatesEqual | domain/grid.py:44-55 | two valid grids of one size that read the same on every square are equal |
| Grids.SameLivingSameState | domain/grid.py:70-77 | a valid grid is determined by its size and its set of living cells |
| Grids.LivingNeighborsAreAdjacentLivingCells | domain/grid.py:57-68 | the neighbour count equals the number of living cells adjacent to p: off-board neighbours never count and p itself never counts |
| Grids.OwnCellNotCounted | tests/test_characterization.py:167-173 | whatever is written at p, the neighbour count of p is unchanged |
| Grids.LivingNeighborsSpelledOut | domain/grid.py:66-68 | the neighbour count of (r, c) is the sum, over the 8 surrounding squares in row-major order, of 1 for each square that is on the board and alive |
| Grids.CornerAtMostThree | tests/test_characterization.py:61-100 | at a corner of the board at most 3 neighbours are counted |
| Grids.EdgeAtMostFive | tests/test_characterization.py:102-126 | on an edge of the board at most 5 neighbours are counted |
| Grids.FullBoardLiveAt | domain/grid.py:66-68 | when every square of the board is alive, each of the 8 surrounding squares counts exactly when it is on the board |
| Grids.FullCornerHasThree | tests/test_characterization.py:61-100 | on a board of at least 2 x 2 whose every square is alive, a corner has exactly 3 living neighbours, so the corner bound is reached |
| Grids.FullEdgeHasFive | tests/test_characterization.py:102-126 | on a board of at least 2 x 2 whose every square is alive, an edge square that is not a corner has exactly 5 living neighbours, so the edge bound is reached |
| Grids.PatternNeighborCount | domain/grid.py:57-77 | when the living cells are exactly a pattern, the count at p is the number of pattern cells adjacent to p |
| Grids.Grid.constructor | domain/grid.py:15-28 | a new grid satisfies the invariant, holds a dead cell at every in-bounds position and has no living cells |
| Grids.Grid.SetCell | domain/grid.py:30-42 | succeeds iff p is on the board; on failure reports OutOfBounds(p) and leaves the cells unchanged; on success stores c at p; no other position changes and the size never changes |
| Rules.ApplySurvivalRules | rules/game_rules.py:31-36 | a living cell lives on iff the count is 2 or 3 |
| Rules.ApplyBirthRules | rules/game_rules.py:38-43 | a dead cell comes alive iff the count is exactly 3 |
| Rules.CalculateNextState | rules/game_rules.py:15-29 | for every integer count: 3 gives alive whatever the current cell, 2 keeps the current cell, any other count gives dead |
| Rules.SurvivalAndBirth | rules/game_rules.py:26-43 | for a living cell the next cell is alive iff the count is in {2, 3}; for a dead cell iff it is 3 |
| Engine.NextGeneration | engine/game_engine.py:50-67 | the next state has the same size, satisfies the grid invariant, and at every in-bounds p holds the rule applied to the old cell and the old count at p |
| Engine.CalculateNextGeneration | engine/game_engine.py:50-67 | the loop over all positions into a fresh grid gives exactly `NextGeneration` of the old state; the old grid is not modified and no `set_cell` is refused |
| Engine.GameEngine.constructor | engine/game_engine.py:22-33 | the engine holds the supplied grid, at generation 0 |
| Engine.GameEngine.Step | engine/game_engine.py:35-38 | the grid is replaced by a fresh grid of the same size holding `NextGeneration` of the old state, and the generation advances by exactly one |
| Iteration.FixedPointForever | tests/test_game_engine.py:71-90 | a state the step leaves unchanged stays unchanged after any number of steps |
| Iteration.PeriodTwoForever | tests/test_golden_master.py:45-60 | a state that two steps bring back is back after every even number of steps |
| Iteration.InvariantForever | tests/test_golden_master.py:261-269 | a property every step preserves holds after any number of steps |
| Patterns.NextAliveIff | engine/game_engine.py:59-65 | p is alive next time iff it is on the board and has 3 living neighbours, or has 2 and is alive now |
| Patterns.EmptyStaysEmpty | tests/test_game_engine.py:58-69 | a board with no living cell has none after one step |
| Patterns.EmptyStaysEmptyForever | tests/test_golden_master.py:261-269 | a board with no living cell has none after any number of steps |
| Patterns.PatternStep | engine/game_engine.py:56-67 | when the living cells are exactly a pattern, and the squares the rule makes alive for that pattern are exactly an image lying on the board, the next generation's living cells are exactly that image |
| Patterns.BlockNeighborCount | tests/test_golden_master.py:85-99 | each block cell has exactly 3 block neighbours and every cell outside the block has at most 2 |
| Patterns.BlockIsStill | tests/test_game_engine.py:71-90 | a 2x2 block that fits on the board is unchanged by a step |
| Patterns.BlockStillForever | tests/test_golden_master.py:66-83 | the block is unchanged after any number of steps |
| Patterns.HorizontalNeighborCount | tests/test_golden_master.py:14-43 | around a horizontal line of three, the cells the rule makes alive are exactly the crossing vertical line |
| Patterns.VerticalNeighborCount | tests/test_golden_master.py:14-43 | around a vertical line of three, the cells the rule makes alive are exactly the crossing horizontal line |
| Patterns.BlinkerTurnsVertical | tests/test_game_engine.py:39-56 | a horizontal blinker whose 3x3 box fits on the board becomes the vertical blinker |
| Patterns.BlinkerTurnsHorizontal | tests/test_golden_master.py:14-43 | a vertical blinker whose 3x3 box fits on the board becomes the horizontal blinker |
| Patterns.BlinkerReturns | tests/test_golden_master.py:14-43 | two steps bring the horizontal blinker back to the same state |
| Patterns.BlinkerPeriodTwo | tests/test_golden_master.py:45-60 | the blinker differs from itself after one step and is back after two |
| Patterns.BlinkerEvenSteps | tests/test_golden_master.py:45-60 | after any even number of steps the blinker is back |
| Legacy.Matrix | game_of_life.py:52-62 | the picture of an n x n board has n rows of n entries |
| Legacy.MatrixDeterminesState | game_of_life.py:148-154 | two valid n x n grids with the same picture are the same state, so writing a picture back loses nothing |
| Legacy.PictureOf | game_of_life.py:52-62 | an n x n matrix that agrees with a state on every square is that state's picture |
| Legacy.WriteBackIsNext | game_of_life.py:228-231 | a valid board of the same size that shows, square by square, the picture of the next generation of `before` is that next generation |
| Legacy.ReadMatrix | game_of_life.py:52-62 | the nested row and column loops read exactly the picture of the grid |
| Legacy.GameOfLife.constructor | game_of_life.py:118-140 | a new game is at generation 0 on a fresh n x n grid whose cell at p is alive iff the draw for p chose it |
| Legacy.GameOfLife.InitializeGrid | game_of_life.py:166-171 | every chosen position becomes alive, every other cell keeps its state, and the invariant holds |
| Legacy.GameOfLife.GenerationNumber | game_of_life.py:156-159 | the generation property is the counter's number; the setter and `Step` state what it reads afterwards |
| Legacy.GameOfLife.SetGeneration | game_of_life.py:161-164 | the generation becomes the given number, so the getter then reads exactly that number, and the grid is untouched |
| Legacy.GameOfLife.Len | game_of_life.py:35-37 | the length is the grid's height, which equals its width, and is at least 1 |
| Legacy.GameOfLife.ToList | game_of_life.py:52-62 | returns n rows of n booleans; entry [r][c] is whether (r, c) is alive |
| Legacy.GameOfLife.GetItem | game_of_life.py:83-86 | an out-of-range or negative index reads false, without wrapping or failing; in range it is the stored cell's liveness |
| Legacy.GameOfLife.SetItem | game_of_life.py:88-91 | fails with OutOfBounds iff the index is off the board; on success (row, col) reads back the value; every other square reads as before |
| Legacy.GameOfLife.CountNeighbors | game_of_life.py:173-185 | equals the grid's living-neighbour count at (row, col), at most 8 |
| Legacy.GameOfLife.CalculateNextGeneration | game_of_life.py:187-216 | returns the picture of `NextGeneration` of the current state; the game itself is unchanged |
| Legacy.GameOfLife.SetGrid | game_of_life.py:147-154 | after the write every (row, col) of the n x n board reads value[row][col], and the invariant holds |
| Legacy.GameOfLife.Step | game_of_life.py:228-231 | the same grid object now holds `NextGeneration` of the previous state, the dimensions are unchanged, and the generation advances by exactly one, so the getter reads one more than before |

## Left out

- `GameEngine.run`, `GameOfLife.run` and `main`: an endless display loop with sleeps and keyboard interruption. It is timing and I/O only.
- The console display, `_clear_screen` and `_display`: terminal output only.
- Random seeding: `random.random() < density` is not modelled. The draw for each position is the constructor's parameter `chosen`. Density 0 corresponds to choosing nothing, which gives an empty board.
- The configuration object: only its guarantee `grid_size >= 1` is kept, as a precondition of the `GameOfLife` constructor. Its float fields (`delay`, `initial_density`) are not modelled.
- The slice branch of `RowAccessor.__getitem__`, `__iter__` and `__eq__` on the accessors, and the `GridAccessor`/`RowAccessor` objects themselves. The accessors are replaced by members that take `(row, col)`.
- `__str__` and `__format__` of `Position` and `Generation`: display formatting only.
- Legacy.GameOfLife.SetGrid: requires a matrix with at least n rows of at least n entries. For a shorter one Python raises `IndexError` partway through, after some cells are already written. That partial write is not modelled.
- Python's dynamic typing is not modelled. Indices are integers and cell values are booleans.
