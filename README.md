# Game of Life: board, cell and classic rules engine

This project models the simulation core of a Java Game of Life:

- the mutable grid board (`GridGameBoard`);
- the cell it is made of (`Cell`);
- the classic B3/S23 rules engine (`ClassicGameOfLifeEngine`) that seeds the board and advances it one generation at a time.

It proves properties of that model.

Modules:

- `States` (`states.dfy`) holds the two cell states and `Grid`, the board's contents as a value (`seq<seq<CellState>>`). `g[x][y]` is the cell the source reads as `cells[x][y]`.
- `Cells` (`cells.dfy`) holds the `Cell` class: a mutable `state` with its getter, setter, constructor and `IsAlive`.
- `Boards` (`boards.dfy`) holds `GridGameBoard`, a class over an `array2<CellState>` allocated `[height, width]` and indexed `[x, y]`, as in the source.
  - `Snapshot()` is the board's contents as a `Grid`.
  - Every state-changing method states its new snapshot.
- `Rules` (`rules.dfy`) is the value-level specification:
  - the transition rule `NextState`;
  - the engine's eight-offset neighbour count `NeighborCount`, with an independent Moore-neighbourhood description;
  - the in-place sweep the engine performs (`Visit`, `SweepRow`, `SweepRows`, `Sweep`);
  - the textbook generation `Generation`, in which every cell is computed from the previous generation;
  - lemmas about still lifes, the block and the blinker.
- `ClassicEngine` (`engine.dfy`) holds the engine's operations as methods on a board:
  - `CountNeighbors`, `CalculateNextGenCellState` and `CalculateNextGeneration`, each proved against the `Rules` functions;
  - `SeedLife`, whose contract is stated on the sets of LIVE, DEAD and changed cells and proved through the seeding invariant `SeededFrom`;
  - `CalculateNextGenerationBuffered`, a double-buffered generation that meets the documented rules (see Findings).

The source's width/height conventions agree only on square boards:

- `initCells`, `getCellState` and `setCellState` treat `x` as the row, bounded by `height`.
- `reset` and the bounds test in `countNeighbors` bound `x` by `width`.
- `calculateNextGeneration` sweeps `x < height`.

Operations whose bounds are swapped therefore require a square board, or one with a zero dimension where their loops visit no cell, so every array access is within bounds.

## Model

| member | source | states |
|---|---|---|
| Cells.Cell.constructor | src/main/java/mna/gol/entity/Cell.java:9-11 | a cell built with state `s` holds `s` |
| Cells.Cell.GetState | src/main/java/mna/gol/entity/Cell.java:7-11 | the Lombok getter returns the state last constructed or set; `Lifecycle` shows it across a constructor and a set |
| Cells.Cell.SetState | src/main/java/mna/gol/entity/Cell.java:8-11 | after `setState(s)` the cell's state is `s` |
| Cells.Cell.IsAlive | src/main/java/mna/gol/entity/Cell.java:13-15 | alive exactly when the state is LIVE, not alive exactly when it is DEAD; it only reads the cell |
| Cells.Lifecycle | src/main/java/mna/gol/entity/Cell.java:7-15 | a client sees the constructed state, then the state most recently set, with `isAlive` agreeing at each point |
| Boards.GridGameBoard.constructor | src/main/java/mna/gol/entity/GridGameBoard.java:10-24 | the dimensions are the given ones (constant from then on), the storage is fresh `[height, width]`, and every cell is DEAD |
| Boards.GridGameBoard.InitCells | src/main/java/mna/gol/entity/GridGameBoard.java:26-32 | after the `x < height`, `y < width` loops every cell is DEAD |
| Boards.GridGameBoard.GetCellState | src/main/java/mna/gol/entity/GridGameBoard.java:34-37 | for `0 <= x < height` and `0 <= y < width`, returns the state stored at `[x][y]` |
| Boards.GridGameBoard.IsCellAlive | src/main/java/mna/gol/engine/ClassicGameOfLifeEngine.java:72-73 | the board-level `isCellAlive`: true exactly for LIVE cells, false exactly for DEAD ones |
| Boards.GridGameBoard.SetCellState | src/main/java/mna/gol/entity/GridGameBoard.java:39-42 | cell (x, y) now holds `s`, as a later get returns; every other cell keeps its state |
| Boards.GridGameBoard.Reset | src/main/java/mna/gol/entity/GridGameBoard.java:44-51 | on a square board, or one with a zero dimension, every cell ends DEAD; the result depends only on the fixed dimensions, so a second reset changes nothing |
| Rules.NextState | src/main/java/mna/gol/engine/ClassicGameOfLifeEngine.java:42-53 | LIVE with < 2 live neighbours dies, with 2 or 3 survives, with > 3 dies; DEAD with exactly 3 is born, otherwise stays DEAD |
| Rules.NeighborsFrom | src/main/java/mna/gol/engine/ClassicGameOfLifeEngine.java:67-75 | the cells counted among the first `k` offsets number at most `k` |
| Rules.NeighborCount | src/main/java/mna/gol/engine/ClassicGameOfLifeEngine.java:55-79 | the count over all eight offsets is at most 8 |
| Rules.CountedFromSize | src/main/java/mna/gol/engine/ClassicGameOfLifeEngine.java:68-75 | the scan counts each on-board LIVE offset cell exactly once; no offset repeats a cell |
| Rules.NeighborCountSum | src/main/java/mna/gol/engine/ClassicGameOfLifeEngine.java:60-75 | the count is the sum over the eight offsets, in scan order, of "on the board and LIVE" |
| Rules.NeighborCountIsMooreCount | src/main/java/mna/gol/engine/ClassicGameOfLifeEngine.java:60-75 | the count equals the number of LIVE on-board cells at distance at most 1 in each axis, the cell itself excluded |
| Rules.SelfNotCounted | src/main/java/mna/gol/engine/ClassicGameOfLifeEngine.java:60-64 | changing the cell's own state never changes its neighbour count |
| Rules.CornerAtMostThree | src/main/java/mna/gol/engine/ClassicGameOfLifeEngine.java:60-72 | the corner (0, 0) has at most three live neighbours, since every offset with a -1 is skipped |
| Rules.SweepRowCells | src/main/java/mna/gol/engine/ClassicGameOfLifeEngine.java:34-38 | sweeping part of row x changes only row x, only the visited cells, each from its own state and its count at the moment of the visit |
| Rules.SweepRowsCells | src/main/java/mna/gol/engine/ClassicGameOfLifeEngine.java:33-38 | sweeping rows before x leaves the later rows alone, and each earlier row is written by its own pass |
| Rules.SweepVisit | src/main/java/mna/gol/engine/ClassicGameOfLifeEngine.java:33-38 | each cell is written once, from its original state and its count on the board as it stands when the sweep reaches it; that board holds the new values before (x, y) in x-major order and the old values from (x, y) on |
| Rules.SweepAgreesOnStillLife | src/main/java/mna/gol/engine/ClassicGameOfLifeEngine.java:33-38 | on a board whose every cell is a fixed point of the rule, the in-place sweep and the textbook generation both leave it unchanged |
| Rules.AllDeadStaysDead | src/main/java/mna/gol/engine/ClassicGameOfLifeEngine.java:44 | an all-DEAD board stays all-DEAD under the sweep and under the textbook generation |
| Rules.BlockIsStill | src/main/java/mna/gol/engine/ClassicGameOfLifeEngine.java:43-52 | the 2-by-2 block inside a 4-by-4 board is a still life: its LIVE cells survive, no DEAD cell around it is born, and the sweep and the textbook generation both leave it unchanged |
| Rules.GenerationTurnsX | src/main/java/mna/gol/GameOfLife.java:12-21 | under the documented rules the blinker's line along x turns into the line along y |
| Rules.GenerationTurnsY | src/main/java/mna/gol/GameOfLife.java:12-21 | and back: the blinker has period 2 |
| Rules.SweepBreaksBlinker | src/main/java/mna/gol/engine/ClassicGameOfLifeEngine.java:33-38 | the in-place sweep on the blinker leaves (1, 0) DEAD where the documented rules make it LIVE, so the two generations differ |
| ClassicEngine.SeededCells | src/main/java/mna/gol/engine/ClassicGameOfLifeEngine.java:19-27 | once seeding stops, the changed cells are exactly the seeded ones, all LIVE, and no LIVE cell was lost |
| ClassicEngine.SeedLife | src/main/java/mna/gol/engine/ClassicGameOfLifeEngine.java:15-28 | exactly `initLifeNumber` previously DEAD cells become LIVE, no LIVE cell changes, nothing else changes; with `initLifeNumber <= 0` the board is unchanged |
| ClassicEngine.CountNeighbors | src/main/java/mna/gol/engine/ClassicGameOfLifeEngine.java:55-79 | on a square board returns `NeighborCount` of the board, on a board with a zero dimension 0; within [0, 8], reading only on-board cells, for any (x, y) |
| ClassicEngine.CalculateNextGenCellState | src/main/java/mna/gol/engine/ClassicGameOfLifeEngine.java:42-53 | the rule `NextState` applied to the state the board holds at (x, y) and the given count |
| ClassicEngine.CalculateNextGeneration | src/main/java/mna/gol/engine/ClassicGameOfLifeEngine.java:31-40 | on a square board the board ends as the in-place `Sweep` of the old board; on a board with a zero dimension it is unchanged |
| ClassicEngine.NextRowIsGeneration | src/main/java/mna/gol/GameOfLife.java:12-21 | a row built cell by cell from the previous generation is that row of `Generation` |
| ClassicEngine.NextGenerationBuffer | src/main/java/mna/gol/GameOfLife.java:12-21 | a fresh buffer holding `Generation` of the board, which is left untouched |
| ClassicEngine.CalculateNextGenerationBuffered | src/main/java/mna/gol/GameOfLife.java:12-21 | the board ends as `Generation` of the old board, each cell computed from the previous generation alone |

## Left out

- Rendering (`GridGameBoard.draw`, `GameBoard.render`, both Swing renderers) and the Swing user interface: these are drawing, floating-point scaling and window handling.
- The `GameOfLife` driver loop, with its `volatile` flags, threads and `Thread.sleep`, and `Launcher`'s wiring. `resetGame` is `Reset` followed by `SeedLife`.
- `ClassicEngine.SeedLife`:
  - `ThreadLocalRandom` and the uniform distribution of its draws are not modelled. Each accepted draw is a nondeterministic choice (`:|`) of a currently-DEAD cell.
  - A rejected draw changes nothing, so rejected draws are elided.
  - `requires initLifeNumber <= |CellsIn(board.Snapshot(), DEAD)|` excludes the inputs on which the source's loop never terminates.
  - On an empty board with `initLifeNumber > 0`, the source throws from `nextInt(0)`. The same precondition excludes that case.
- `ClassicEngine.SeedLife` also requires `width == height` when `initLifeNumber > 0`. The source draws x below `width` but indexes it as a row below `height`.
- `Boards.GridGameBoard.Reset`, `ClassicEngine.CountNeighbors` and `ClassicEngine.CalculateNextGeneration` require a square board or one with a zero dimension. On a non-square board with both dimensions positive, the source's swapped bounds index out of range, and that failure is not modelled. On a board with a zero dimension their loops visit no cell, and the model covers that case.
- The double-buffered `ClassicEngine.CalculateNextGenerationBuffered` and its helpers are stated for square boards only; they are not in the source.
- `log.trace` in `countNeighbors` is logging; it is left out.
- Cells are stored as `CellState` values in the array. The source holds one private `Cell` object per slot that is never shared, so no aliasing is lost. `Cell` itself is modelled as its own class.
- The engine's `Board` interface is not part of this model. Its `isCellAlive` is modelled as "the cell's state is LIVE", like `Cell.isAlive`.
- Integers are unbounded. Java `int` wrap-around in `x + dx` only arises at coordinates far outside any board, and the bounds test rejects the wrapped value just as it rejects the unbounded one.
- Where the system's specification and its code disagree, the model follows the code:
  - The constructor accepts zero dimensions (`nat`); it does not fail with an invalid-dimensions error. Negative dimensions make the Java array allocation throw and are outside `nat`.
  - There is no "seed count unsatisfiable" error; the source simply loops.
  - The generation is modelled as the in-place sweep the code performs. The double-buffered generation the specification mandates is modelled alongside it.
- The glider is not modelled. The block (in a 4-by-4 board) and the blinker stand in for still lifes and oscillators.

## Findings

| source | as written | input that shows it | evidently intended | confidence | as-written member | corrected member |
|---|---|---|---|---|---|---|
| src/main/java/mna/gol/engine/ClassicGameOfLifeEngine.java:33-38 | each cell is overwritten in place, so later cells count neighbours already moved to the next generation | the 3-by-3 blinker with LIVE cells (0, 1), (1, 1), (2, 1): (0, 1) dies first, so (1, 0) sees two live neighbours and is not born | every cell computed from the previous generation, as the documented rules state (GameOfLife.java:12-21), giving the line (1, 0), (1, 1), (1, 2) | not executed | Rules.SweepBreaksBlinker | ClassicEngine.CalculateNextGenerationBuffered |
