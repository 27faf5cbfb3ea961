// The classic rules engine (ClassicGameOfLifeEngine.java): seeding and
// generation advancement, operating on a board it receives per call.
module ClassicEngine {
  import opened States
  import opened Rules
  import opened Boards

  /** `g` is `start` with exactly the cells in `seeded` set LIVE. */
  ghost predicate SeededFrom(start: Grid, g: Grid, seeded: set<(int, int)>)
  {
    SameShape(start, g) &&
    forall x, y :: 0 <= x < |g| && 0 <= y < |g[x]| ==>
      g[x][y] == if (x, y) in seeded then LIVE else start[x][y]
  }

  /** While fewer cells are seeded than were DEAD at the start, a DEAD cell remains. */
  lemma DeadCellRemains(start: Grid, g: Grid, seeded: set<(int, int)>) returns (x: int, y: int)
    requires SeededFrom(start, g, seeded) && seeded <= CellsIn(start, DEAD)
    requires |seeded| < |CellsIn(start, DEAD)|
    ensures 0 <= x < |g| && 0 <= y < |g[x]| && g[x][y] == DEAD
  {
    CardDifference(CellsIn(start, DEAD), seeded);
    var p :| p in CellsIn(start, DEAD) - seeded;
    x, y := p.0, p.1;
  }

  /** Seeding a cell that is DEAD now seeds a cell that was DEAD at the start and not yet seeded. */
  lemma SeedOne(start: Grid, g: Grid, seeded: set<(int, int)>, x: int, y: int)
    requires SeededFrom(start, g, seeded) && seeded <= CellsIn(start, DEAD)
    requires 0 <= x < |g| && 0 <= y < |g[x]| && g[x][y] == DEAD
    ensures (x, y) !in seeded && (x, y) in CellsIn(start, DEAD)
    ensures SeededFrom(start, g[x := g[x][y := LIVE]], seeded + {(x, y)})
  {
  }

  /** Once seeding stops, the changed cells are the seeded ones and no LIVE cell was lost. */
  lemma SeededCells(start: Grid, g: Grid, seeded: set<(int, int)>)
    requires SeededFrom(start, g, seeded) && seeded <= CellsIn(start, DEAD)
    ensures Changed(start, g) == seeded && seeded <= CellsIn(g, LIVE)
    ensures CellsIn(start, LIVE) <= CellsIn(g, LIVE)
    ensures seeded == {} ==> g == start
  {
    if seeded == {} {
      forall x | 0 <= x < |start|
        ensures g[x] == start[x]
      {
        assert |g[x]| == |start[x]|;
      }
    }
  }

  /**
   * Makes `initLifeNumber` currently-DEAD cells LIVE. The source draws
   * random coordinates and skips any that are already alive; a skipped
   * draw changes nothing, so each accepted draw is modelled as a choice of
   * some cell that is DEAD at that moment. The loop ends only if enough
   * DEAD cells remain, hence the last requires.
   */
  method SeedLife(board: GridGameBoard, initLifeNumber: int)
    requires board.Valid()
    requires initLifeNumber > 0 ==> board.width == board.height
    requires initLifeNumber <= |CellsIn(board.Snapshot(), DEAD)|
    modifies board.cells
    ensures CellsIn(old(board.Snapshot()), LIVE) <= CellsIn(board.Snapshot(), LIVE)
    ensures Changed(old(board.Snapshot()), board.Snapshot()) <= CellsIn(old(board.Snapshot()), DEAD)
    ensures Changed(old(board.Snapshot()), board.Snapshot()) <= CellsIn(board.Snapshot(), LIVE)
    ensures |Changed(old(board.Snapshot()), board.Snapshot())| == if initLifeNumber > 0 then initLifeNumber else 0
    ensures initLifeNumber <= 0 ==> board.Snapshot() == old(board.Snapshot())
  {
    ghost var start := board.Snapshot();
    ghost var seeded: set<(int, int)> := {};
    var seededLife := initLifeNumber;
    while seededLife > 0
      invariant seededLife <= initLifeNumber
      invariant seededLife > 0 ==> board.width == board.height && |seeded| == initLifeNumber - seededLife
      invariant seededLife <= 0 ==> |seeded| == if initLifeNumber > 0 then initLifeNumber else 0
      invariant initLifeNumber <= 0 ==> seeded == {}
      invariant seeded <= CellsIn(start, DEAD)
      invariant SeededFrom(start, board.Snapshot(), seeded)
      decreases seededLife
    {
      ghost var g := board.Snapshot();
      ghost var px, py := DeadCellRemains(start, g, seeded);
      assert !board.IsCellAlive(px, py);
      var x, y :| 0 <= x < board.width && 0 <= y < board.height && !board.IsCellAlive(x, y);
      assert !board.IsCellAlive(x, y) && g[x][y] == board.GetCellState(x, y);
      SeedOne(start, g, seeded, x, y);
      board.SetCellState(x, y, LIVE);
      seededLife := seededLife - 1;
      seeded := seeded + {(x, y)};
    }
    SeededCells(start, board.Snapshot(), seeded);
  }

  /**
   * `countNeighbors`: scans the eight offsets, skipping those that fall off
   * the board (tested as `nx < width && ny < height`) and counting the LIVE
   * ones. Every cell it reads is on the board. The test matches the storage
   * on a square board; on a board with a zero dimension it rejects every
   * offset.
   */
  method CountNeighbors(board: GridGameBoard, x: int, y: int) returns (neighbors: int)
    requires board.Valid() && (board.width == board.height || board.width == 0 || board.height == 0)
    ensures board.width == board.height ==> neighbors == NeighborCount(board.Snapshot(), x, y)
    ensures board.width != board.height ==> neighbors == 0
    ensures 0 <= neighbors <= 8
  {
    var width := board.width;
    var height := board.height;
    var relativePositions := Offsets;
    ghost var g := board.Snapshot();
    neighbors := 0;
    for k := 0 to |relativePositions|
      invariant neighbors == if width == height then NeighborsFrom(g, x, y, k) else 0
    {
      var neighborX := x + relativePositions[k].0;
      var neighborY := y + relativePositions[k].1;
      if neighborX >= 0 && neighborX < width && neighborY >= 0 && neighborY < height {
        neighbors := neighbors + if board.IsCellAlive(neighborX, neighborY) then 1 else 0;
      }
    }
  }

  /**
   * `calculateNextGenCellState`: the rule applied to the state the board
   * holds at (x, y) and the given neighbour count.
   */
  function CalculateNextGenCellState(board: GridGameBoard, x: int, y: int, neighbors: int): (next: CellState)
    reads board.cells
    requires board.Valid() && 0 <= x < board.height && 0 <= y < board.width
    ensures next == NextState(board.Snapshot()[x][y], neighbors)
  {
    NextState(board.GetCellState(x, y), neighbors)
  }

  /**
   * `calculateNextGeneration`: x over `height`, y over `width`, each cell
   * overwritten in place with the rule applied to its state and its count
   * on the board as it stands. The board ends as `Sweep` of the old one.
   * On a board with a zero dimension no cell is visited.
   */
  method CalculateNextGeneration(board: GridGameBoard)
    requires board.Valid() && (board.width == board.height || board.width == 0 || board.height == 0)
    modifies board.cells
    ensures board.width == board.height ==> board.Snapshot() == Sweep(old(board.Snapshot()))
    ensures board.width != board.height ==> board.Snapshot() == old(board.Snapshot())
  {
    ghost var g := board.Snapshot();
    var neighbors := 0;
    for x := 0 to board.height
      invariant board.width == board.height ==> board.Snapshot() == SweepRows(g, x)
      invariant board.width != board.height ==> board.Snapshot() == g
    {
      for y := 0 to board.width
        invariant board.width == board.height ==> board.Snapshot() == SweepRow(SweepRows(g, x), x, y)
        invariant board.width != board.height ==> board.Snapshot() == g
      {
        neighbors := CountNeighbors(board, x, y);
        board.SetCellState(x, y, CalculateNextGenCellState(board, x, y, neighbors));
      }
    }
  }

  // ---------------------------------------------------------------------
  // The double-buffered generation: every new state is computed from the
  // previous generation alone, into a separate buffer, then copied back.

  /** The first `y` cells of row `x` of the next generation of `g`, left to right. */
  ghost function NextRow(g: Grid, x: int, y: int): (row: seq<CellState>)
    requires Square(g) && 0 <= x < |g| && 0 <= y <= |g|
    ensures |row| == y
  {
    if y == 0 then [] else NextRow(g, x, y - 1) + [NextState(g[x][y - 1], NeighborCount(g, x, y - 1))]
  }

  /** Built cell by cell, the row is the row of `Generation`. */
  lemma {:induction false} NextRowIsGeneration(g: Grid, x: int, y: int)
    requires Square(g) && 0 <= x < |g| && 0 <= y <= |g|
    ensures NextRow(g, x, y) == Generation(g)[x][..y]
  {
    if y > 0 {
      NextRowIsGeneration(g, x, y - 1);
      assert Generation(g)[x][..y] == Generation(g)[x][..y - 1] + [Generation(g)[x][y - 1]];
    }
  }

  /** Writes row `x` of the next generation into `next`; the board and the other rows are untouched. */
  method FillRow(board: GridGameBoard, next: array2<CellState>, x: int)
    requires board.Valid() && board.width == board.height && 0 <= x < board.height
    requires next.Length0 == next.Length1 == board.height && next != board.cells
    modifies next
    ensures forall j :: 0 <= j < board.height ==> next[x, j] == NextRow(board.Snapshot(), x, board.height)[j]
    ensures forall i, j :: 0 <= i < board.height && i != x && 0 <= j < board.height ==> next[i, j] == old(next[i, j])
  {
    ghost var g := board.Snapshot();
    ghost var row: seq<CellState> := [];
    for y := 0 to board.height
      invariant row == NextRow(g, x, y)
      invariant forall j :: 0 <= j < y ==> next[x, j] == row[j]
      invariant forall i, j :: 0 <= i < board.height && i != x && 0 <= j < board.height ==> next[i, j] == old(next[i, j])
    {
      var neighbors := CountNeighbors(board, x, y);
      next[x, y] := CalculateNextGenCellState(board, x, y, neighbors);
      row := row + [next[x, y]];
    }
  }

  /** A fresh buffer holding `Generation` of the board, which is left untouched. */
  method NextGenerationBuffer(board: GridGameBoard) returns (next: array2<CellState>)
    requires board.Valid() && board.width == board.height
    ensures fresh(next) && next.Length0 == next.Length1 == board.height
    ensures forall i, j :: 0 <= i < board.height && 0 <= j < board.height ==>
      next[i, j] == Generation(board.Snapshot())[i][j]
  {
    ghost var g := board.Snapshot();
    var n := board.height;
    next := new CellState[n, n];
    for x := 0 to n
      invariant forall i, j :: 0 <= i < x && 0 <= j < n ==> next[i, j] == NextRow(g, i, n)[j]
    {
      FillRow(board, next, x);
    }
    forall i | 0 <= i < n
      ensures NextRow(g, i, n) == Generation(g)[i]
    {
      NextRowIsGeneration(g, i, n);
    }
  }

  /** Copies `next` into the board, cell by cell. */
  method CopyBack(board: GridGameBoard, next: array2<CellState>)
    requires board.Valid() && next.Length0 == board.height && next.Length1 == board.width
    requires next != board.cells
    modifies board.cells
    ensures forall i, j :: 0 <= i < board.height && 0 <= j < board.width ==> board.cells[i, j] == next[i, j]
  {
    for x := 0 to board.height
      invariant forall i, j :: 0 <= i < x && 0 <= j < board.width ==> board.cells[i, j] == next[i, j]
    {
      for y := 0 to board.width
        invariant forall i, j :: 0 <= i < x && 0 <= j < board.width ==> board.cells[i, j] == next[i, j]
        invariant forall j :: 0 <= j < y ==> board.cells[x, j] == next[x, j]
      {
        board.SetCellState(x, y, next[x, y]);
      }
    }
  }

  /**
   * The generation as the documented rules describe it: the board ends as
   * `Generation` of the old one, each cell determined by the previous
   * generation alone.
   */
  method CalculateNextGenerationBuffered(board: GridGameBoard)
    requires board.Valid() && board.width == board.height
    modifies board.cells
    ensures board.Snapshot() == Generation(old(board.Snapshot()))
  {
    ghost var r := Generation(board.Snapshot());
    var next := NextGenerationBuffer(board);
    CopyBack(board, next);
    SameCells(board.Snapshot(), r);
  }
}
