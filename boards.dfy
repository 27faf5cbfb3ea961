// The grid board (GridGameBoard.java): a fixed-size two-dimensional array of
// cell states with bounded get and set, and a reset to all-DEAD.
module Boards {
  import opened States

  class GridGameBoard {
    /** Fixed at construction, as the source's `final` fields. */
    const width: nat
    const height: nat

    /**
     * The storage, allocated `[height][width]` and indexed `[x, y]`: the
     * first index runs over `height`, the second over `width`.
     */
    const cells: array2<CellState>

    ghost predicate Valid()
    {
      cells.Length0 == height && cells.Length1 == width
    }

    /** The contents of the board as a value, row `x` holding `cells[x, _]`. */
    ghost function Snapshot(): (g: Grid)
      reads cells
      requires Valid()
      ensures Shaped(g, height, width)
      ensures forall x, y :: 0 <= x < height && 0 <= y < width ==> g[x][y] == cells[x, y]
    {
      seq(height, x requires 0 <= x < height reads cells =>
        seq(width, y requires 0 <= y < width reads cells => cells[x, y]))
    }

    /** A new board of the given dimensions, every cell DEAD. */
    constructor (width: nat, height: nat)
      ensures this.width == width && this.height == height
      ensures Valid() && fresh(cells)
      ensures IsAllDead(Snapshot()) && Snapshot() == DeadGrid(height, width)
    {
      this.width := width;
      this.height := height;
      cells := new CellState[height, width];
      new;
      InitCells();
    }

    /** Fills the storage with DEAD cells, x over `height`, y over `width`. */
    method InitCells()
      requires Valid()
      modifies cells
      ensures IsAllDead(Snapshot()) && Snapshot() == DeadGrid(height, width)
    {
      for x := 0 to height
        invariant forall i, j :: 0 <= i < x && 0 <= j < width ==> cells[i, j] == DEAD
      {
        for y := 0 to width
          invariant forall i, j :: 0 <= i < x && 0 <= j < width ==> cells[i, j] == DEAD
          invariant forall j :: 0 <= j < y ==> cells[x, j] == DEAD
        {
          cells[x, y] := DEAD;
        }
      }
      OnlyDeadGrid(Snapshot(), height, width);
    }

    /** The state of cell (x, y); x is bounded by `height` and y by `width`. */
    function GetCellState(x: int, y: int): (s: CellState)
      reads cells
      requires Valid() && 0 <= x < height && 0 <= y < width
      ensures s == Snapshot()[x][y]
      ensures (x, y) in CellsIn(Snapshot(), s)
    {
      cells[x, y]
    }

    /** The board-level `isCellAlive`: the cell's state is LIVE. */
    function IsCellAlive(x: int, y: int): (alive: bool)
      reads cells
      requires Valid() && 0 <= x < height && 0 <= y < width
      ensures alive <==> (x, y) in CellsIn(Snapshot(), LIVE)
      ensures !alive <==> (x, y) in CellsIn(Snapshot(), DEAD)
    {
      GetCellState(x, y) == LIVE
    }

    /** Overwrites cell (x, y) with `s`; every other cell keeps its state. */
    method SetCellState(x: int, y: int, s: CellState)
      requires Valid() && 0 <= x < height && 0 <= y < width
      modifies cells
      ensures Snapshot() == old(Snapshot())[x := old(Snapshot())[x][y := s]]
      ensures GetCellState(x, y) == s
      ensures forall i, j :: 0 <= i < height && 0 <= j < width && (i, j) != (x, y) ==>
        cells[i, j] == old(cells[i, j])
    {
      cells[x, y] := s;
      ghost var g0 := old(Snapshot());
      ghost var g1 := g0[x := g0[x][y := s]];
      assert Snapshot() == g1 by {
        forall i | 0 <= i < height
          ensures Snapshot()[i] == g1[i]
        {
          assert |Snapshot()[i]| == |g1[i]|;
        }
      }
    }

    /**
     * Sets every cell DEAD. The loops run x over `width` and y over
     * `height`, the other way round from the storage, so they stay in
     * bounds only on a square board or on one with a zero dimension, where
     * no cell is visited. The new state is determined by the dimensions
     * alone, which never change, so resetting twice is resetting once.
     */
    method Reset()
      requires Valid() && (width == height || width == 0 || height == 0)
      modifies cells
      ensures IsAllDead(Snapshot()) && Snapshot() == DeadGrid(height, width)
    {
      for x := 0 to width
        invariant forall i, j :: 0 <= i < x && 0 <= j < height ==> cells[i, j] == DEAD
      {
        for y := 0 to height
          invariant forall i, j :: 0 <= i < x && 0 <= j < height ==> cells[i, j] == DEAD
          invariant forall j :: 0 <= j < y ==> cells[x, j] == DEAD
        {
          cells[x, y] := DEAD;
        }
      }
      OnlyDeadGrid(Snapshot(), height, width);
    }
  }
}
