// Cell states and the value-level picture of a board's contents.
module States {

  /** The two states a cell can be in. */
  datatype CellState = LIVE | DEAD

  /**
   * A board's contents as a value. Rows come first, as in the source's
   * `Cell[height][width]`, so `g[x][y]` is the cell the source reads as
   * `cells[x][y]`.
   */
  type Grid = seq<seq<CellState>>

  /** `g` has `rows` rows of `cols` cells each. */
  ghost predicate Shaped(g: Grid, rows: int, cols: int)
  {
    |g| == rows && forall x :: 0 <= x < |g| ==> |g[x]| == cols
  }

  /** `g` is a square grid: as many cells per row as there are rows. */
  ghost predicate Square(g: Grid)
  {
    Shaped(g, |g|, |g|)
  }

  /** Both grids have the same number of rows and the same row lengths. */
  ghost predicate SameShape(g: Grid, h: Grid)
  {
    |g| == |h| && forall x :: 0 <= x < |g| ==> |g[x]| == |h[x]|
  }

  /** Every cell of `g` is DEAD. */
  ghost predicate IsAllDead(g: Grid)
  {
    forall x, y :: 0 <= x < |g| && 0 <= y < |g[x]| ==> g[x][y] == DEAD
  }

  /** The grid of `rows` rows of `cols` DEAD cells. */
  function DeadGrid(rows: nat, cols: nat): (g: Grid)
    ensures Shaped(g, rows, cols) && IsAllDead(g)
  {
    seq(rows, _ => seq(cols, _ => DEAD))
  }

  /** An all-DEAD grid is determined by its shape alone. */
  lemma OnlyDeadGrid(g: Grid, rows: nat, cols: nat)
    requires Shaped(g, rows, cols) && IsAllDead(g)
    ensures g == DeadGrid(rows, cols)
  {
    SameCells(g, DeadGrid(rows, cols));
  }

  /** The coordinates of the cells of `g` that are in state `s`. */
  ghost function CellsIn(g: Grid, s: CellState): set<(int, int)>
  {
    set x, y | 0 <= x < |g| && 0 <= y < |g[x]| && g[x][y] == s :: (x, y)
  }

  /** The coordinates at which two grids of the same shape disagree. */
  ghost function Changed(g: Grid, h: Grid): set<(int, int)>
    requires SameShape(g, h)
  {
    set x, y | 0 <= x < |g| && 0 <= y < |g[x]| && g[x][y] != h[x][y] :: (x, y)
  }

  /** Grids of the same shape that agree cell by cell are equal. */
  lemma SameCells(g: Grid, h: Grid)
    requires SameShape(g, h)
    requires forall x, y :: 0 <= x < |g| && 0 <= y < |g[x]| ==> g[x][y] == h[x][y]
    ensures g == h
  {
    forall x | 0 <= x < |g|
      ensures g[x] == h[x]
    {
      assert |g[x]| == |h[x]|;
    }
  }

  /** Removing a subset takes exactly its size away. */
  lemma CardDifference<T>(a: set<T>, b: set<T>)
    requires b <= a
    ensures |a - b| == |a| - |b|
  {
    assert a == (a - b) + b;
  }
}
