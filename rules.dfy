// The classic rules of the engine (ClassicGameOfLifeEngine.java) stated on
// grid values: the B3/S23 transition, the bounded neighbour count, the
// in-place sweep the engine performs, and the textbook generation.
module Rules {
  import opened States

  /**
   * The transition of one cell from its state and its number of live
   * neighbours (`calculateNextGenCellState`). The contract lists the four
   * transitions of the classic rules, plus "a dead cell otherwise stays
   * dead".
   */
  function NextState(current: CellState, neighbors: int): (next: CellState)
    ensures current == LIVE && neighbors < 2 ==> next == DEAD        // underpopulation
    ensures current == LIVE && 2 <= neighbors <= 3 ==> next == LIVE  // survival
    ensures current == LIVE && neighbors > 3 ==> next == DEAD        // overpopulation
    ensures current == DEAD && neighbors == 3 ==> next == LIVE       // reproduction
    ensures current == DEAD && neighbors != 3 ==> next == DEAD
  {
    match current
    case DEAD => if neighbors == 3 then LIVE else DEAD
    case LIVE => if neighbors < 2 || neighbors > 3 then DEAD else LIVE
  }

  /** The eight relative positions (dx, dy), in the order the engine scans them. */
  const Offsets: seq<(int, int)> :=
    [(-1, -1), (0, -1), (1, -1),
     (-1,  0),          (1,  0),
     (-1,  1), (0,  1), (1,  1)]

  /**
   * The engine's edge test `0 <= x < width && 0 <= y < height` on a square
   * grid, where width == height == |g|: edges are hard, nothing wraps.
   */
  predicate OnBoard(g: Grid, x: int, y: int)
  {
    0 <= x < |g| && 0 <= y < |g|
  }

  /** 1 when (x, y) is on the board and LIVE, else 0. */
  function LiveAt(g: Grid, x: int, y: int): nat
    requires Square(g)
  {
    if OnBoard(g, x, y) && g[x][y] == LIVE then 1 else 0
  }

  /** The live on-board cells among the first `k` offsets around (x, y). */
  function NeighborsFrom(g: Grid, x: int, y: int, k: nat): (n: nat)
    requires Square(g) && k <= |Offsets|
    ensures n <= k
  {
    if k == 0 then 0
    else NeighborsFrom(g, x, y, k - 1) + LiveAt(g, x + Offsets[k - 1].0, y + Offsets[k - 1].1)
  }

  /** The number of live neighbours of (x, y), as `countNeighbors` computes it. */
  function NeighborCount(g: Grid, x: int, y: int): (n: nat)
    requires Square(g)
    ensures n <= 8
  {
    NeighborsFrom(g, x, y, |Offsets|)
  }

  // ---------------------------------------------------------------------
  // An independent description of the neighbour count: the Moore
  // neighbourhood, cut off at the edges.

  /** The live on-board cells at distance at most 1 from (x, y) in each axis, (x, y) itself excluded. */
  ghost function LiveNeighbors(g: Grid, x: int, y: int): set<(int, int)>
    requires Square(g)
  {
    set i, j | x - 1 <= i <= x + 1 && y - 1 <= j <= y + 1 && (i, j) != (x, y)
                 && OnBoard(g, i, j) && g[i][j] == LIVE :: (i, j)
  }

  /** {(x, y)} when (x, y) is on the board and LIVE, else {}. */
  ghost function LiveSet(g: Grid, x: int, y: int): set<(int, int)>
    requires Square(g)
  {
    if OnBoard(g, x, y) && g[x][y] == LIVE then {(x, y)} else {}
  }

  /** The cells that `NeighborsFrom(g, x, y, k)` counts. */
  ghost function CountedFrom(g: Grid, x: int, y: int, k: nat): set<(int, int)>
    requires Square(g) && k <= |Offsets|
  {
    if k == 0 then {}
    else CountedFrom(g, x, y, k - 1) + LiveSet(g, x + Offsets[k - 1].0, y + Offsets[k - 1].1)
  }

  /** Position of an offset in the scan order: offsets are scanned by increasing Rank. */
  function Rank(d: (int, int)): int
  {
    3 * d.1 + d.0
  }

  /** Successive offsets have increasing Rank, so none repeats. */
  lemma OffsetsAscending(k: nat)
    requires 0 < k < |Offsets|
    ensures Rank(Offsets[k - 1]) < Rank(Offsets[k])
  {
    assert k == 1 || k == 2 || k == 3 || k == 4 || k == 5 || k == 6 || k == 7;
  }

  /** Each offset counts at most one cell, and no cell twice. */
  lemma {:induction false} CountedFromSize(g: Grid, x: int, y: int, k: nat)
    requires Square(g) && k <= |Offsets|
    ensures |CountedFrom(g, x, y, k)| == NeighborsFrom(g, x, y, k)
    ensures forall p :: p in CountedFrom(g, x, y, k) ==> 0 < k && Rank((p.0 - x, p.1 - y)) <= Rank(Offsets[k - 1])
  {
    if k > 0 {
      CountedFromSize(g, x, y, k - 1);
      var d := Offsets[k - 1];
      if k > 1 {
        OffsetsAscending(k - 1);
      }
      assert (x + d.0, y + d.1) !in CountedFrom(g, x, y, k - 1);
    }
  }

  /** The count written out as the sum over the eight offsets. */
  lemma NeighborCountSum(g: Grid, x: int, y: int)
    requires Square(g)
    ensures NeighborCount(g, x, y) ==
      LiveAt(g, x - 1, y - 1) + LiveAt(g, x, y - 1) + LiveAt(g, x + 1, y - 1) +
      LiveAt(g, x - 1, y) + LiveAt(g, x + 1, y) +
      LiveAt(g, x - 1, y + 1) + LiveAt(g, x, y + 1) + LiveAt(g, x + 1, y + 1)
  {
    assert NeighborsFrom(g, x, y, 1) == LiveAt(g, x - 1, y - 1);
    assert NeighborsFrom(g, x, y, 2) == NeighborsFrom(g, x, y, 1) + LiveAt(g, x, y - 1);
    assert NeighborsFrom(g, x, y, 3) == NeighborsFrom(g, x, y, 2) + LiveAt(g, x + 1, y - 1);
    assert NeighborsFrom(g, x, y, 4) == NeighborsFrom(g, x, y, 3) + LiveAt(g, x - 1, y);
    assert NeighborsFrom(g, x, y, 5) == NeighborsFrom(g, x, y, 4) + LiveAt(g, x + 1, y);
    assert NeighborsFrom(g, x, y, 6) == NeighborsFrom(g, x, y, 5) + LiveAt(g, x - 1, y + 1);
    assert NeighborsFrom(g, x, y, 7) == NeighborsFrom(g, x, y, 6) + LiveAt(g, x, y + 1);
    assert NeighborsFrom(g, x, y, 8) == NeighborsFrom(g, x, y, 7) + LiveAt(g, x + 1, y + 1);
  }

  /** The on-board LIVE cells among (x - 1, j), (x, j), (x + 1, j). */
  ghost function LiveTriple(g: Grid, x: int, j: int): set<(int, int)>
    requires Square(g)
  {
    LiveSet(g, x - 1, j) + LiveSet(g, x, j) + LiveSet(g, x + 1, j)
  }

  /** The on-board LIVE cells among (x - 1, j), (x + 1, j). */
  ghost function LivePair(g: Grid, x: int, j: int): set<(int, int)>
    requires Square(g)
  {
    LiveSet(g, x - 1, j) + LiveSet(g, x + 1, j)
  }

  /** The eight cells around (x, y) that are on the board and LIVE. */
  ghost function Around(g: Grid, x: int, y: int): set<(int, int)>
    requires Square(g)
  {
    LiveTriple(g, x, y - 1) + LivePair(g, x, y) + LiveTriple(g, x, y + 1)
  }

  /** Membership in LiveTriple, cell by cell. */
  lemma LiveTripleMembers(g: Grid, x: int, j: int)
    requires Square(g)
    ensures forall p :: p in LiveTriple(g, x, j) <==>
      p.1 == j && x - 1 <= p.0 <= x + 1 && OnBoard(g, p.0, p.1) && g[p.0][p.1] == LIVE
  {
  }

  /** Membership in LivePair, cell by cell. */
  lemma LivePairMembers(g: Grid, x: int, j: int)
    requires Square(g)
    ensures forall p :: p in LivePair(g, x, j) <==>
      p.1 == j && (p.0 == x - 1 || p.0 == x + 1) && OnBoard(g, p.0, p.1) && g[p.0][p.1] == LIVE
  {
  }

  /** The full scan counts the cells of Around. */
  lemma CountedFromAll(g: Grid, x: int, y: int)
    requires Square(g)
    ensures CountedFrom(g, x, y, |Offsets|) == Around(g, x, y)
  {
    CountedFromFirstFour(g, x, y);
    var c := CountedFrom(g, x, y, 4);
    assert CountedFrom(g, x, y, 5) == c + LiveSet(g, x + 1, y);
    assert CountedFrom(g, x, y, 6) == c + LiveSet(g, x + 1, y) + LiveSet(g, x - 1, y + 1);
    assert CountedFrom(g, x, y, 7) == c + LiveSet(g, x + 1, y) + LiveSet(g, x - 1, y + 1) + LiveSet(g, x, y + 1);
  }

  lemma CountedFromFirstFour(g: Grid, x: int, y: int)
    requires Square(g)
    ensures CountedFrom(g, x, y, 4) == LiveTriple(g, x, y - 1) + LiveSet(g, x - 1, y)
  {
    assert CountedFrom(g, x, y, 1) == LiveSet(g, x - 1, y - 1);
    assert CountedFrom(g, x, y, 2) == LiveSet(g, x - 1, y - 1) + LiveSet(g, x, y - 1);
    assert CountedFrom(g, x, y, 3) == LiveTriple(g, x, y - 1);
  }

  /**
   * Around, row by row, is the Moore neighbourhood comprehension. The
   * per-row membership facts keep the set reasoning small.
   */
  lemma AroundIsMoore(g: Grid, x: int, y: int)
    requires Square(g)
    ensures Around(g, x, y) == LiveNeighbors(g, x, y)
  {
    LiveTripleMembers(g, x, y - 1);
    LivePairMembers(g, x, y);
    LiveTripleMembers(g, x, y + 1);
    forall p | p in LiveNeighbors(g, x, y)
      ensures p in Around(g, x, y)
    {
    }
    forall p | p in Around(g, x, y)
      ensures p in LiveNeighbors(g, x, y)
    {
      assert p == (p.0, p.1);
    }
  }

  /**
   * The offset scan counts exactly the live cells of the Moore
   * neighbourhood of (x, y) that lie on the board.
   */
  lemma NeighborCountIsMooreCount(g: Grid, x: int, y: int)
    requires Square(g)
    ensures NeighborCount(g, x, y) == |LiveNeighbors(g, x, y)|
  {
    CountedFromSize(g, x, y, |Offsets|);
    CountedFromAll(g, x, y);
    AroundIsMoore(g, x, y);
  }

  /** The cell itself is never counted: its own state does not change its count. */
  lemma SelfNotCounted(g: Grid, x: int, y: int, s: CellState)
    requires Square(g) && OnBoard(g, x, y)
    ensures Square(g[x := g[x][y := s]])
    ensures NeighborCount(g[x := g[x][y := s]], x, y) == NeighborCount(g, x, y)
  {
    var h := g[x := g[x][y := s]];
    NeighborCountIsMooreCount(g, x, y);
    NeighborCountIsMooreCount(h, x, y);
    assert LiveNeighbors(h, x, y) == LiveNeighbors(g, x, y);
  }

  /** A subset is no larger. */
  lemma CardSubset<T>(a: set<T>, b: set<T>)
    requires a <= b
    ensures |a| <= |b|
  {
    CardDifference(b, a);
  }

  /** The corner (0, 0) has at most three neighbours: offsets with a -1 fall off the board. */
  lemma CornerAtMostThree(g: Grid)
    requires Square(g) && |g| > 0
    ensures NeighborCount(g, 0, 0) <= 3
  {
    NeighborCountIsMooreCount(g, 0, 0);
    CardSubset(LiveNeighbors(g, 0, 0), {(1, 0), (0, 1), (1, 1)});
  }

  // ---------------------------------------------------------------------
  // The sweep as the engine performs it: x outer, y inner, each cell
  // overwritten in place, so later cells see the cells already rewritten.

  /** Visiting (x, y): the cell is overwritten with the rule applied to the grid as it stands. */
  function Visit(g: Grid, x: int, y: int): (r: Grid)
    requires Square(g) && OnBoard(g, x, y)
    ensures Square(r) && |r| == |g|
  {
    g[x := g[x][y := NextState(g[x][y], NeighborCount(g, x, y))]]
  }

  /** Visiting (x, 0), ..., (x, y - 1) in that order. */
  function SweepRow(g: Grid, x: int, y: int): (r: Grid)
    requires Square(g) && 0 <= x < |g| && 0 <= y <= |g|
    ensures Square(r) && |r| == |g|
    decreases y
  {
    if y == 0 then g else Visit(SweepRow(g, x, y - 1), x, y - 1)
  }

  /** Sweeping rows 0, ..., x - 1 in that order. */
  function SweepRows(g: Grid, x: int): (r: Grid)
    requires Square(g) && 0 <= x <= |g|
    ensures Square(r) && |r| == |g|
  {
    if x == 0 then g else SweepRow(SweepRows(g, x - 1), x - 1, |g|)
  }

  /** One call of `calculateNextGeneration`. */
  function Sweep(g: Grid): (r: Grid)
    requires Square(g)
    ensures Square(r) && |r| == |g|
  {
    SweepRows(g, |g|)
  }

  /** The grid as it stands when the sweep reaches (x, y). */
  function Before(g: Grid, x: int, y: int): (r: Grid)
    requires Square(g) && OnBoard(g, x, y)
    ensures Square(r) && |r| == |g|
  {
    SweepRow(SweepRows(g, x), x, y)
  }

  /** Sweeping part of row x touches only row x, and of it only the cells before y. */
  lemma {:induction false} SweepRowCells(g: Grid, x: int, y: int)
    requires Square(g) && 0 <= x < |g| && 0 <= y <= |g|
    ensures forall i :: 0 <= i < |g| && i != x ==> SweepRow(g, x, y)[i] == g[i]
    ensures forall j :: y <= j < |g| ==> SweepRow(g, x, y)[x][j] == g[x][j]
    ensures forall j :: 0 <= j < y ==>
      SweepRow(g, x, y)[x][j] == NextState(g[x][j], NeighborCount(SweepRow(g, x, j), x, j))
  {
    if y > 0 {
      SweepRowCells(g, x, y - 1);
    }
  }

  /** Sweeping rows before x leaves rows x and later alone and rewrites each earlier row once. */
  lemma {:induction false} SweepRowsCells(g: Grid, x: int)
    requires Square(g) && 0 <= x <= |g|
    ensures forall i :: x <= i < |g| ==> SweepRows(g, x)[i] == g[i]
    ensures forall i :: 0 <= i < x ==> SweepRows(g, x)[i] == SweepRow(SweepRows(g, i), i, |g|)[i]
  {
    if x > 0 {
      SweepRowsCells(g, x - 1);
      SweepRowCells(SweepRows(g, x - 1), x - 1, |g|);
    }
  }

  /**
   * What the in-place sweep does to each cell: (x, y) is written from its
   * ORIGINAL state and its neighbour count on the grid as it stands when
   * the sweep reaches it, and that grid holds the already-written values
   * for the cells before (x, y) in x-major order and the original values
   * for (x, y) and the cells after it.
   */
  lemma SweepVisit(g: Grid, x: int, y: int)
    requires Square(g) && OnBoard(g, x, y)
    ensures Sweep(g)[x][y] == NextState(g[x][y], NeighborCount(Before(g, x, y), x, y))
    ensures forall i, j :: OnBoard(g, i, j) ==>
      Before(g, x, y)[i][j] == if i < x || (i == x && j < y) then Sweep(g)[i][j] else g[i][j]
  {
    var n := |g|;
    var p := SweepRows(g, x);
    SweepRowsCells(g, n);
    SweepRowsCells(g, x);
    SweepRowCells(p, x, n);
    SweepRowCells(p, x, y);
  }

  // ---------------------------------------------------------------------
  // The textbook generation, every cell computed from the previous grid.

  /** Every cell computed from its state and its count in the previous grid `g`. */
  function Generation(g: Grid): (r: Grid)
    requires Square(g)
    ensures Square(r) && |r| == |g|
  {
    seq(|g|, x requires 0 <= x < |g| =>
      seq(|g|, y requires 0 <= y < |g| => NextState(g[x][y], NeighborCount(g, x, y))))
  }

  /** Every cell of `g` is a fixed point of the rule. */
  ghost predicate StillLife(g: Grid)
    requires Square(g)
  {
    forall x, y :: OnBoard(g, x, y) ==> NextState(g[x][y], NeighborCount(g, x, y)) == g[x][y]
  }

  /** On a still life, sweeping part of a row changes nothing ... */
  lemma {:induction false} SweepRowKeepsStillLife(g: Grid, x: int, y: int)
    requires Square(g) && 0 <= x < |g| && 0 <= y <= |g| && StillLife(g)
    ensures SweepRow(g, x, y) == g
  {
    if y > 0 {
      SweepRowKeepsStillLife(g, x, y - 1);
      assert g[x][y - 1 := g[x][y - 1]] == g[x];
    }
  }

  /** ... and so sweeping whole rows changes nothing either. */
  lemma {:induction false} SweepRowsKeepsStillLife(g: Grid, x: int)
    requires Square(g) && 0 <= x <= |g| && StillLife(g)
    ensures SweepRows(g, x) == g
  {
    if x > 0 {
      SweepRowsKeepsStillLife(g, x - 1);
      SweepRowKeepsStillLife(g, x - 1, |g|);
    }
  }

  /**
   * On a grid in which every cell is a fixed point of the rule, the
   * in-place sweep and the textbook generation agree: both leave it as it is.
   */
  lemma SweepAgreesOnStillLife(g: Grid)
    requires Square(g) && StillLife(g)
    ensures Sweep(g) == g
    ensures Generation(g) == g
  {
    SweepRowsKeepsStillLife(g, |g|);
    assert Generation(g) == g by {
      forall x | 0 <= x < |g|
        ensures Generation(g)[x] == g[x]
      {
        assert |Generation(g)[x]| == |g[x]|;
      }
    }
  }

  /** On an all-DEAD grid no prefix of the scan counts anything. */
  lemma {:induction false} NoLiveNeighbors(g: Grid, x: int, y: int, k: nat)
    requires Square(g) && IsAllDead(g) && k <= |Offsets|
    ensures NeighborsFrom(g, x, y, k) == 0
  {
    if k > 0 {
      NoLiveNeighbors(g, x, y, k - 1);
    }
  }

  /** An all-DEAD grid stays all-DEAD: nothing is born without live neighbours. */
  lemma AllDeadStaysDead(g: Grid)
    requires Square(g) && IsAllDead(g)
    ensures Sweep(g) == g
    ensures Generation(g) == g
  {
    forall x, y | OnBoard(g, x, y)
      ensures NextState(g[x][y], NeighborCount(g, x, y)) == g[x][y]
    {
      NoLiveNeighbors(g, x, y, |Offsets|);
    }
    SweepAgreesOnStillLife(g);
  }

  /** The block: four live cells (1, 1), (1, 2), (2, 1), (2, 2) in a 4-by-4 board of DEAD cells. */
  const Block: Grid :=
    [[DEAD, DEAD, DEAD, DEAD],
     [DEAD, LIVE, LIVE, DEAD],
     [DEAD, LIVE, LIVE, DEAD],
     [DEAD, DEAD, DEAD, DEAD]]

  /** The LIVE cells of the block are exactly the middle square. */
  lemma BlockLiveAt(i: int, j: int)
    ensures Square(Block)
    ensures LiveAt(Block, i, j) == if 1 <= i <= 2 && 1 <= j <= 2 then 1 else 0
  {
    assert Square(Block);
    if OnBoard(Block, i, j) {
      assert i == 0 || i == 1 || i == 2 || i == 3;
      assert j == 0 || j == 1 || j == 2 || j == 3;
    }
  }

  /** Neighbour counts in the block: three for its LIVE cells, one or two for the DEAD ones. */
  lemma BlockCount(x: int, y: int)
    requires 0 <= x < 4 && 0 <= y < 4
    ensures Square(Block)
    ensures NeighborCount(Block, x, y) ==
      if x == 0 || x == 3 then (if y == 0 || y == 3 then 1 else 2)
      else (if y == 0 || y == 3 then 2 else 3)
  {
    NeighborCountSum(Block, x, y);
    BlockLiveAt(x - 1, y - 1);
    BlockLiveAt(x, y - 1);
    BlockLiveAt(x + 1, y - 1);
    BlockLiveAt(x - 1, y);
    BlockLiveAt(x + 1, y);
    BlockLiveAt(x - 1, y + 1);
    BlockLiveAt(x, y + 1);
    BlockLiveAt(x + 1, y + 1);
  }

  /**
   * The block is a still life: its LIVE cells have three live neighbours
   * and survive, and no DEAD cell around it has the three needed to be born.
   */
  lemma BlockIsStill()
    ensures Square(Block) && StillLife(Block)
    ensures Sweep(Block) == Block
    ensures Generation(Block) == Block
  {
    BlockLiveAt(0, 0);
    forall x, y | OnBoard(Block, x, y)
      ensures NextState(Block[x][y], NeighborCount(Block, x, y)) == Block[x][y]
    {
      BlockCount(x, y);
      BlockLiveAt(x, y);
    }
    SweepAgreesOnStillLife(Block);
  }

  // ---------------------------------------------------------------------
  // The blinker, a period-2 oscillator: three live cells in a line.

  /** Live cells (0, 1), (1, 1), (2, 1). */
  const LineAlongX: Grid := [[DEAD, LIVE, DEAD], [DEAD, LIVE, DEAD], [DEAD, LIVE, DEAD]]

  /** Live cells (1, 0), (1, 1), (1, 2). */
  const LineAlongY: Grid := [[DEAD, DEAD, DEAD], [LIVE, LIVE, LIVE], [DEAD, DEAD, DEAD]]

  /** The LIVE cells of LineAlongX are exactly (0, 1), (1, 1), (2, 1). */
  lemma LineAlongXLiveAt(i: int, j: int)
    ensures Square(LineAlongX)
    ensures LiveAt(LineAlongX, i, j) == if 0 <= i <= 2 && j == 1 then 1 else 0
  {
    assert Square(LineAlongX);
    if OnBoard(LineAlongX, i, j) {
      assert i == 0 || i == 1 || i == 2;
      assert j == 0 || j == 1 || j == 2;
    }
  }

  /** Neighbour counts of row x of the LineAlongX. */
  lemma LineAlongXRow(x: int)
    requires 0 <= x < 3
    ensures Square(LineAlongX)
    ensures NeighborCount(LineAlongX, x, 0) == NeighborCount(LineAlongX, x, 2) == if x == 1 then 3 else 2
    ensures NeighborCount(LineAlongX, x, 1) == if x == 1 then 2 else 1
  {
    forall y | 0 <= y < 3
      ensures NeighborCount(LineAlongX, x, y) == if y == 1 then (if x == 1 then 2 else 1) else (if x == 1 then 3 else 2)
    {
      NeighborCountSum(LineAlongX, x, y);
      LineAlongXLiveAt(x - 1, y - 1);
      LineAlongXLiveAt(x, y - 1);
      LineAlongXLiveAt(x + 1, y - 1);
      LineAlongXLiveAt(x - 1, y);
      LineAlongXLiveAt(x + 1, y);
      LineAlongXLiveAt(x - 1, y + 1);
      LineAlongXLiveAt(x, y + 1);
      LineAlongXLiveAt(x + 1, y + 1);
    }
  }

  /** All neighbour counts of LineAlongX. */
  lemma LineAlongXCounts()
    ensures Square(LineAlongX)
    ensures forall x | 0 <= x < 3 ::
      NeighborCount(LineAlongX, x, 0) == NeighborCount(LineAlongX, x, 2) == if x == 1 then 3 else 2
    ensures forall x | 0 <= x < 3 :: NeighborCount(LineAlongX, x, 1) == if x == 1 then 2 else 1
  {
    LineAlongXRow(0);
    forall x | 0 <= x < 3
      ensures NeighborCount(LineAlongX, x, 0) == NeighborCount(LineAlongX, x, 2) == if x == 1 then 3 else 2
      ensures NeighborCount(LineAlongX, x, 1) == if x == 1 then 2 else 1
    {
      LineAlongXRow(x);
    }
  }

  /** The LIVE cells of LineAlongY are exactly (1, 0), (1, 1), (1, 2). */
  lemma LineAlongYLiveAt(i: int, j: int)
    ensures Square(LineAlongY)
    ensures LiveAt(LineAlongY, i, j) == if i == 1 && 0 <= j <= 2 then 1 else 0
  {
    assert Square(LineAlongY);
    if OnBoard(LineAlongY, i, j) {
      assert i == 0 || i == 1 || i == 2;
      assert j == 0 || j == 1 || j == 2;
    }
  }

  /** Neighbour counts of row x of the LineAlongY. */
  lemma LineAlongYRow(x: int)
    requires 0 <= x < 3
    ensures Square(LineAlongY)
    ensures NeighborCount(LineAlongY, x, 0) == NeighborCount(LineAlongY, x, 2) == if x == 1 then 1 else 2
    ensures NeighborCount(LineAlongY, x, 1) == if x == 1 then 2 else 3
  {
    forall y | 0 <= y < 3
      ensures NeighborCount(LineAlongY, x, y) == if y == 1 then (if x == 1 then 2 else 3) else (if x == 1 then 1 else 2)
    {
      NeighborCountSum(LineAlongY, x, y);
      LineAlongYLiveAt(x - 1, y - 1);
      LineAlongYLiveAt(x, y - 1);
      LineAlongYLiveAt(x + 1, y - 1);
      LineAlongYLiveAt(x - 1, y);
      LineAlongYLiveAt(x + 1, y);
      LineAlongYLiveAt(x - 1, y + 1);
      LineAlongYLiveAt(x, y + 1);
      LineAlongYLiveAt(x + 1, y + 1);
    }
  }

  /** All neighbour counts of LineAlongY. */
  lemma LineAlongYCounts()
    ensures Square(LineAlongY)
    ensures forall x | 0 <= x < 3 ::
      NeighborCount(LineAlongY, x, 0) == NeighborCount(LineAlongY, x, 2) == if x == 1 then 1 else 2
    ensures forall x | 0 <= x < 3 :: NeighborCount(LineAlongY, x, 1) == if x == 1 then 2 else 3
  {
    LineAlongYRow(0);
    forall x | 0 <= x < 3
      ensures NeighborCount(LineAlongY, x, 0) == NeighborCount(LineAlongY, x, 2) == if x == 1 then 1 else 2
      ensures NeighborCount(LineAlongY, x, 1) == if x == 1 then 2 else 3
    {
      LineAlongYRow(x);
    }
  }

  /** Under the textbook generation the line along x turns into the line along y ... */
  lemma GenerationTurnsX()
    ensures Square(LineAlongX) && Square(LineAlongY)
    ensures Generation(LineAlongX) == LineAlongY
  {
    LineAlongXCounts();
    LineAlongYCounts();
    var r := Generation(LineAlongX);
    assert r[0] == LineAlongY[0];
    assert r[1] == LineAlongY[1];
    assert r[2] == LineAlongY[2];
  }

  /** ... and back: the blinker has period 2. */
  lemma GenerationTurnsY()
    ensures Square(LineAlongX) && Square(LineAlongY)
    ensures Generation(LineAlongY) == LineAlongX
  {
    LineAlongXCounts();
    LineAlongYCounts();
    var r := Generation(LineAlongY);
    assert r[0] == LineAlongX[0];
    assert r[1] == LineAlongX[1];
    assert r[2] == LineAlongX[2];
  }

  /** The line along x after the sweep has finished its first row: (0, 1) is dead. */
  const FirstRowSwept: Grid := [[DEAD, DEAD, DEAD], [DEAD, LIVE, DEAD], [DEAD, LIVE, DEAD]]

  /** The sweep's first row on LineAlongX kills (0, 1) and leaves the rest of the row DEAD. */
  lemma SweepFirstRowOfBlinker()
    ensures Square(LineAlongX) && Square(FirstRowSwept)
    ensures SweepRows(LineAlongX, 1) == FirstRowSwept
  {
    var g := LineAlongX;
    assert Square(FirstRowSwept);
    LineAlongXRow(0);
    assert Visit(g, 0, 0) == g by {
      assert g[0][0 := DEAD] == g[0];
    }
    assert Visit(g, 0, 1) == FirstRowSwept by {
      assert g[0][1 := DEAD] == FirstRowSwept[0];
    }
    NeighborCountSum(FirstRowSwept, 0, 2);
    assert Visit(FirstRowSwept, 0, 2) == FirstRowSwept by {
      assert FirstRowSwept[0][2 := DEAD] == FirstRowSwept[0];
    }
  }

  /**
   * The in-place sweep does not turn the blinker: by the time it reaches
   * (1, 0) it has already killed (0, 1), so (1, 0) sees two live
   * neighbours instead of three and is not born.
   */
  lemma SweepBreaksBlinker()
    ensures Square(LineAlongX)
    ensures Sweep(LineAlongX)[1][0] == DEAD && Generation(LineAlongX)[1][0] == LIVE
    ensures Sweep(LineAlongX) != Generation(LineAlongX)
  {
    SweepFirstRowOfBlinker();
    NeighborCountSum(FirstRowSwept, 1, 0);
    SweepVisit(LineAlongX, 1, 0);
    GenerationTurnsX();
  }
}
