// One cell of the board: a mutable holder of a CellState (Cell.java).
module Cells {
  import opened States

  class Cell {
    var state: CellState

    /** The all-arguments constructor: the cell starts in the given state. */
    constructor (state: CellState)
      ensures this.state == state
    {
      this.state := state;
    }

    /** The getter of `state`: the state last constructed or set. */
    function GetState(): (s: CellState)
      reads this
      ensures s == state
    {
      state
    }

    /** The setter of `state`; nothing else about the cell changes. */
    method SetState(state: CellState)
      modifies this
      ensures this.state == state
    {
      this.state := state;
    }

    /** Whether the cell is alive. */
    function IsAlive(): (alive: bool)
      reads this
      ensures alive <==> GetState() == LIVE
      ensures !alive <==> GetState() == DEAD
    {
      state == LIVE
    }
  }

  /**
   * What a client of a Cell observes: a cell built with `initial` reports
   * `initial`, and after `SetState(next)` it reports `next`; `IsAlive`
   * follows the most recent state at each point and reading it changes
   * nothing.
   */
  method Lifecycle(initial: CellState, next: CellState)
    returns (first: CellState, firstAlive: bool, last: CellState, lastAlive: bool)
    ensures first == initial && (firstAlive <==> initial == LIVE)
    ensures last == next && (lastAlive <==> next == LIVE)
  {
    var cell := new Cell(initial);
    first := cell.GetState();
    firstAlive := cell.IsAlive();
    cell.SetState(next);
    last := cell.GetState();
    lastAlive := cell.IsAlive();
  }
}
