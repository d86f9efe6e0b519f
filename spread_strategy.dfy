/** The spread rules a grid can be stepped with (the implementations of src/FireSim/ISpreadStrategy.cs). */
module SpreadStrategies {
  import opened CellStates
  import opened Cells
  import opened NeighbourStates
  import StandardSpread
  import NortherlyWindSpread

  /** The two implementations of the spread interface, as a closed set. */
  datatype SpreadStrategy = Standard | NortherlyWind

  /** How much fuel a cell still holds: a tree can still burn and then burn out, a fire can only
      burn out, an empty cell has nothing left. */
  function StateWeight(s: CellState): (w: nat)
    ensures w <= 2
    ensures w == 0 <==> s == Empty
  {
    match s
    case Tree => 2
    case Burning => 1
    case Empty => 0
  }

  /** Applies the chosen rule. Under both rules a cell ends Empty exactly when it is a boundary
      cell or not a tree, so nothing regrows and a fire always burns out; a tree never loses more
      than it has, so the weight of a cell never grows. */
  function Spread(strategy: SpreadStrategy, cell: Cell, neighbourState: NeighbourState): (r: CellState)
    ensures r == Empty <==> cell.IsBoundary || cell.State != Tree
    ensures r == Tree ==> !cell.IsBoundary && cell.State == Tree
    ensures StateWeight(r) <= StateWeight(cell.State)
    ensures cell.State == Burning ==> StateWeight(r) < StateWeight(cell.State)
  {
    match strategy
    case Standard => StandardSpread.Spread(cell, neighbourState)
    case NortherlyWind => NortherlyWindSpread.Spread(cell, neighbourState)
  }
}
