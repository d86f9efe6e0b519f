/** The default spread rule (src/FireSim/Strategy/StandardSpreadStrategy.cs). */
module StandardSpread {
  import opened CellStates
  import opened Directions
  import opened Cells
  import opened CellNeighbours
  import opened NeighbourStates

  /** Only these directions can set a tree alight; diagonal neighbours are ignored. */
  const MainCardinals: seq<CardinalDirection> := [North, East, South, West]

  /** Some North, East, South or West entry is Burning. */
  predicate CardinalNeighbourBurning(ns: NeighbourState)
  {
    exists k :: 0 <= k < |ns.States| && ns.States[k].Direction in MainCardinals && ns.States[k].State == Burning
  }

  /** `Spread`: a boundary cell is Empty; a tree catches fire exactly when a neighbour in a main
      cardinal direction burns; fire burns out to Empty, and Empty stays Empty. */
  function Spread(cell: Cell, neighbourState: NeighbourState): (r: CellState)
    ensures r == (if cell.IsBoundary || cell.State != Tree then Empty
                  else if CardinalNeighbourBurning(neighbourState) then Burning
                  else Tree)
  {
    if cell.IsBoundary then Empty
    else
      match cell.State
      case Tree =>
        var neighbours := FilterByCardinalDirections(neighbourState, MainCardinals);
        AnyInFiltered(neighbourState, MainCardinals, Burning);
        if AnyInState(neighbours, Burning) then Burning else Tree
      case Burning => Empty
      case Empty => Empty
  }

  /** A tree whose only burning neighbours are diagonal stays a tree. */
  lemma DiagonalFireDoesNotSpread(cell: Cell, neighbourState: NeighbourState)
    requires !cell.IsBoundary && cell.State == Tree
    requires forall k :: 0 <= k < |neighbourState.States| && neighbourState.States[k].State == Burning ==>
               neighbourState.States[k].Direction in [NorthEast, NorthWest, SouthEast, SouthWest]
    ensures Spread(cell, neighbourState) == Tree
  {
  }

  /** The outcome depends on nothing but the boundary flag, the state and the neighbour entries:
      the index and the location of the cell play no part. */
  lemma DependsOnlyOnStateAndNeighbours(a: Cell, b: Cell, neighbourState: NeighbourState)
    requires a.IsBoundary == b.IsBoundary && a.State == b.State
    ensures Spread(a, neighbourState) == Spread(b, neighbourState)
  {
  }
}
