/** The spread rule of the enhanced simulation: a northerly wind carries fire only from the
    south (the nested `NortherlyWindSpreadStrategy` of src/FireSimulation/EnhancedSimulation.cs). */
module NortherlyWindSpread {
  import opened CellStates
  import opened Directions
  import opened Cells
  import opened CellNeighbours
  import opened NeighbourStates

  /** LINQ `FirstOrDefault`: the first element, or the default value of the struct. */
  function FirstOrDefault(s: seq<CellNeighbour>): (r: CellNeighbour)
    ensures s != [] ==> r == s[0]
    ensures s == [] ==> r.Direction.Value() == 0 && r.State.Value() == 0
  {
    if s == [] then CellNeighbours.Default() else s[0]
  }

  /** The first South entry exists and is Burning. */
  predicate FirstSouthBurning(ns: NeighbourState)
  {
    exists k :: 0 <= k < |ns.States| && ns.States[k].Direction == South && ns.States[k].State == Burning &&
                forall j :: 0 <= j < k ==> ns.States[j].Direction != South
  }

  /** `Spread`: boundary, burning and empty cells become Empty; a tree becomes Burning exactly when
      its first South entry is Burning, and otherwise (no South entry included) stays a tree. The
      source detects a missing South entry by comparing with the struct's default, (North, Empty),
      which no South entry can equal. */
  function Spread(cell: Cell, neighbourState: NeighbourState): (r: CellState)
    ensures r == (if cell.IsBoundary || cell.State != Tree then Empty
                  else if FirstSouthBurning(neighbourState) then Burning
                  else Tree)
  {
    if cell.IsBoundary || cell.State == Burning || cell.State == Empty then Empty
    else
      var southNeighbour := FirstOrDefault(Where(neighbourState.States, [South]));
      FirstOfWhere(neighbourState.States, [South]);
      if CellNeighbours.Equals(southNeighbour, CellNeighbours.Default()) then cell.State
      else if southNeighbour.State == Burning then Burning
      else Tree
  }

  /** Only the first South entry is consulted: dropping every other direction changes nothing. */
  lemma OnlySouthMatters(cell: Cell, neighbourState: NeighbourState)
    ensures Spread(cell, neighbourState) == Spread(cell, FilterByCardinalDirections(neighbourState, [South]))
  {
    var filtered := FilterByCardinalDirections(neighbourState, [South]);
    WhereIdempotent(neighbourState.States, [South]);
    FirstOfWhere(neighbourState.States, [South]);
    FirstOfWhere(filtered.States, [South]);
  }
}
