/** One grid cell as an immutable value (src/FireSim/Cell.cs). */
module Cells {
  import opened Wrappers
  import opened CellStates
  import opened Locations

  /** All four properties are get-only in the source, so a cell never changes once built;
      a step of the simulation builds new cells instead. */
  datatype Cell = Cell(Index: int, Location: GridLocation, State: CellState, IsBoundary: bool)

  /** The source constructor, whose `isBoundary` parameter defaults to false. */
  function NewCell(index: int, location: GridLocation, state: CellState, isBoundary: bool := false): (c: Cell)
    ensures c.Index == index && c.Location == location && c.State == state && c.IsBoundary == isBoundary
  {
    Cell(index, location, state, isBoundary)
  }

  /** `Equals(Cell other)`; a null `other` is `None`. */
  function Equals(cell: Cell, other: Option<Cell>): (r: bool)
    ensures r <==> other == Some(cell)
  {
    other.Some? &&
    cell.Index == other.value.Index &&
    cell.State == other.value.State &&
    Locations.Equals(cell.Location, other.value.Location) &&
    cell.IsBoundary == other.value.IsBoundary
  }

  /** `==`, through the default equality comparer: two nulls are equal, a null and a cell are not,
      and otherwise `Equals` decides. */
  function OperatorEquals(left: Option<Cell>, right: Option<Cell>): (r: bool)
    ensures r <==> left == right
  {
    match left
    case None => right.None?
    case Some(l) => Equals(l, right)
  }

  /** `!=`: the negation of `==`. */
  function OperatorNotEquals(left: Option<Cell>, right: Option<Cell>): (r: bool)
    ensures r <==> left != right
  {
    !OperatorEquals(left, right)
  }
}
