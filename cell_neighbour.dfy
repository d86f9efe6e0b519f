/** A neighbour of a cell, seen as a direction and that neighbour's state
    (src/FireSim/Neighbour/CellNeighbour.cs). */
module CellNeighbours {
  import opened CellStates
  import opened Directions

  /** The source's immutable struct; the constructor stores both values as given. */
  datatype CellNeighbour = CellNeighbour(Direction: CardinalDirection, State: CellState)

  /** The C# `default` of the struct: every field at its enum's zero value. */
  function Default(): (d: CellNeighbour)
    ensures d.Direction.Value() == 0 && d.State.Value() == 0
    ensures d == CellNeighbour(North, Empty)
  {
    CellNeighbour(North, Empty)
  }

  /** `Equals`: compares the direction and the state. */
  function Equals(left: CellNeighbour, right: CellNeighbour): (r: bool)
    ensures r <==> left == right
  {
    left.Direction == right.Direction && left.State == right.State
  }

  /** `!=`: the negation of `==`. */
  function NotEquals(left: CellNeighbour, right: CellNeighbour): (r: bool)
    ensures r <==> left != right
  {
    !Equals(left, right)
  }

  /** Only a North neighbour can equal the default value, so a South neighbour never does. */
  lemma OnlyNorthCanBeDefault(n: CellNeighbour)
    requires n.Direction != North
    ensures !Equals(n, Default())
  {
  }
}
