/** A row/column coordinate (src/FireSim/GridLocation.cs). */
module Locations {

  /** The source's immutable struct; the constructor stores both values without validation. */
  datatype GridLocation = GridLocation(Row: int, Column: int)

  /** The sentinel that stands for "no location". */
  const Empty: GridLocation := GridLocation(-1, -1)

  /** `Equals`: compares the row and the column. */
  function Equals(left: GridLocation, right: GridLocation): (r: bool)
    ensures r <==> left == right
  {
    left.Row == right.Row && left.Column == right.Column
  }

  /** `!=`: the negation of `==`. */
  function NotEquals(left: GridLocation, right: GridLocation): (r: bool)
    ensures r <==> left != right
  {
    !Equals(left, right)
  }
}
