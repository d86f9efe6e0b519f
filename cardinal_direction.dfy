/** The compass points a neighbour can lie in (src/FireSim/Neighbour/CardinalDirection.cs). */
module Directions {

  datatype CardinalDirection =
    North | NorthEast | East | SouthEast | South | SouthWest | West | NorthWest
  {
    /** The underlying enum value: the even numbers 0..14, North being the zero value. */
    function Value(): (v: nat)
      ensures v <= 14 && v % 2 == 0
      ensures v == 0 <==> this == North
    {
      match this
      case North => 0
      case NorthEast => 2
      case East => 4
      case SouthEast => 6
      case South => 8
      case SouthWest => 10
      case West => 12
      case NorthWest => 14
    }
  }

  /** Every direction, in enum order. */
  const AllDirections: seq<CardinalDirection> :=
    [North, NorthEast, East, SouthEast, South, SouthWest, West, NorthWest]

  /** Every direction is listed in `AllDirections`. */
  lemma AllDirectionsComplete()
    ensures forall d: CardinalDirection :: d in AllDirections
  {
    forall d: CardinalDirection
      ensures d in AllDirections
    {
      assert AllDirections[d.Value() / 2] == d;
    }
  }
}
