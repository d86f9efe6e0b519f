/** The state of one grid cell (src/FireSim/CellState.cs). */
module CellStates {

  /** Declared in the order of the source enum, whose byte values are 0, 1 and 2. */
  datatype CellState = Empty | Tree | Burning {

    /** The underlying enum value; Empty is the zero value and so the C# `default`. */
    function Value(): (v: nat)
      ensures v <= 2
      ensures v == 0 <==> this == Empty
    {
      match this
      case Empty => 0
      case Tree => 1
      case Burning => 2
    }
  }
}
