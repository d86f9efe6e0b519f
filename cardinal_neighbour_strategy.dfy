/** Neighbour sampling by compass direction (src/FireSim/TwoD/CardinalNeighbourStrategy.cs),
    the one implementation of the neighbour-strategy interface (src/FireSim/INeighbourStrategy.cs). */
module CardinalNeighbours {
  import opened CellStates
  import opened Directions
  import opened Locations
  import opened Cells
  import opened CellNeighbours
  import opened NeighbourStates
  import opened GridGeometry

  const Cardinals: seq<CardinalDirection> := [North, East, South, West]
  const SubCardinals: seq<CardinalDirection> := [NorthEast, NorthWest, SouthEast, SouthWest]

  /** The strategy is configured once, with a hash set of directions to sample. */
  datatype CardinalNeighbourStrategy = CardinalNeighbourStrategy(DirectionsToFindNeighbours: set<CardinalDirection>)

  /** The constructor taking an explicit list; the hash set collapses duplicates. */
  function WithDirections(directions: seq<CardinalDirection>): (s: CardinalNeighbourStrategy)
    ensures forall d :: d in s.DirectionsToFindNeighbours <==> d in directions
  {
    CardinalNeighbourStrategy(set d | d in directions)
  }

  /** The constructor taking `includeSubCardinals`: the four cardinals, plus the four
      sub-cardinals when asked (their LINQ `Union` feeds the same hash set, so its own
      de-duplication does not show). */
  function WithSubCardinals(includeSubCardinals: bool): (s: CardinalNeighbourStrategy)
    ensures includeSubCardinals ==>
      s.DirectionsToFindNeighbours == {North, East, South, West, NorthEast, NorthWest, SouthEast, SouthWest}
    ensures !includeSubCardinals ==> s.DirectionsToFindNeighbours == {North, East, South, West}
  {
    WithDirections(if includeSubCardinals then Cardinals + SubCardinals else Cardinals)
  }

  /** The parameterless constructor: every direction. */
  function DefaultStrategy(): (s: CardinalNeighbourStrategy)
    ensures forall d: CardinalDirection :: d in s.DirectionsToFindNeighbours
  {
    CardinalsAndSubCardinalsCover();
    WithSubCardinals(true)
  }

  /** Between them, the cardinals and the sub-cardinals name every direction. */
  lemma CardinalsAndSubCardinalsCover()
    ensures forall d: CardinalDirection :: d in Cardinals + SubCardinals
  {
    AllDirectionsComplete();
    forall d: CardinalDirection
      ensures d in Cardinals + SubCardinals
    {
      assert d in AllDirections;
      var k :| 0 <= k < |AllDirections| && AllDirections[k] == d;
      var i := [0, 4, 1, 6, 2, 7, 3, 5][k];
      assert (Cardinals + SubCardinals)[i] == d;
    }
  }

  /** `HasAnyOf`: whether some configured direction is among `directions`. */
  function HasAnyOf(strategy: CardinalNeighbourStrategy, directions: seq<CardinalDirection>): (r: bool)
    ensures r <==> exists k :: 0 <= k < |directions| && directions[k] in strategy.DirectionsToFindNeighbours
  {
    exists x :: x in strategy.DirectionsToFindNeighbours && x in directions
  }

  /** The row step of each direction: the northern ones look one row up, the southern ones one down. */
  function RowOffset(d: CardinalDirection): int
  {
    match d
    case North | NorthEast | NorthWest => -1
    case South | SouthEast | SouthWest => 1
    case East | West => 0
  }

  /** The column step of each direction, mirrored as in the source: the eastern ones look one
      column to the LEFT, the western ones one column to the right. */
  function ColumnOffset(d: CardinalDirection): int
  {
    match d
    case East | NorthEast | SouthEast => -1
    case West | NorthWest | SouthWest => 1
    case North | South => 0
  }

  /** The bounds gates of the source: a step up needs `row > 0`, down `row + 1 < Height`,
      left `col > 0`, right `col + 1 < Width`. */
  predicate CanGo(grid: GridSize, loc: GridLocation, d: CardinalDirection)
  {
    (RowOffset(d) < 0 ==> loc.Row > 0) &&
    (RowOffset(d) > 0 ==> loc.Row + 1 < grid.Height) &&
    (ColumnOffset(d) < 0 ==> loc.Column > 0) &&
    (ColumnOffset(d) > 0 ==> loc.Column + 1 < grid.Width)
  }

  /** Direction `d` is sampled at `loc`: it is configured and in bounds. */
  predicate Picks(strategy: CardinalNeighbourStrategy, grid: GridSize, loc: GridLocation, d: CardinalDirection)
  {
    d in strategy.DirectionsToFindNeighbours && CanGo(grid, loc, d)
  }

  /** The list index the source reads for direction `d`, through `GetIndex`. */
  function NeighbourIndex(grid: GridSize, loc: GridLocation, d: CardinalDirection): int
  {
    GetIndex(grid, loc.Row + RowOffset(d), loc.Column + ColumnOffset(d))
  }

  /** Every read that sampling at `loc` performs falls inside `lastState`; the source indexes
      the list without a check and would throw otherwise. */
  predicate ReadsInRange(strategy: CardinalNeighbourStrategy, grid: GridSize, lastState: seq<Cell>, loc: GridLocation)
  {
    forall d :: Picks(strategy, grid, loc, d) ==> 0 <= NeighbourIndex(grid, loc, d) < |lastState|
  }

  /** The entry for `d`, if it is sampled. */
  function EntryIfPicked(strategy: CardinalNeighbourStrategy, grid: GridSize, lastState: seq<Cell>, loc: GridLocation,
                         d: CardinalDirection): seq<CellNeighbour>
    requires ReadsInRange(strategy, grid, lastState, loc)
  {
    if Picks(strategy, grid, loc, d) then [CellNeighbour(d, lastState[NeighbourIndex(grid, loc, d)].State)] else []
  }

  /** The sampled entries, visiting the directions in `order`. */
  function Collect(strategy: CardinalNeighbourStrategy, grid: GridSize, lastState: seq<Cell>, loc: GridLocation,
                   order: seq<CardinalDirection>): seq<CellNeighbour>
    requires ReadsInRange(strategy, grid, lastState, loc)
  {
    if order == [] then []
    else EntryIfPicked(strategy, grid, lastState, loc, order[0]) + Collect(strategy, grid, lastState, loc, order[1..])
  }

  /** The order in which the source adds entries. */
  const SampleOrder: seq<CardinalDirection> := [North, NorthEast, NorthWest, West, South, SouthEast, SouthWest, East]

  /** The position of each direction in `SampleOrder`. */
  function SampleRank(d: CardinalDirection): (r: nat)
    ensures r < |SampleOrder| && SampleOrder[r] == d
  {
    match d
    case North => 0
    case NorthEast => 1
    case NorthWest => 2
    case West => 3
    case South => 4
    case SouthEast => 5
    case SouthWest => 6
    case East => 7
  }

  /** The reference definition of what `GetNeighbours` returns: one entry per configured,
      in-bounds direction, in `SampleOrder`, each carrying the previous state at the
      location `GetIndex` gives. */
  function ExpectedNeighbours(strategy: CardinalNeighbourStrategy, grid: GridSize, lastState: seq<Cell>, cell: Cell): NeighbourState
    requires ReadsInRange(strategy, grid, lastState, cell.Location)
  {
    NeighbourState(Collect(strategy, grid, lastState, cell.Location, SampleOrder))
  }

  lemma {:induction false} CollectAppend(strategy: CardinalNeighbourStrategy, grid: GridSize, lastState: seq<Cell>,
                                         loc: GridLocation, a: seq<CardinalDirection>, b: seq<CardinalDirection>)
    requires ReadsInRange(strategy, grid, lastState, loc)
    ensures Collect(strategy, grid, lastState, loc, a + b) ==
            Collect(strategy, grid, lastState, loc, a) + Collect(strategy, grid, lastState, loc, b)
  {
    if a == [] {
      assert a + b == b;
    } else {
      assert (a + b)[1..] == a[1..] + b;
      CollectAppend(strategy, grid, lastState, loc, a[1..], b);
    }
  }

  lemma CollectThree(strategy: CardinalNeighbourStrategy, grid: GridSize, lastState: seq<Cell>, loc: GridLocation,
                     a: CardinalDirection, b: CardinalDirection, c: CardinalDirection)
    requires ReadsInRange(strategy, grid, lastState, loc)
    ensures Collect(strategy, grid, lastState, loc, [a, b, c]) ==
            EntryIfPicked(strategy, grid, lastState, loc, a) + EntryIfPicked(strategy, grid, lastState, loc, b) +
            EntryIfPicked(strategy, grid, lastState, loc, c)
  {
    assert [a, b, c][1..] == [b, c];
    assert [b, c][1..] == [c];
    assert [c][1..] == [];
    assert Collect(strategy, grid, lastState, loc, [c]) == EntryIfPicked(strategy, grid, lastState, loc, c);
  }

  /** `AddNorthToNeighbours`: appends the North, NorthEast and NorthWest entries that are configured
      and in bounds to the shared list; the caller has checked that a row above exists. */
  method AddNorthToNeighbours(strategy: CardinalNeighbourStrategy, grid: GridSize, lastState: seq<Cell>, row: int, col: int,
                              cellNeighbours: seq<CellNeighbour>, canGoEast: bool, canGoWest: bool)
    returns (extended: seq<CellNeighbour>)
    requires row > 0 && canGoEast == (col > 0) && canGoWest == (col + 1 < grid.Width)
    requires ReadsInRange(strategy, grid, lastState, GridLocation(row, col))
    ensures extended == cellNeighbours + Collect(strategy, grid, lastState, GridLocation(row, col), [North, NorthEast, NorthWest])
  {
    ghost var loc := GridLocation(row, col);
    CollectThree(strategy, grid, lastState, loc, North, NorthEast, NorthWest);
    ghost var north := EntryIfPicked(strategy, grid, lastState, loc, North);
    ghost var northEast := EntryIfPicked(strategy, grid, lastState, loc, NorthEast);
    ghost var northWest := EntryIfPicked(strategy, grid, lastState, loc, NorthWest);
    extended := cellNeighbours;
    if HasAnyOf(strategy, [NorthEast, North, NorthWest]) {
      if HasAnyOf(strategy, [North]) {
        assert Picks(strategy, grid, loc, North);
        var northCell := lastState[GetIndex(grid, row - 1, col)];
        extended := extended + [CellNeighbour(North, northCell.State)];
      }
      assert extended == cellNeighbours + north;
      if canGoEast && HasAnyOf(strategy, [NorthEast]) {
        assert Picks(strategy, grid, loc, NorthEast);
        var northEastCell := lastState[GetIndex(grid, row - 1, col - 1)];
        extended := extended + [CellNeighbour(NorthEast, northEastCell.State)];
      }
      assert extended == cellNeighbours + north + northEast;
      if canGoWest && HasAnyOf(strategy, [NorthWest]) {
        assert Picks(strategy, grid, loc, NorthWest);
        var northWestCell := lastState[GetIndex(grid, row - 1, col + 1)];
        extended := extended + [CellNeighbour(NorthWest, northWestCell.State)];
      }
      assert extended == cellNeighbours + north + northEast + northWest;
    } else {
      assert [NorthEast, North, NorthWest][0] == NorthEast && [NorthEast, North, NorthWest][1] == North;
      assert [NorthEast, North, NorthWest][2] == NorthWest;
      assert north == [] && northEast == [] && northWest == [];
      assert extended == cellNeighbours + north + northEast + northWest;
    }
  }

  /** `AddSouthToNeighbours`: appends the South, SouthEast and SouthWest entries that are configured
      and in bounds to the shared list; the caller has checked that a row below exists. */
  method AddSouthToNeighbours(strategy: CardinalNeighbourStrategy, grid: GridSize, lastState: seq<Cell>, row: int, col: int,
                              cellNeighbours: seq<CellNeighbour>, canGoEast: bool, canGoWest: bool)
    returns (extended: seq<CellNeighbour>)
    requires row + 1 < grid.Height && canGoEast == (col > 0) && canGoWest == (col + 1 < grid.Width)
    requires ReadsInRange(strategy, grid, lastState, GridLocation(row, col))
    ensures extended == cellNeighbours + Collect(strategy, grid, lastState, GridLocation(row, col), [South, SouthEast, SouthWest])
  {
    ghost var loc := GridLocation(row, col);
    CollectThree(strategy, grid, lastState, loc, South, SouthEast, SouthWest);
    extended := cellNeighbours;
    if HasAnyOf(strategy, [South]) {
      assert Picks(strategy, grid, loc, South);
      var southCell := lastState[GetIndex(grid, row + 1, col)];
      extended := extended + [CellNeighbour(South, southCell.State)];
    }
    if canGoEast && HasAnyOf(strategy, [SouthEast]) {
      assert Picks(strategy, grid, loc, SouthEast);
      var southEastCell := lastState[GetIndex(grid, row + 1, col - 1)];
      extended := extended + [CellNeighbour(SouthEast, southEastCell.State)];
    }
    if canGoWest && HasAnyOf(strategy, [SouthWest]) {
      assert Picks(strategy, grid, loc, SouthWest);
      var southWestCell := lastState[GetIndex(grid, row + 1, col + 1)];
      extended := extended + [CellNeighbour(SouthWest, southWestCell.State)];
    }
  }

  /** `GetNeighbours`: samples the neighbours of `currentCell` from the previous cells, which it only reads. */
  method GetNeighbours(strategy: CardinalNeighbourStrategy, grid: GridSize, lastState: seq<Cell>, currentCell: Cell)
    returns (r: NeighbourState)
    requires ReadsInRange(strategy, grid, lastState, currentCell.Location)
    ensures r == ExpectedNeighbours(strategy, grid, lastState, currentCell)
  {
    var row := currentCell.Location.Row;
    var col := currentCell.Location.Column;
    ghost var loc := currentCell.Location;

    var cellNeighbours: seq<CellNeighbour> := [];

    var canGoNorth := row > 0;
    var canGoSouth := row + 1 < grid.Height;
    var canGoEast := col > 0;
    var canGoWest := col + 1 < grid.Width;

    ghost var northPart := Collect(strategy, grid, lastState, loc, [North, NorthEast, NorthWest]);
    ghost var westPart := EntryIfPicked(strategy, grid, lastState, loc, West);
    ghost var southPart := Collect(strategy, grid, lastState, loc, [South, SouthEast, SouthWest]);
    ghost var eastPart := EntryIfPicked(strategy, grid, lastState, loc, East);

    if canGoNorth {
      cellNeighbours := AddNorthToNeighbours(strategy, grid, lastState, row, col, cellNeighbours, canGoEast, canGoWest);
    } else {
      CollectThree(strategy, grid, lastState, loc, North, NorthEast, NorthWest);
    }
    assert cellNeighbours == northPart;

    if canGoWest && HasAnyOf(strategy, [West]) {
      assert Picks(strategy, grid, loc, West);
      var westCell := lastState[GetIndex(grid, row, col + 1)];
      cellNeighbours := cellNeighbours + [CellNeighbour(West, westCell.State)];
    }
    assert cellNeighbours == northPart + westPart;

    if canGoSouth {
      cellNeighbours := AddSouthToNeighbours(strategy, grid, lastState, row, col, cellNeighbours, canGoEast, canGoWest);
    } else {
      CollectThree(strategy, grid, lastState, loc, South, SouthEast, SouthWest);
    }
    assert cellNeighbours == northPart + westPart + southPart;

    if canGoEast && HasAnyOf(strategy, [East]) {
      assert Picks(strategy, grid, loc, East);
      var eastCell := lastState[GetIndex(grid, row, col - 1)];
      cellNeighbours := cellNeighbours + [CellNeighbour(East, eastCell.State)];
    }
    assert cellNeighbours == northPart + westPart + southPart + eastPart;
    SampleOrderParts(strategy, grid, lastState, loc);
    r := NeighbourState(cellNeighbours);
  }

  /** Sampling in `SampleOrder` is sampling the northern group, West, the southern group and East in turn. */
  lemma SampleOrderParts(strategy: CardinalNeighbourStrategy, grid: GridSize, lastState: seq<Cell>, loc: GridLocation)
    requires ReadsInRange(strategy, grid, lastState, loc)
    ensures Collect(strategy, grid, lastState, loc, SampleOrder) ==
      Collect(strategy, grid, lastState, loc, [North, NorthEast, NorthWest]) + EntryIfPicked(strategy, grid, lastState, loc, West) +
      Collect(strategy, grid, lastState, loc, [South, SouthEast, SouthWest]) + EntryIfPicked(strategy, grid, lastState, loc, East)
  {
    var north, south := [North, NorthEast, NorthWest], [South, SouthEast, SouthWest];
    assert SampleOrder == north + [West] + south + [East];
    CollectAppend(strategy, grid, lastState, loc, north + [West] + south, [East]);
    CollectAppend(strategy, grid, lastState, loc, north + [West], south);
    CollectAppend(strategy, grid, lastState, loc, north, [West]);
    assert [West][1..] == [] && [East][1..] == [];
  }

  /** The directions sampled at `loc` whose place in `SampleOrder` is `m` or later. */
  function PickedFrom(strategy: CardinalNeighbourStrategy, grid: GridSize, loc: GridLocation, m: nat): set<CardinalDirection>
  {
    set d | d in strategy.DirectionsToFindNeighbours && CanGo(grid, loc, d) && SampleRank(d) >= m
  }

  lemma RankOfPosition(p: nat)
    requires p < |SampleOrder|
    ensures SampleRank(SampleOrder[p]) == p
  {
  }

  /** Every entry of `c` is in a direction sampled from position `m` on, with the state read for it. */
  predicate EntriesFrom(strategy: CardinalNeighbourStrategy, grid: GridSize, lastState: seq<Cell>, loc: GridLocation,
                        m: nat, c: seq<CellNeighbour>)
    requires ReadsInRange(strategy, grid, lastState, loc)
  {
    forall k :: 0 <= k < |c| ==>
      c[k].Direction in PickedFrom(strategy, grid, loc, m) &&
      c[k].State == lastState[NeighbourIndex(grid, loc, c[k].Direction)].State
  }

  /** The entries of `c` follow `SampleOrder` strictly. */
  predicate InSampleOrder(c: seq<CellNeighbour>)
  {
    forall i, j :: 0 <= i < j < |c| ==> SampleRank(c[i].Direction) < SampleRank(c[j].Direction)
  }

  /** Sampling the directions of `SampleOrder` from position `m` on yields only sampled directions,
      in `SampleOrder`, each with the state the source reads for it. */
  lemma {:induction false} CollectSuffixEntries(strategy: CardinalNeighbourStrategy, grid: GridSize, lastState: seq<Cell>,
                                                loc: GridLocation, m: nat)
    requires ReadsInRange(strategy, grid, lastState, loc) && m <= |SampleOrder|
    ensures EntriesFrom(strategy, grid, lastState, loc, m, Collect(strategy, grid, lastState, loc, SampleOrder[m..]))
    ensures InSampleOrder(Collect(strategy, grid, lastState, loc, SampleOrder[m..]))
    decreases |SampleOrder| - m
  {
    if m < |SampleOrder| {
      var a := SampleOrder[m];
      RankOfPosition(m);
      CollectSuffixEntries(strategy, grid, lastState, loc, m + 1);
      assert SampleOrder[m..][1..] == SampleOrder[m + 1..];
      var head := EntryIfPicked(strategy, grid, lastState, loc, a);
      var rest := Collect(strategy, grid, lastState, loc, SampleOrder[m + 1..]);
      ConsEntries(strategy, grid, lastState, loc, m, head, rest);
    }
  }

  /** The inductive step of `CollectSuffixEntries`: the entry for position `m`, if any, before the
      entries from `m + 1` on. */
  lemma ConsEntries(strategy: CardinalNeighbourStrategy, grid: GridSize, lastState: seq<Cell>, loc: GridLocation,
                    m: nat, head: seq<CellNeighbour>, rest: seq<CellNeighbour>)
    requires ReadsInRange(strategy, grid, lastState, loc) && m < |SampleOrder|
    requires head == EntryIfPicked(strategy, grid, lastState, loc, SampleOrder[m])
    requires EntriesFrom(strategy, grid, lastState, loc, m + 1, rest) && InSampleOrder(rest)
    ensures EntriesFrom(strategy, grid, lastState, loc, m, head + rest) && InSampleOrder(head + rest)
  {
    RankOfPosition(m);
    var c := head + rest;
    forall k | 0 <= k < |c|
      ensures c[k].Direction in PickedFrom(strategy, grid, loc, m)
      ensures c[k].State == lastState[NeighbourIndex(grid, loc, c[k].Direction)].State
      ensures k >= |head| ==> SampleRank(c[k].Direction) > m
    {
      if k >= |head| {
        assert c[k] == rest[k - |head|];
      }
    }
  }

  /** ... and misses none of them. */
  lemma {:induction false} CollectSuffixComplete(strategy: CardinalNeighbourStrategy, grid: GridSize, lastState: seq<Cell>,
                                                 loc: GridLocation, m: nat, d: CardinalDirection)
    requires ReadsInRange(strategy, grid, lastState, loc) && m <= |SampleOrder|
    requires d in PickedFrom(strategy, grid, loc, m)
    ensures d in DirectionsOf(Collect(strategy, grid, lastState, loc, SampleOrder[m..]))
    decreases |SampleOrder| - m
  {
    var c := Collect(strategy, grid, lastState, loc, SampleOrder[m..]);
    RankOfPosition(m);
    assert SampleOrder[m..][1..] == SampleOrder[m + 1..];
    if SampleRank(d) == m {
      assert c[0].Direction == d;
    } else {
      CollectSuffixComplete(strategy, grid, lastState, loc, m + 1, d);
      var rest := Collect(strategy, grid, lastState, loc, SampleOrder[m + 1..]);
      var k :| 0 <= k < |rest| && rest[k].Direction == d;
      var head := EntryIfPicked(strategy, grid, lastState, loc, SampleOrder[m]);
      assert c[|head| + k] == rest[k];
    }
  }

  /** ... so there are as many entries as sampled directions. */
  lemma {:induction false} CollectSuffixCount(strategy: CardinalNeighbourStrategy, grid: GridSize, lastState: seq<Cell>,
                                              loc: GridLocation, m: nat)
    requires ReadsInRange(strategy, grid, lastState, loc) && m <= |SampleOrder|
    ensures |Collect(strategy, grid, lastState, loc, SampleOrder[m..])| == |PickedFrom(strategy, grid, loc, m)|
    decreases |SampleOrder| - m
  {
    if m == |SampleOrder| {
      assert PickedFrom(strategy, grid, loc, m) == {};
    } else {
      CollectSuffixCount(strategy, grid, lastState, loc, m + 1);
      assert SampleOrder[m..][1..] == SampleOrder[m + 1..];
      PickedFromStep(strategy, grid, loc, m);
    }
  }

  /** Splitting off the first direction of a suffix of `SampleOrder`. */
  lemma PickedFromStep(strategy: CardinalNeighbourStrategy, grid: GridSize, loc: GridLocation, m: nat)
    requires m < |SampleOrder|
    ensures var a := SampleOrder[m];
      a !in PickedFrom(strategy, grid, loc, m + 1) &&
      PickedFrom(strategy, grid, loc, m) ==
        (if Picks(strategy, grid, loc, a) then {a} else {}) + PickedFrom(strategy, grid, loc, m + 1)
  {
    RankOfPosition(m);
    var a := SampleOrder[m];
    forall d | SampleRank(d) == m
      ensures d == a
    {
    }
  }

  /** What `GetNeighbours` returns, entry by entry: every entry is in a configured direction that is
      in bounds, carries the previous state at `GetIndex` of its (mirrored) offset, and the entries
      follow `SampleOrder` strictly, so no direction occurs twice. */
  lemma SampledEntries(strategy: CardinalNeighbourStrategy, grid: GridSize, lastState: seq<Cell>, cell: Cell)
    requires ReadsInRange(strategy, grid, lastState, cell.Location)
    ensures var ns := ExpectedNeighbours(strategy, grid, lastState, cell).States;
      (forall k :: 0 <= k < |ns| ==>
         Picks(strategy, grid, cell.Location, ns[k].Direction) &&
         ns[k].State == lastState[GetIndex(grid, cell.Location.Row + RowOffset(ns[k].Direction),
                                                 cell.Location.Column + ColumnOffset(ns[k].Direction))].State) &&
      (forall i, j :: 0 <= i < j < |ns| ==> SampleRank(ns[i].Direction) < SampleRank(ns[j].Direction))
  {
    CollectSuffixEntries(strategy, grid, lastState, cell.Location, 0);
    assert SampleOrder[0..] == SampleOrder;
  }

  /** Every configured direction that is in bounds has its entry. */
  lemma SampledComplete(strategy: CardinalNeighbourStrategy, grid: GridSize, lastState: seq<Cell>, cell: Cell,
                        d: CardinalDirection)
    requires ReadsInRange(strategy, grid, lastState, cell.Location)
    requires Picks(strategy, grid, cell.Location, d)
    ensures d in DirectionsOf(ExpectedNeighbours(strategy, grid, lastState, cell).States)
  {
    CollectSuffixComplete(strategy, grid, lastState, cell.Location, 0, d);
    assert SampleOrder[0..] == SampleOrder;
  }

  /** The first row has no northern entries, the last row no southern ones; the first column
      has no eastern entries and the last column no western ones (east and west being mirrored). */
  lemma EdgesOmitDirections(strategy: CardinalNeighbourStrategy, grid: GridSize, lastState: seq<Cell>, cell: Cell)
    requires ReadsInRange(strategy, grid, lastState, cell.Location)
    ensures var found := DirectionsOf(ExpectedNeighbours(strategy, grid, lastState, cell).States);
      (cell.Location.Row == 0 ==> North !in found && NorthEast !in found && NorthWest !in found) &&
      (cell.Location.Row == grid.Height - 1 ==> South !in found && SouthEast !in found && SouthWest !in found) &&
      (cell.Location.Column == 0 ==> East !in found && NorthEast !in found && SouthEast !in found) &&
      (cell.Location.Column == grid.Width - 1 ==> West !in found && NorthWest !in found && SouthWest !in found)
  {
    SampledEntries(strategy, grid, lastState, cell);
  }

  /** For a cell with a neighbour on every side, there is exactly one entry per configured direction. */
  lemma InteriorSamplesEveryConfiguredDirection(strategy: CardinalNeighbourStrategy, grid: GridSize,
                                                 lastState: seq<Cell>, cell: Cell)
    requires ReadsInRange(strategy, grid, lastState, cell.Location)
    requires 0 < cell.Location.Row < grid.Height - 1 && 0 < cell.Location.Column < grid.Width - 1
    ensures var ns := ExpectedNeighbours(strategy, grid, lastState, cell).States;
      |ns| == |strategy.DirectionsToFindNeighbours| &&
      DirectionsOf(ns) == strategy.DirectionsToFindNeighbours
  {
    var ns := ExpectedNeighbours(strategy, grid, lastState, cell).States;
    CollectSuffixCount(strategy, grid, lastState, cell.Location, 0);
    assert |Collect(strategy, grid, lastState, cell.Location, SampleOrder[0..])| == |PickedFrom(strategy, grid, cell.Location, 0)|;
    assert SampleOrder[0..] == SampleOrder;
    forall d | d in strategy.DirectionsToFindNeighbours
      ensures d in PickedFrom(strategy, grid, cell.Location, 0)
    {
      assert CanGo(grid, cell.Location, d);
    }
    assert PickedFrom(strategy, grid, cell.Location, 0) == strategy.DirectionsToFindNeighbours;
    assert |ns| == |strategy.DirectionsToFindNeighbours|;
    forall d | d in strategy.DirectionsToFindNeighbours
      ensures d in DirectionsOf(ns)
    {
      SampledComplete(strategy, grid, lastState, cell, d);
    }
    SampledEntries(strategy, grid, lastState, cell);
  }


  /** The parameterless strategy samples 8 directions and the cardinal-only one 4; an explicit list
      samples as many directions as it names distinct ones. */
  lemma ConfiguredDirectionCounts(directions: seq<CardinalDirection>)
    ensures |DefaultStrategy().DirectionsToFindNeighbours| == 8
    ensures |WithSubCardinals(false).DirectionsToFindNeighbours| == 4
    ensures |WithDirections(directions).DirectionsToFindNeighbours| == |set d | d in directions|
  {
    var all := DefaultStrategy().DirectionsToFindNeighbours;
    assert all == {North, East, South, West, NorthEast, NorthWest, SouthEast, SouthWest};
  }
}
