/** The cell lists a fire grid holds, what one step of the simulation makes of them, and the calls
    a grid makes on its renderer (src/FireSim/TwoD/FireGrid.cs), as functions on values. */
module GridCells {
  import opened CellStates
  import opened Directions
  import opened Locations
  import opened Cells
  import opened NeighbourStates
  import opened GridGeometry
  import opened CardinalNeighbours
  import opened SpreadStrategies
  import opened Rendering

  /** Neither the width nor the height of a grid may be smaller than this. */
  const MinSize: int := 3

  /** A location strictly inside the border. */
  predicate IsInterior(size: GridSize, loc: GridLocation)
  {
    0 < loc.Row < size.Height - 1 && 0 < loc.Column < size.Width - 1
  }

  // ---------------------------------------------------------------------------------------------
  // The initial cells

  /** The cell a new grid holds at `index`: its location comes from the index, a border cell is
      Empty and marked as boundary, the cell at the fire location is Burning, any other is a Tree. */
  function InitialCell(size: GridSize, fire: GridLocation, index: int): Cell
    requires size.Width > 0
  {
    var loc := GetGridLocation(size, index);
    var edge := IsBorder(size, loc.Row, loc.Column);
    Cell(index, loc, if edge then CellState.Empty else if Locations.Equals(loc, fire) then Burning else Tree, edge)
  }

  /** The `Width * Height` cells of a new grid, in index order. */
  function InitialCells(size: GridSize, fire: GridLocation): seq<Cell>
    requires size.Width >= MinSize && size.Height >= MinSize
  {
    MulAtLeast(size.Height, size.Width);
    seq(size.Width * size.Height, i => InitialCell(size, fire, i))
  }

  /** The shape every cell list of a grid keeps: `Width * Height` cells, cell `i` with index `i`,
      the location of `i` and a boundary flag that says whether that location is on the border. */
  predicate WellFormed(size: GridSize, cells: seq<Cell>)
    requires size.Width > 0
  {
    |cells| == size.Width * size.Height &&
    forall i :: 0 <= i < |cells| ==>
      cells[i].Index == i && cells[i].Location == GetGridLocation(size, i) && cells[i].IsBoundary == IsBorderAt(size, i)
  }

  /** Some cell is Burning; a grid is completed exactly when this fails. */
  predicate AnyBurning(cells: seq<Cell>)
  {
    exists i :: 0 <= i < |cells| && cells[i].State == Burning
  }

  /** A new grid has the shape of a grid. */
  lemma InitialCellsWellFormed(size: GridSize, fire: GridLocation)
    requires size.Width >= MinSize && size.Height >= MinSize
    ensures WellFormed(size, InitialCells(size, fire))
  {
  }

  /** Every cell of a well-formed list sits inside the grid. */
  lemma CellsInsideGrid(size: GridSize, cells: seq<Cell>)
    requires size.Width >= MinSize && size.Height >= MinSize && WellFormed(size, cells)
    ensures forall i :: 0 <= i < |cells| ==>
      0 <= cells[i].Location.Row < size.Height && 0 <= cells[i].Location.Column < size.Width
  {
    forall i | 0 <= i < |cells|
      ensures 0 <= cells[i].Location.Row < size.Height && 0 <= cells[i].Location.Column < size.Width
    {
      LocationInBounds(size, i);
    }
  }

  /** Every location of the grid holds the cell at its row-major index, so the cells of a
      well-formed list cover `Height` distinct rows and `Width` distinct columns. */
  lemma CellAtLocation(size: GridSize, cells: seq<Cell>, r: int, c: int)
    requires size.Width >= MinSize && size.Height >= MinSize && WellFormed(size, cells)
    requires 0 <= r < size.Height && 0 <= c < size.Width
    ensures 0 <= r * size.Width + c < |cells| && cells[r * size.Width + c].Location == GridLocation(r, c)
  {
    IndexBelowSize(size, r, c);
    LocationOfRowMajor(size, r, c);
  }

  /** The row-major index of a location inside the grid is an index of the list. */
  lemma IndexBelowSize(size: GridSize, r: int, c: int)
    requires size.Width > 0 && 0 <= r < size.Height && 0 <= c < size.Width
    ensures 0 <= r * size.Width + c < size.Width * size.Height
  {
    MulAtLeastMono(size.Height - 1, r, size.Width);
    MulAtLeastMono(r, 0, size.Width);
  }

  /** Exactly one cell of a new grid burns when the fire location is strictly inside the border,
      the one at the fire location's row-major index; otherwise none does. */
  lemma {:induction false} InitialBurning(size: GridSize, fire: GridLocation)
    requires size.Width >= MinSize && size.Height >= MinSize
    ensures var cells := InitialCells(size, fire);
      forall i :: 0 <= i < |cells| ==>
        (cells[i].State == Burning <==> IsInterior(size, fire) && i == fire.Row * size.Width + fire.Column)
    ensures IsInterior(size, fire) ==>
      var k := fire.Row * size.Width + fire.Column;
      0 <= k < size.Width * size.Height && InitialCells(size, fire)[k].State == Burning
  {
    var cells := InitialCells(size, fire);
    forall i | 0 <= i < |cells|
      ensures cells[i].State == Burning <==> IsInterior(size, fire) && i == fire.Row * size.Width + fire.Column
    {
      LocationInBounds(size, i);
      if IsInterior(size, fire) && i == fire.Row * size.Width + fire.Column {
        LocationOfRowMajor(size, fire.Row, fire.Column);
      }
    }
    if IsInterior(size, fire) {
      IndexBelowSize(size, fire.Row, fire.Column);
      LocationOfRowMajor(size, fire.Row, fire.Column);
    }
  }

  /** A fire location on the border or outside the grid sets nothing alight: the new grid is
      completed at once. */
  lemma BorderFireCompletesAtOnce(size: GridSize, fire: GridLocation)
    requires size.Width >= MinSize && size.Height >= MinSize && !IsInterior(size, fire)
    ensures !AnyBurning(InitialCells(size, fire))
  {
    InitialBurning(size, fire);
  }

  /** In a new grid the boundary cells are exactly the Empty ones. */
  lemma InitialBoundaryEmpty(size: GridSize, fire: GridLocation)
    requires size.Width >= MinSize && size.Height >= MinSize
    ensures var cells := InitialCells(size, fire);
      forall i :: 0 <= i < |cells| ==> (cells[i].IsBoundary <==> cells[i].State == CellState.Empty)
  {
  }

  // ---------------------------------------------------------------------------------------------
  // Counting cells

  /** The number of cells in `state`. */
  function CountState(cells: seq<Cell>, state: CellState): (n: nat)
    ensures n <= |cells|
  {
    if cells == [] then 0
    else CountState(cells[..|cells| - 1], state) + (if cells[|cells| - 1].State == state then 1 else 0)
  }

  /** The number of boundary cells. */
  function CountBoundary(cells: seq<Cell>): (n: nat)
    ensures n <= |cells|
  {
    if cells == [] then 0
    else CountBoundary(cells[..|cells| - 1]) + (if cells[|cells| - 1].IsBoundary then 1 else 0)
  }

  /** When only position `k` can be in `state`, at most that one cell is counted. */
  lemma {:induction false} CountAtMostOne(cells: seq<Cell>, state: CellState, k: int)
    requires forall i :: 0 <= i < |cells| ==> (cells[i].State == state <==> i == k)
    ensures CountState(cells, state) == if 0 <= k < |cells| then 1 else 0
  {
    if cells != [] {
      var front := cells[..|cells| - 1];
      assert forall i :: 0 <= i < |front| ==> front[i] == cells[i];
      CountAtMostOne(front, state, k);
    }
  }

  /** Every cell is in exactly one of the three states. */
  lemma {:induction false} CountPartition(cells: seq<Cell>)
    ensures CountState(cells, CellState.Empty) + CountState(cells, Tree) + CountState(cells, Burning) == |cells|
  {
    if cells != [] {
      CountPartition(cells[..|cells| - 1]);
    }
  }

  /** When the boundary cells are exactly the Empty ones, both counts agree. */
  lemma {:induction false} CountBoundaryIsEmpty(cells: seq<Cell>)
    requires forall i :: 0 <= i < |cells| ==> (cells[i].IsBoundary <==> cells[i].State == CellState.Empty)
    ensures CountBoundary(cells) == CountState(cells, CellState.Empty)
  {
    if cells != [] {
      var front := cells[..|cells| - 1];
      assert forall i :: 0 <= i < |front| ==> front[i] == cells[i];
      CountBoundaryIsEmpty(front);
    }
  }

  /** The boundary flags of a well-formed list count the border positions. */
  lemma {:induction false} CountBoundaryPrefix(size: GridSize, cells: seq<Cell>, n: nat)
    requires size.Width > 0 && n <= |cells|
    requires forall i :: 0 <= i < |cells| ==> cells[i].IsBoundary == IsBorderAt(size, i)
    ensures CountBoundary(cells[..n]) == BorderCount(size, n)
  {
    if n > 0 {
      assert cells[..n][..n - 1] == cells[..n - 1];
      CountBoundaryPrefix(size, cells, n - 1);
    }
  }

  /** A new `Width`×`Height` grid has `2·Width + 2·(Height − 2)` boundary cells, all Empty, one
      Burning cell when the fire location is inside the border and none otherwise, and Trees
      everywhere else. */
  lemma InitialCounts(size: GridSize, fire: GridLocation)
    requires size.Width >= MinSize && size.Height >= MinSize
    ensures var cells := InitialCells(size, fire);
      var boundary := 2 * size.Width + 2 * (size.Height - 2);
      var burning := if IsInterior(size, fire) then 1 else 0;
      CountBoundary(cells) == boundary &&
      CountState(cells, CellState.Empty) == boundary &&
      CountState(cells, Burning) == burning &&
      CountState(cells, Tree) == size.Width * size.Height - boundary - burning
  {
    var cells := InitialCells(size, fire);
    InitialBurning(size, fire);
    CountAtMostOne(cells, Burning, if IsInterior(size, fire) then fire.Row * size.Width + fire.Column else -1);
    InitialBoundaryEmpty(size, fire);
    CountBoundaryIsEmpty(cells);
    CountBoundaryPrefix(size, cells, |cells|);
    assert cells[..|cells|] == cells;
    BorderPositionCount(size);
    CountPartition(cells);
  }

  /** The default 21×21 grid: the fire is at the centre cell, index 220, which is not a boundary
      cell; 80 cells are boundary, 360 are trees. */
  lemma DefaultTwentyOneGrid()
    ensures var size := GridSize(21, 21);
      var cells := InitialCells(size, GridLocation(21 / 2, 21 / 2));
      |cells| == 441 && cells[220].Index == 220 && !cells[220].IsBoundary && cells[220].State == Burning &&
      CountState(cells, Burning) == 1 && CountBoundary(cells) == 80 && CountState(cells, Tree) == 360
  {
    var size := GridSize(21, 21);
    InitialBurning(size, GridLocation(10, 10));
    InitialCounts(size, GridLocation(10, 10));
  }

  // ---------------------------------------------------------------------------------------------
  // One step of the simulation

  /** Every read that sampling makes for any cell of the list falls inside the list. */
  predicate AllReadsInRange(strategy: CardinalNeighbourStrategy, size: GridSize, cells: seq<Cell>)
  {
    forall i :: 0 <= i < |cells| ==> ReadsInRange(strategy, size, cells, cells[i].Location)
  }

  /** The successor of one cell: same index, location and boundary flag, and the state the rule
      gives for the neighbours sampled from the pre-step list `cells`. */
  function NextCell(rule: SpreadStrategy, strategy: CardinalNeighbourStrategy, size: GridSize, cells: seq<Cell>,
                    cell: Cell): Cell
    requires ReadsInRange(strategy, size, cells, cell.Location)
  {
    Cell(cell.Index, cell.Location, Spread(rule, cell, ExpectedNeighbours(strategy, size, cells, cell)), cell.IsBoundary)
  }

  /** One synchronous step: every new cell is computed from the old list alone. */
  function Step(rule: SpreadStrategy, strategy: CardinalNeighbourStrategy, size: GridSize, cells: seq<Cell>): (next: seq<Cell>)
    requires AllReadsInRange(strategy, size, cells)
    ensures |next| == |cells|
    ensures forall i :: 0 <= i < |cells| ==>
      next[i].Index == cells[i].Index && next[i].Location == cells[i].Location && next[i].IsBoundary == cells[i].IsBoundary
  {
    seq(|cells|, i requires 0 <= i < |cells| => NextCell(rule, strategy, size, cells, cells[i]))
  }

  /** A step keeps the shape of the grid. */
  lemma StepWellFormed(rule: SpreadStrategy, strategy: CardinalNeighbourStrategy, size: GridSize, cells: seq<Cell>)
    requires size.Width > 0 && WellFormed(size, cells) && AllReadsInRange(strategy, size, cells)
    ensures WellFormed(size, Step(rule, strategy, size, cells))
  {
  }

  /** What is left to burn: 2 per tree, 1 per fire. */
  function Weight(cells: seq<Cell>): (w: nat)
    ensures w == 0 <==> forall i :: 0 <= i < |cells| ==> cells[i].State == CellState.Empty
  {
    if cells == [] then 0 else StateWeight(cells[0].State) + Weight(cells[1..])
  }

  /** Position by position no heavier, and at one position lighter, means lighter overall. */
  lemma {:induction false} WeightDecreases(before: seq<Cell>, after: seq<Cell>, k: int)
    requires |before| == |after|
    requires forall i :: 0 <= i < |before| ==> StateWeight(after[i].State) <= StateWeight(before[i].State)
    requires 0 <= k < |before| && StateWeight(after[k].State) < StateWeight(before[k].State)
    ensures Weight(after) < Weight(before)
  {
    if k == 0 {
      WeightNotIncreased(before[1..], after[1..]);
    } else {
      WeightDecreases(before[1..], after[1..], k - 1);
    }
  }

  /** Position by position no heavier means no heavier overall. */
  lemma {:induction false} WeightNotIncreased(before: seq<Cell>, after: seq<Cell>)
    requires |before| == |after|
    requires forall i :: 0 <= i < |before| ==> StateWeight(after[i].State) <= StateWeight(before[i].State)
    ensures Weight(after) <= Weight(before)
  {
    if before != [] {
      WeightNotIncreased(before[1..], after[1..]);
    }
  }

  /** While something burns, a step makes the grid strictly lighter, whichever rule is used; so
      stepping a grid until it is completed terminates. A step of a completed grid leaves it no
      heavier. */
  lemma StepWeight(rule: SpreadStrategy, strategy: CardinalNeighbourStrategy, size: GridSize, cells: seq<Cell>)
    requires AllReadsInRange(strategy, size, cells)
    ensures Weight(Step(rule, strategy, size, cells)) <= Weight(cells)
    ensures AnyBurning(cells) ==> Weight(Step(rule, strategy, size, cells)) < Weight(cells)
  {
    var next := Step(rule, strategy, size, cells);
    WeightNotIncreased(cells, next);
    if AnyBurning(cells) {
      var k :| 0 <= k < |cells| && cells[k].State == Burning;
      WeightDecreases(cells, next, k);
    }
  }

  /** While something burns, a step changes the sequence of states: every fire burns out. */
  lemma StepChangesStates(rule: SpreadStrategy, strategy: CardinalNeighbourStrategy, size: GridSize, cells: seq<Cell>)
    requires AllReadsInRange(strategy, size, cells) && AnyBurning(cells)
    ensures var next := Step(rule, strategy, size, cells);
      exists k :: 0 <= k < |cells| && cells[k].State == Burning && next[k].State == CellState.Empty
  {
    var k :| 0 <= k < |cells| && cells[k].State == Burning;
    assert Step(rule, strategy, size, cells)[k].State == CellState.Empty;
  }

  // ---------------------------------------------------------------------------------------------
  // Which reads stay in range

  /** On a grid that is no taller than it is wide, the index `GetIndex` gives a location inside
      the grid is an index of the list. */
  lemma NotTallerIndexInRange(size: GridSize, r: int, c: int)
    requires 2 <= size.Height <= size.Width && 0 <= r < size.Height && 0 <= c < size.Width
    ensures 0 <= GetIndex(size, r, c) < size.Width * size.Height
  {
    var w, h := size.Width, size.Height;
    MulAtLeastMono(r, 0, h);
    MulAtLeastMono(h - 1, r, h);
    MulAtLeastMono(w, h, h - 1);
    assert (h - 1) * w == w * h - w;
  }

  /** On a grid that is no taller than it is wide every read of a well-formed list is in range
      (although on a wider-than-tall grid it may hit another cell than the neighbour). */
  lemma NotTallerReadsInRange(strategy: CardinalNeighbourStrategy, size: GridSize, cells: seq<Cell>)
    requires size.Width >= MinSize && size.Height >= MinSize && size.Height <= size.Width
    requires WellFormed(size, cells)
    ensures AllReadsInRange(strategy, size, cells)
  {
    CellsInsideGrid(size, cells);
    forall i, d | 0 <= i < |cells| && Picks(strategy, size, cells[i].Location, d)
      ensures 0 <= NeighbourIndex(size, cells[i].Location, d) < |cells|
    {
      var loc := cells[i].Location;
      NotTallerIndexInRange(size, loc.Row + RowOffset(d), loc.Column + ColumnOffset(d));
    }
  }

  /** On a 3-wide, 5-tall grid cell 6 is at (2, 0) and its South read is index 15 of a 15-cell list:
      the source would fail with an out-of-range error, so the reads are not in range. */
  lemma TallGridReadsOutOfRange()
    ensures var size := GridSize(3, 5);
      var cells := InitialCells(size, GridLocation(3 / 2, 5 / 2));
      |cells| == 15 && cells[6].Location == GridLocation(2, 0) &&
      Picks(DefaultStrategy(), size, cells[6].Location, South) &&
      NeighbourIndex(size, cells[6].Location, South) == 15 &&
      !AllReadsInRange(DefaultStrategy(), size, cells)
  {
    var size := GridSize(3, 5);
    var cells := InitialCells(size, GridLocation(1, 2));
    LocationOfRowMajor(size, 2, 0);
    assert cells[6].Location == GridLocation(2, 0);
    assert Picks(DefaultStrategy(), size, cells[6].Location, South);
    assert NeighbourIndex(size, cells[6].Location, South) == 15;
    assert !ReadsInRange(DefaultStrategy(), size, cells, cells[6].Location);
  }

  // ---------------------------------------------------------------------------------------------
  // The calls a grid makes on its renderer

  /** The move that precedes a cell in row-major order: a new row at the start of every row but
      the first, a new column everywhere else but at the very first cell. */
  function MoveBefore(first: bool, startsRow: bool): seq<RenderEvent>
  {
    if startsRow then (if first then [] else [MoveNextRow]) else [MoveNextColumn]
  }

  /** The calls for the cell at position `i`: the move that precedes it, then its render. */
  function CellEvents(size: GridSize, i: nat, cell: Cell): seq<RenderEvent>
    requires size.Width > 0
  {
    MoveBefore(i == 0, i % size.Width == 0) + [RenderCell(cell)]
  }

  /** The counters for the calls of one cell. */
  lemma CountCellEvents(first: bool, startsRow: bool, cell: Cell)
    ensures Count(MoveBefore(first, startsRow) + [RenderCell(cell)]) ==
      if !startsRow then Tally(0, 1, 1) else if !first then Tally(1, 0, 1) else Tally(0, 0, 1)
  {
    if !startsRow {
      assert MoveBefore(first, startsRow) + [RenderCell(cell)] == [MoveNextColumn, RenderCell(cell)];
    } else if !first {
      assert MoveBefore(first, startsRow) + [RenderCell(cell)] == [MoveNextRow, RenderCell(cell)];
    }
  }

  /** The calls that render `cells`, taken to sit at positions `0 .. |cells| - 1` in row-major order. */
  function RowMajorTrace(size: GridSize, cells: seq<Cell>): seq<RenderEvent>
    requires size.Width > 0
  {
    if cells == [] then []
    else
      var n := |cells| - 1;
      RowMajorTrace(size, cells[..n]) + CellEvents(size, n, cells[n])
  }

  /** How many of the positions `1 .. n - 1` start a row. */
  function RowStarts(size: GridSize, n: nat): nat
    requires size.Width > 0
  {
    if n <= 1 then 0 else RowStarts(size, n - 1) + (if (n - 1) % size.Width == 0 then 1 else 0)
  }

  /** The counters after rendering `cells`: a new row for each row started after the first, a new
      column for every other cell after the first, and one render per cell. */
  lemma {:induction false} PrefixTally(size: GridSize, cells: seq<Cell>)
    requires size.Width > 0 && cells != []
    ensures var n := |cells|;
      Count(RowMajorTrace(size, cells)) == Tally(RowStarts(size, n), n - 1 - RowStarts(size, n), n)
  {
    var n := |cells|;
    var front := cells[..n - 1];
    var startsRow := (n - 1) % size.Width == 0;
    CountLastCell(size, cells);
    if n == 1 {
      DivModUnique(0, size.Width, 0, 0);
    } else {
      PrefixTally(size, front);
      assert RowStarts(size, n) == RowStarts(size, n - 1) + (if startsRow then 1 else 0);
    }
  }

  /** The counters grow by those of the last cell's calls. */
  lemma CountLastCell(size: GridSize, cells: seq<Cell>)
    requires size.Width > 0 && cells != []
    ensures var n := |cells|;
      Count(RowMajorTrace(size, cells)) ==
      Add(Count(RowMajorTrace(size, cells[..n - 1])),
          if (n - 1) % size.Width != 0 then Tally(0, 1, 1) else if n - 1 != 0 then Tally(1, 0, 1) else Tally(0, 0, 1))
  {
    var n := |cells|;
    var first, startsRow := n - 1 == 0, (n - 1) % size.Width == 0;
    var block := MoveBefore(first, startsRow) + [RenderCell(cells[n - 1])];
    assert RowMajorTrace(size, cells) == RowMajorTrace(size, cells[..n - 1]) + block;
    CountAppend(RowMajorTrace(size, cells[..n - 1]), block);
    CountCellEvents(first, startsRow, cells[n - 1]);
  }

  /** Up to the cell at column `c` of row `r`, exactly `r` rows have been started after the first. */
  lemma {:induction false} RowStartsAt(size: GridSize, r: nat, c: nat)
    requires size.Width > 0 && c < size.Width
    ensures RowStarts(size, r * size.Width + c + 1) == r
  {
    var w := size.Width;
    var n := r * w + c + 1;
    DivModUnique(n - 1, w, r, c);
    if c > 0 {
      RowStartsAt(size, r, c - 1);
    } else if r > 0 {
      assert (r - 1) * w + (w - 1) + 1 == n - 1;
      RowStartsAt(size, r - 1, w - 1);
    }
  }

  /** Taking one factor off a product. */
  lemma MulDistrib(a: int, b: int)
    ensures (a - 1) * b == a * b - b && b * (a - 1) == a * b - b
  {
  }

  /** Rendering a `Width`×`Height` grid makes `Height − 1` row moves, `Height·(Width − 1)` column
      moves and `Width·Height` cell renders. */
  lemma RenderTally(size: GridSize, cells: seq<Cell>)
    requires size.Width > 0 && size.Height > 0 && |cells| == size.Width * size.Height
    ensures Count(RowMajorTrace(size, cells)) ==
            Tally(size.Height - 1, size.Height * (size.Width - 1), size.Width * size.Height)
  {
    var w, h, n := size.Width, size.Height, |cells|;
    assert n == (h - 1) * w + (w - 1) + 1 by {
      MulDistrib(h, w);
    }
    RowStartsAt(size, h - 1, w - 1);
    assert RowStarts(size, n) == h - 1;
    PrefixTally(size, cells);
    assert n - 1 - (h - 1) == h * (w - 1) by {
      MulDistrib(w, h);
    }
  }

  /** The 21×21 grid: 20 row moves, 420 column moves, 441 renders. */
  lemma RenderTallyTwentyOne(cells: seq<Cell>)
    requires |cells| == 441
    ensures Count(RowMajorTrace(GridSize(21, 21), cells)) == Tally(20, 420, 441)
  {
    RenderTally(GridSize(21, 21), cells);
  }

  /** Every row move is directly followed by the render of a cell in column 0. */
  predicate RowMovesStartRows(trace: seq<RenderEvent>)
  {
    forall k :: 0 <= k < |trace| && trace[k] == MoveNextRow ==>
      k + 1 < |trace| && trace[k + 1].RenderCell? && trace[k + 1].Cell.Location.Column == 0
  }

  /** In the calls for a well-formed list every row move is directly followed by the render of a
      cell in column 0, the first cell of its row. */
  lemma {:induction false} RowMoveStartsRow(size: GridSize, cells: seq<Cell>)
    requires size.Width > 0
    requires forall i :: 0 <= i < |cells| ==> cells[i].Location == GetGridLocation(size, i)
    ensures RowMovesStartRows(RowMajorTrace(size, cells))
  {
    if cells != [] {
      var n := |cells|;
      var front := cells[..n - 1];
      RowMoveStartsRow(size, front);
      var before := RowMajorTrace(size, front);
      var first, startsRow := n - 1 == 0, (n - 1) % size.Width == 0;
      var block := MoveBefore(first, startsRow) + [RenderCell(cells[n - 1])];
      var trace := before + block;
      assert RowMajorTrace(size, cells) == trace;
      forall k | 0 <= k < |trace| && trace[k] == MoveNextRow
        ensures k + 1 < |trace| && trace[k + 1].RenderCell? && trace[k + 1].Cell.Location.Column == 0
      {
        if k < |before| {
          assert trace[k] == before[k];
          assert trace[k + 1] == before[k + 1];
        } else {
          assert trace[k] == block[k - |before|];
          RowMoveInCellEvents(first, startsRow, cells[n - 1], k - |before|);
          assert trace[k + 1] == block[k - |before| + 1];
          assert cells[n - 1].Location == GetGridLocation(size, n - 1);
          assert GetGridLocation(size, n - 1).Column == (n - 1) % size.Width;
        }
      }
    }
  }

  /** Within the calls of one cell a row move comes first, only at the start of a row, and the
      render of that cell follows it. */
  lemma RowMoveInCellEvents(first: bool, startsRow: bool, cell: Cell, k: int)
    requires var e := MoveBefore(first, startsRow) + [RenderCell(cell)]; 0 <= k < |e| && e[k] == MoveNextRow
    ensures k == 0 && startsRow && MoveBefore(first, startsRow) + [RenderCell(cell)] == [MoveNextRow, RenderCell(cell)]
  {
  }
}
