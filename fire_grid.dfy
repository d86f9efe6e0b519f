/** The grid engine (src/FireSim/TwoD/FireGrid.cs): a grid that owns its cell list, steps it and
    renders it. */
module FireGrids {
  import opened Wrappers
  import opened CellStates
  import opened Locations
  import opened Cells
  import opened NeighbourStates
  import opened GridGeometry
  import opened CardinalNeighbours
  import opened SpreadStrategies
  import opened Rendering
  import opened StringRendering
  import opened GridCells

  /** The argument the constructor rejects. */
  datatype GridError = WidthOutOfRange | HeightOutOfRange

  /** The constructor's argument checks: the width is checked before the height. */
  function CheckSize(width: int, height: int): (r: Option<GridError>)
    ensures r == None <==> width >= MinSize && height >= MinSize
    ensures r == Some(WidthOutOfRange) <==> width < MinSize
    ensures r == Some(HeightOutOfRange) <==> width >= MinSize && height < MinSize
  {
    if width < MinSize then Some(WidthOutOfRange)
    else if height < MinSize then Some(HeightOutOfRange)
    else None
  }

  /** `CreateCells`: builds the cell list of a new grid, one cell per index in row-major order. */
  method CreateCells(size: GridSize, fireLocation: GridLocation) returns (items: seq<Cell>)
    requires size.Width >= MinSize && size.Height >= MinSize
    ensures items == InitialCells(size, fireLocation)
  {
    var totalCells := size.Width * size.Height;
    MulAtLeast(size.Height, size.Width);
    items := [];
    for idx := 0 to totalCells
      invariant |items| == idx
      invariant forall j :: 0 <= j < idx ==> items[j] == InitialCell(size, fireLocation, j)
    {
      var location := GetGridLocation(size, idx);
      var isEdge := IsBorder(size, location.Row, location.Column);
      var state := if isEdge then CellState.Empty
                   else if Locations.Equals(location, fireLocation) then Burning
                   else Tree;
      items := items + [Cell(idx, location, state, isEdge)];
    }
  }

  class FireGrid {
    const Width: int
    const Height: int
    /** Where the fire starts; the centre, as (Width / 2, Height / 2), when none is given. */
    const FireLocation: GridLocation
    /** How neighbours are sampled; every direction when none is given. */
    const NeighbourStrategy: CardinalNeighbourStrategy
    /** The current cells, replaced as a whole by each step. */
    var InternalCells: seq<Cell>
    /** No cell is burning. */
    var IsCompleted: bool

    function Size(): GridSize
    {
      GridSize(Width, Height)
    }

    /** The sizes passed the checks, the cells have the shape of the grid, and `IsCompleted`
        says whether nothing burns. */
    predicate Valid()
      reads this
    {
      Width >= MinSize && Height >= MinSize &&
      WellFormed(Size(), InternalCells) &&
      IsCompleted == !AnyBurning(InternalCells)
    }

    /** The constructor, once the size checks have passed (see `Create` for the failing checks). */
    constructor (width: int, height: int, fireLocation: Option<GridLocation>,
                 neighbourStrategy: Option<CardinalNeighbourStrategy>)
      requires CheckSize(width, height) == None
      ensures Valid()
      ensures Width == width && Height == height
      ensures FireLocation == fireLocation.GetOr(GridLocation(width / 2, height / 2))
      ensures NeighbourStrategy == neighbourStrategy.GetOr(DefaultStrategy())
      ensures InternalCells == InitialCells(GridSize(width, height), FireLocation)
    {
      Width := width;
      Height := height;
      FireLocation := fireLocation.GetOr(GridLocation(width / 2, height / 2));
      NeighbourStrategy := neighbourStrategy.GetOr(DefaultStrategy());
      new;
      InternalCells := CreateCells(Size(), FireLocation);
      InitialCellsWellFormed(Size(), FireLocation);
      SetCompletedState();
    }

    /** The constructor with its argument checks: an out-of-range width is reported first, then an
        out-of-range height; otherwise a new grid. */
    static method Create(width: int, height: int, fireLocation: Option<GridLocation>,
                         neighbourStrategy: Option<CardinalNeighbourStrategy>)
      returns (r: Result<FireGrid, GridError>)
      ensures CheckSize(width, height).Some? ==> r == Failure(CheckSize(width, height).value)
      ensures CheckSize(width, height).None? ==>
        r.Success? && fresh(r.value) && r.value.Valid() &&
        r.value.Width == width && r.value.Height == height &&
        r.value.FireLocation == fireLocation.GetOr(GridLocation(width / 2, height / 2)) &&
        r.value.NeighbourStrategy == neighbourStrategy.GetOr(DefaultStrategy()) &&
        r.value.InternalCells == InitialCells(GridSize(width, height), r.value.FireLocation)
    {
      var check := CheckSize(width, height);
      if check.Some? {
        return Failure(check.value);
      }
      var grid := new FireGrid(width, height, fireLocation, neighbourStrategy);
      return Success(grid);
    }

    /** `SetCompletedState`: the grid is completed exactly when no cell is burning. */
    method SetCompletedState()
      modifies this
      ensures InternalCells == old(InternalCells)
      ensures IsCompleted == !AnyBurning(InternalCells)
    {
      IsCompleted := !(exists i :: 0 <= i < |InternalCells| && InternalCells[i].State == Burning);
    }

    /** `Spread`: does nothing once completed; otherwise computes every new cell from the old list
        with the given rule (the standard rule when none is given), swaps the list and recomputes
        `IsCompleted`. */
    method Spread(newSpreadStrategy: Option<SpreadStrategy>)
      requires Valid()
      requires !IsCompleted ==> AllReadsInRange(NeighbourStrategy, Size(), InternalCells)
      modifies this
      ensures Valid()
      ensures old(IsCompleted) ==> InternalCells == old(InternalCells)
      ensures !old(IsCompleted) ==>
        InternalCells == Step(newSpreadStrategy.GetOr(Standard), NeighbourStrategy, Size(), old(InternalCells))
      ensures !old(IsCompleted) ==> Weight(InternalCells) < old(Weight(InternalCells))
    {
      if IsCompleted {
        return;
      }
      var spreadStrategy := newSpreadStrategy.GetOr(Standard);
      var cells := InternalCells;
      var nextCells: seq<Cell> := [];
      for i := 0 to |cells|
        invariant |nextCells| == i
        invariant forall j :: 0 <= j < i ==>
          nextCells[j] == NextCell(spreadStrategy, NeighbourStrategy, Size(), cells, cells[j])
      {
        var cell := cells[i];
        var neighbours := GetNeighbours(NeighbourStrategy, Size(), cells, cell);
        var state := SpreadStrategies.Spread(spreadStrategy, cell, neighbours);
        nextCells := nextCells + [Cell(cell.Index, cell.Location, state, cell.IsBoundary)];
      }
      assert nextCells == Step(spreadStrategy, NeighbourStrategy, Size(), cells);
      StepWellFormed(spreadStrategy, NeighbourStrategy, Size(), cells);
      StepWeight(spreadStrategy, NeighbourStrategy, Size(), cells);
      InternalCells := nextCells;
      SetCompletedState();
    }

    /** `Render`: walks the cells in list order, telling `renderer` to start a new row when a
        cell's row is past the remembered one (and only then remembering it), to move to the next
        column when its column is past the remembered one, and to render the cell. The calls made
        are the row-major trace, and the renderer's text grows by what they write. */
    method Render(renderer: StringRenderer) returns (events: seq<RenderEvent>)
      requires Valid()
      modifies renderer
      ensures events == RowMajorTrace(Size(), InternalCells)
      ensures renderer.builder == old(renderer.builder) + renderer.Painted(events)
    {
      var lastLocation := GetGridLocation(Size(), 0);
      events := [];
      for i := 0 to |InternalCells|
        invariant events == RowMajorTrace(Size(), InternalCells[..i])
        invariant renderer.builder == old(renderer.builder) + renderer.Painted(events)
        invariant lastLocation == LastRowStart(Width, i)
      {
        var cell := InternalCells[i];
        var location := GetGridLocation(Size(), cell.Index);
        RenderDecision(Size(), i);
        ghost var before := renderer.builder;
        var step: seq<RenderEvent>;
        if location.Row > lastLocation.Row {
          lastLocation := location;
          var _ := renderer.MoveNextRow();
          step := [MoveNextRow];
        } else if location.Column > lastLocation.Column {
          var _ := renderer.MoveNextColumn();
          step := [MoveNextColumn];
        } else {
          step := [];
        }
        assert step == [] ==> renderer.builder == before + renderer.Painted(step);
        ghost var mid := renderer.builder;
        renderer.Render(cell);
        GrowsBy(renderer, before, mid, renderer.builder, step, [RenderCell(cell)]);
        step := step + [RenderCell(cell)];
        assert step == CellEvents(Size(), i, cell);
        TraceExtend(Size(), InternalCells, i);
        GrowsBy(renderer, old(renderer.builder), before, renderer.builder, events, step);
        events := events + step;
      }
      assert InternalCells[..|InternalCells|] == InternalCells;
    }

    /** Steps the grid until it is completed, as the grid tests do; this ends because every step
        makes the grid lighter, and it takes no more steps than the starting weight. The grid must
        be no taller than it is wide, so that sampling stays inside the list. */
    method RunToCompletion(spreadStrategy: Option<SpreadStrategy>) returns (steps: nat)
      requires Valid() && Height <= Width
      modifies this
      ensures Valid() && IsCompleted
      ensures steps <= old(Weight(InternalCells))
    {
      steps := 0;
      while !IsCompleted
        invariant Valid()
        invariant steps + Weight(InternalCells) <= old(Weight(InternalCells))
        decreases Weight(InternalCells)
      {
        NotTallerReadsInRange(NeighbourStrategy, Size(), InternalCells);
        Spread(spreadStrategy);
        steps := steps + 1;
      }
    }
  }

  /** The location `Render` remembers before position `i`: the start of the row of position
      `i - 1`, or the origin before the first cell. */
  function LastRowStart(w: int, i: nat): GridLocation
    requires w > 0
  {
    GridLocation(if i == 0 then 0 else (i - 1) / w, 0)
  }

  /** `Render`'s two comparisons at position `i`: the row is past the remembered one exactly when
      `i` starts a row other than the first, and then the location is that row's start; otherwise
      the column is past the remembered one exactly when `i` does not start a row. */
  lemma RenderDecision(size: GridSize, i: nat)
    requires size.Width > 0
    ensures var loc, last := GetGridLocation(size, i), LastRowStart(size.Width, i);
      (loc.Row > last.Row <==> i > 0 && i % size.Width == 0) &&
      (loc.Row > last.Row ==> loc == LastRowStart(size.Width, i + 1)) &&
      (loc.Row <= last.Row ==> (loc.Column > last.Column <==> i % size.Width != 0)) &&
      (loc.Row <= last.Row ==> LastRowStart(size.Width, i) == LastRowStart(size.Width, i + 1))
  {
    var w := size.Width;
    if i == 0 {
      DivModUnique(0, w, 0, 0);
    } else {
      var q, m := (i - 1) / w, (i - 1) % w;
      if m + 1 == w {
        DivModUnique(i, w, q + 1, 0);
      } else {
        DivModUnique(i, w, q, m + 1);
      }
    }
  }

  /** The trace of one more cell is the trace so far followed by that cell's calls. */
  lemma TraceExtend(size: GridSize, cells: seq<Cell>, i: nat)
    requires size.Width > 0 && i < |cells|
    ensures RowMajorTrace(size, cells[..i + 1]) == RowMajorTrace(size, cells[..i]) + CellEvents(size, i, cells[i])
  {
    assert cells[..i + 1][..i] == cells[..i];
  }
}
