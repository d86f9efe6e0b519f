# Fire simulation — a verified Dafny model

This project models the core of a fire-spread cellular automaton written in C#. A rectangular
grid of cells is built row by row. Border cells are Empty, one interior cell is Burning, and every
other cell is a Tree. Each `Spread` step is synchronous: every new state is computed from the old
cell list. The new state comes from a spread rule applied to the cell and to the neighbours
sampled around it. The grid is completed once nothing burns. `Render` walks the cells and tells a
renderer to start a new row, move to the next column, or draw a cell. The string renderer turns
those calls into text.

The model keeps the program's own quirks:
- `GetIndex` multiplies the row by the Height, but `GetGridLocation` divides by the Width.
- "East" is column − 1 and "West" is column + 1.
- The default fire location is built as (Width / 2, Height / 2), read as (row, column).
- `Render` remembers only the start of each row.
- A fire location on the border or outside the grid leaves nothing burning, so the grid is
  completed at once.

The reads that neighbour sampling makes are proved to stay inside the cell list whenever the grid
is no taller than it is wide. A 3-wide, 5-tall grid is exhibited where a read runs off the end.

Modules, roughly one per source file (`FireGrid.cs` is split into `GridCells` and `FireGrids`;
`Wrappers`, `Rendering` and `SpreadStrategies` stand for no single source file):
- `CellStates`, `Directions`: the two enums, with their underlying values.
- `Locations`, `Cells`, `CellNeighbours`: the immutable value types and their equality.
- `NeighbourStates`: the neighbour list, with its filter and its query.
- `GridGeometry`: index/location arithmetic with C#'s truncating division, and the border test.
- `CardinalNeighbours`: neighbour sampling. The configured directions are a set. The
  `GetNeighbours` method builds the list the way the source does and is proved equal to
  `ExpectedNeighbours`.
- `StandardSpread`, `NortherlyWindSpread`, `SpreadStrategies`: the two spread rules and the
  closed choice between them.
- `Rendering`: the renderer calls as a trace of `RenderEvent`s. `StringRendering`: the string
  renderer as a class with an append-only `builder`.
- `GridCells`: the functions that specify the grid. These are the initial cells, one step, the
  weight 2·#Tree + #Burning, and the row-major render trace.
- `FireGrids`: the `FireGrid` class, with its constructor, `CreateCells`, `SetCompletedState`,
  `Spread` and `Render`.
- `CommandLine`: the console program's `-e`/`enhanced` argument check.

Interfaces are not modelled as interfaces:
- `ISpreadStrategy` becomes the closed datatype `SpreadStrategy`, with the two rules the program
  has.
- `INeighbourStrategy` is its one implementation, `CardinalNeighbourStrategy`.
- `IFireGrid` is the `GridSize` value.
- `IRenderer` is the `StringRenderer` class. `FireGrid.Render` also returns the sequence of calls
  it made, so any other renderer, such as the counting renderer of the grid tests, is covered by
  lemmas about that trace.

## Model

| member | source | states |
|---|---|---|
| CellStates.CellState.Value | src/FireSim/CellState.cs:5-10 | the underlying value is at most 2 and is 0 exactly for Empty, so Empty is the default state |
| Directions.CardinalDirection.Value | src/FireSim/Neighbour/CardinalDirection.cs:6-25 | the values are even and at most 14, and 0 exactly for North, so North is the default direction |
| Directions.AllDirectionsComplete | src/FireSim/Neighbour/CardinalDirection.cs:6-25 | every direction is one of the eight listed in enum order; CardinalsAndSubCardinalsCover rests on it |
| Locations.Equals | src/FireSim/GridLocation.cs:43-47 | locations are equal exactly when Row and Column both match |
| Locations.NotEquals | src/FireSim/GridLocation.cs:62-70 | `!=` holds exactly when the locations differ, i.e. it is the negation of `==` |
| GridGeometry.EmptyIsNoLocation | src/FireSim/GridLocation.cs:13 | the Empty sentinel (−1, −1) is never the location of a non-negative index |
| GridGeometry.EmptyIsLocationOfNegativeIndex | src/FireSim/GridLocation.cs:13 | the sentinel is what truncating division gives for index −Width − 1 |
| Cells.NewCell | src/FireSim/Cell.cs:19-25 | the constructor stores index, location, state and boundary flag as given; the flag defaults to false |
| Cells.Equals | src/FireSim/Cell.cs:54-61 | a cell equals another exactly when it is present and all four fields match; it never equals null |
| Cells.OperatorEquals | src/FireSim/Cell.cs:79-82 | `==` holds for two nulls, never for null and a cell, and otherwise when the fields match |
| Cells.OperatorNotEquals | src/FireSim/Cell.cs:84-87 | `!=` is the negation of `==` |
| CellNeighbours.Default | src/FireSim/Neighbour/CellNeighbour.cs:16-20 | the default value has both underlying values zero, i.e. it is (North, Empty) |
| CellNeighbours.Equals | src/FireSim/Neighbour/CellNeighbour.cs:39-43 | neighbours are equal exactly when direction and state match |
| CellNeighbours.NotEquals | src/FireSim/Neighbour/CellNeighbour.cs:58-66 | `!=` is the negation of `==` |
| CellNeighbours.OnlyNorthCanBeDefault | src/FireSimulation/EnhancedSimulation.cs:97 | an entry whose direction is not North never equals the default value |
| NeighbourStates.Where | src/FireSim/Neighbour/NeighbourState.cs:34 | the filter keeps exactly the entries whose direction is listed, and never lengthens the list |
| NeighbourStates.FilterByCardinalDirections | src/FireSim/Neighbour/NeighbourState.cs:32-36 | the result holds exactly the entries with a listed direction, and is no longer than the input |
| NeighbourStates.WhereKeepsStates | src/FireSim/Neighbour/NeighbourState.cs:34 | every kept entry is an input entry, unchanged, with a listed direction |
| NeighbourStates.WhereAppend | src/FireSim/Neighbour/NeighbourState.cs:34 | filtering distributes over concatenation, so the input order is kept |
| NeighbourStates.WhereIdempotent | src/FireSim/Neighbour/NeighbourState.cs:34-35 | filtering twice by the same directions is filtering once |
| NeighbourStates.WhereComposes | src/FireSim/Neighbour/NeighbourState.cs:34-35 | filtering by D and then by D′ is filtering by their intersection |
| NeighbourStates.FilterFullState | test/FireSim.Test/Neighbour/NeighbourStateTests.cs:20-29 | filtering a state with all eight directions leaves exactly the listed directions |
| NeighbourStates.AnyInState | src/FireSim/Neighbour/NeighbourState.cs:44-47 | the query holds exactly when some entry has the given state |
| NeighbourStates.NoneInEmptyState | test/FireSim.Test/Neighbour/NeighbourStateTests.cs:37-45 | no state is found in an empty neighbour list |
| NeighbourStates.AnyInFiltered | src/FireSim/Neighbour/NeighbourState.cs:32-47 | a state is found after filtering exactly when some entry with a listed direction has it |
| NeighbourStates.FirstOfWhere | src/FireSimulation/EnhancedSimulation.cs:93-95 | the filtered list is non-empty exactly when some entry matches, and its head is the first such entry |
| GridGeometry.GetGridLocation | src/FireSim/TwoD/IFireGrid2DExtensions.cs:14-15 | row·Width + column is the index, the column is below Width in magnitude, for index ≥ 0 the location is (index / Width, index % Width), and for index < 0 both row and column are ≤ 0 (so −Width − 1 gives the Empty sentinel) |
| GridGeometry.GetIndex | src/FireSim/TwoD/IFireGrid2DExtensions.cs:24-25 | the row is multiplied by the HEIGHT on purpose, as in the source: for row ≥ 0 and 0 ≤ col < Height the index divides by Height back into (row, col); it inverts GetGridLocation only on square grids (IndexRoundTrip, NonSquareRoundTripFails) and stays inside the list when H ≤ W (GridCells.NotTallerIndexInRange) |
| GridGeometry.IsBorder | src/FireSim/TwoD/IFireGrid2DExtensions.cs:34-38 | an in-grid position is on the border exactly when one of its four cardinal neighbours lies outside the grid; BorderPositionCount counts these positions |
| GridGeometry.LocationInBounds | src/FireSim/TwoD/IFireGrid2DExtensions.cs:14-15 | every index below Width·Height maps to a row below Height and a column below Width |
| GridGeometry.IndexRoundTrip | src/FireSim/TwoD/IFireGrid2DExtensions.cs:14-25 | on a square grid, GetIndex(GetGridLocation(i)) = i for i ≥ 0 |
| GridGeometry.LocationRoundTrip | src/FireSim/TwoD/IFireGrid2DExtensions.cs:14-25 | on a square grid, GetGridLocation(GetIndex(r, c)) = (r, c) when r ≥ 0 and 0 ≤ c < Width |
| GridGeometry.LocationOfRowMajor | src/FireSim/TwoD/IFireGrid2DExtensions.cs:14-15 | position r·Width + c is at (r, c) for 0 ≤ c < Width, on any grid |
| GridGeometry.NonSquareRoundTripFails | src/FireSim/TwoD/IFireGrid2DExtensions.cs:14-25 | on a 3-wide, 5-tall grid, index 3 is at (1, 0) but (1, 0) has index 5 |
| GridGeometry.SevenBySevenExamples | test/FireSim.Test/TwoD/IFireGrid2DExtensionTests.cs:10-41 | on 7×7, index 23 is at (3, 2), (3, 2) has index 23, and (0, 0) is on the border |
| GridGeometry.BorderPositionCount | src/FireSim/TwoD/IFireGrid2DExtensions.cs:34-38 | with both sides at least 3, exactly 2W + 2(H − 2) of the W·H positions are on the border |
| GridGeometry.BorderCountAt | src/FireSim/TwoD/IFireGrid2DExtensions.cs:34-38 | the border positions before (r, c) are those of the rows above plus those in row r before column c |
| GridGeometry.RowsBorderCountBelowLast | src/FireSim/TwoD/IFireGrid2DExtensions.cs:34-38 | the first r rows (1 ≤ r < H) hold W + 2(r − 1) border positions |
| CardinalNeighbours.WithDirections | src/FireSim/TwoD/CardinalNeighbourStrategy.cs:61-64 | the configured set holds exactly the listed directions, so duplicates collapse |
| CardinalNeighbours.WithSubCardinals | src/FireSim/TwoD/CardinalNeighbourStrategy.cs:51-55 | `true` configures all eight directions, `false` only North, East, South and West |
| CardinalNeighbours.DefaultStrategy | src/FireSim/TwoD/CardinalNeighbourStrategy.cs:42-45 | the no-argument constructor configures every direction |
| CardinalNeighbours.CardinalsAndSubCardinalsCover | src/FireSim/TwoD/CardinalNeighbourStrategy.cs:15-32 | the cardinals and sub-cardinals together are all eight directions |
| CardinalNeighbours.ConfiguredDirectionCounts | test/FireSim.Test/TwoD/CardinalNeighbourStrategyTests.cs:23 | 8 directions by default, 4 without sub-cardinals, and as many as the distinct listed directions |
| CardinalNeighbours.HasAnyOf | src/FireSim/TwoD/CardinalNeighbourStrategy.cs:116-119 | holds exactly when one of the given directions is configured |
| CardinalNeighbours.SampleRank | src/FireSim/TwoD/CardinalNeighbourStrategy.cs:86-106 | each direction has one position in the order N, NE, NW, W, S, SE, SW, E |
| CardinalNeighbours.AddNorthToNeighbours | src/FireSim/TwoD/CardinalNeighbourStrategy.cs:131-155 | appends the picked entries among N, NE, NW, in that order, to the list it is given |
| CardinalNeighbours.AddSouthToNeighbours | src/FireSim/TwoD/CardinalNeighbourStrategy.cs:167-188 | appends the picked entries among S, SE, SW, in that order, to the list it is given |
| CardinalNeighbours.GetNeighbours | src/FireSim/TwoD/CardinalNeighbourStrategy.cs:73-109 | when every read is inside the list, the result is the picked entries in sampling order, each with the state read at GetIndex of its offset |
| CardinalNeighbours.SampledEntries | src/FireSim/TwoD/CardinalNeighbourStrategy.cs:86-106 | every entry has a configured direction the cell can go to, carries the state read at that offset, and appears once, in sampling order |
| CardinalNeighbours.SampledComplete | src/FireSim/TwoD/CardinalNeighbourStrategy.cs:81-106 | every configured direction the cell can go to is in the result |
| CardinalNeighbours.EdgesOmitDirections | src/FireSim/TwoD/CardinalNeighbourStrategy.cs:81-84 | row 0 has no N/NE/NW, the last row no S/SE/SW, column 0 no E/NE/SE, the last column no W/NW/SW |
| CardinalNeighbours.InteriorSamplesEveryConfiguredDirection | test/FireSim.Test/TwoD/CardinalNeighbourStrategyTests.cs:23 | an interior cell gets exactly one entry per configured direction |
| CardinalNeighbours.CollectSuffixEntries | src/FireSim/TwoD/CardinalNeighbourStrategy.cs:86-106 | sampling from position m onward yields configured, reachable directions past m, each once, in order |
| CardinalNeighbours.CollectSuffixComplete | src/FireSim/TwoD/CardinalNeighbourStrategy.cs:86-106 | sampling from position m onward misses no picked direction from m onward |
| CardinalNeighbours.CollectSuffixCount | src/FireSim/TwoD/CardinalNeighbourStrategy.cs:86-106 | sampling from position m onward yields as many entries as directions are picked from m onward |
| StandardSpread.Spread | src/FireSim/Strategy/StandardSpreadStrategy.cs:26-56 | boundary, Burning and Empty cells become Empty; a non-boundary Tree burns exactly when some N/E/S/W entry is Burning, and otherwise stays a Tree |
| StandardSpread.DiagonalFireDoesNotSpread | src/FireSim/Strategy/StandardSpreadStrategy.cs:36-48 | a non-boundary Tree whose burning entries all lie diagonally stays a Tree: the rule looks only at N, E, S and W |
| StandardSpread.DependsOnlyOnStateAndNeighbours | src/FireSim/Strategy/StandardSpreadStrategy.cs:26-56 | two cells with the same boundary flag and state get the same outcome from the same entries: index and location play no part |
| NortherlyWindSpread.FirstOrDefault | src/FireSimulation/EnhancedSimulation.cs:93-95 | the first entry of a non-empty list; for an empty list, the struct's default, whose direction and state are both at their enum's zero value |
| NortherlyWindSpread.Spread | src/FireSimulation/EnhancedSimulation.cs:84-108 | boundary, Burning and Empty cells become Empty; a non-boundary Tree burns exactly when the first South entry is Burning, and otherwise stays a Tree |
| NortherlyWindSpread.OnlySouthMatters | src/FireSimulation/EnhancedSimulation.cs:93-95 | the rule gives the same answer when every non-South entry is removed |
| SpreadStrategies.StateWeight | src/FireSim/TwoD/FireGrid.cs:71-92 | the model's own termination measure for the spread loop, with no counterpart in the source: every state weighs at most 2, and only Empty weighs nothing |
| SpreadStrategies.Spread | src/FireSim/Strategy/StandardSpreadStrategy.cs:26-56 | under either rule the result is Empty exactly for boundary or non-Tree cells, a Tree only from a non-boundary Tree, never heavier than the input, and strictly lighter for a fire |
| StringRendering.StringRenderer.constructor | src/FireSim/Renderer/StringRenderer.cs:21-23 | the default glyphs are "O" for Empty, "!" for Tree and "^" for fire, and the text is empty |
| StringRendering.StringRenderer.WithEmpty | src/FireSim/Renderer/StringRenderer.cs:29-31 | the Empty glyph is given; the other two are the defaults |
| StringRendering.StringRenderer.WithEmptyAndTree | src/FireSim/Renderer/StringRenderer.cs:38-40 | the Empty and Tree glyphs are given; the fire glyph is the default |
| StringRendering.StringRenderer.WithGlyphs | src/FireSim/Renderer/StringRenderer.cs:48-54 | all three glyphs are stored as given, and the text starts empty |
| StringRendering.StringRenderer.Glyph | src/FireSim/Renderer/StringRenderer.cs:97-108 | Burning draws the fire glyph, Tree the tree glyph, Empty the empty glyph |
| StringRendering.StringRenderer.MoveNextColumn | src/FireSim/Renderer/StringRenderer.cs:75-79 | appends one space and returns true |
| StringRendering.StringRenderer.MoveNextRow | src/FireSim/Renderer/StringRenderer.cs:85-89 | appends a line break and returns true |
| StringRendering.StringRenderer.Render | src/FireSim/Renderer/StringRenderer.cs:95-110 | appends the glyph of the cell's state |
| StringRendering.StringRenderer.ToString | src/FireSim/Renderer/StringRenderer.cs:116-119 | the text is everything appended so far |
| StringRendering.PaintedAppend | src/FireSim/Renderer/StringRenderer.cs:77-107 | the text for two runs of calls is the first run's text followed by the second's, so earlier output stays a prefix |
| StringRendering.PaintedLengthDefault | src/FireSim/Renderer/StringRenderer.cs:10-14 | with one-character glyphs, as the defaults are, the text has one character per call |
| Rendering.CountAppend | test/FireSim.Test/TwoD/FireGridTests.cs:96-117 | the counters of two runs of calls add up |
| GridCells.InitialCellsWellFormed | src/FireSim/TwoD/FireGrid.cs:130-148 | there are W·H cells, and cell i has index i, location GetGridLocation(i) and the border flag of that location |
| GridCells.CellsInsideGrid | src/FireSim/TwoD/FireGrid.cs:135-138 | every cell's location is inside the grid |
| GridCells.CellAtLocation | src/FireSim/TwoD/FireGrid.cs:135-138 | every location of the grid is the location of cell r·W + c |
| GridCells.InitialBoundaryEmpty | src/FireSim/TwoD/FireGrid.cs:140 | a cell is Empty exactly when it is on the border |
| GridCells.InitialBurning | src/FireSim/TwoD/FireGrid.cs:140-142 | a cell burns exactly when the fire location is interior and the cell is at it |
| GridCells.BorderFireCompletesAtOnce | src/FireSim/TwoD/FireGrid.cs:41-44 | a fire location that is not interior leaves no cell burning |
| GridCells.InitialCounts | src/FireSim/TwoD/FireGrid.cs:130-148 | 2W + 2(H − 2) boundary cells, as many Empty cells, one fire if its location is interior, and trees everywhere else |
| GridCells.DefaultTwentyOneGrid | test/FireSim.Test/TwoD/FireGridTests.cs:26-65 | on 21×21 with the default location there are 441 cells, the only fire is cell 220, which is not a boundary cell, and there are 80 boundary cells and 360 trees |
| GridCells.CountAtMostOne | src/FireSim/TwoD/FireGrid.cs:140-142 | a state that only cell k has is counted once if k is a cell, otherwise never |
| GridCells.CountPartition | src/FireSim/CellState.cs:5-10 | the Empty, Tree and Burning counts add up to the number of cells |
| GridCells.CountBoundaryIsEmpty | src/FireSim/TwoD/FireGrid.cs:140 | when exactly the boundary cells are Empty, both counts agree |
| GridCells.CountBoundaryPrefix | src/FireSim/TwoD/FireGrid.cs:138 | the boundary cells among the first n are the border positions among the first n |
| GridCells.Step | src/FireSim/TwoD/FireGrid.cs:80-90 | a step keeps the number of cells and every cell's index, location and boundary flag |
| GridCells.StepWellFormed | src/FireSim/TwoD/FireGrid.cs:80-90 | a step keeps the shape of the grid |
| GridCells.Weight | src/FireSim/TwoD/FireGrid.cs:80-91 | the weight 2·#Tree + #Burning is 0 exactly when every cell is Empty |
| GridCells.WeightDecreases | src/FireSim/TwoD/FireGrid.cs:80-90 | if no cell gets heavier and one gets lighter, the grid gets lighter |
| GridCells.WeightNotIncreased | src/FireSim/TwoD/FireGrid.cs:80-90 | if no cell gets heavier, the grid does not |
| GridCells.StepWeight | src/FireSim/TwoD/FireGrid.cs:78-90 | a step never makes the grid heavier, and makes it strictly lighter while something burns |
| GridCells.StepChangesStates | test/FireSim.Test/TwoD/FireGridTests.cs:67-81 | while something burns, a step changes some cell's state |
| GridCells.NotTallerIndexInRange | src/FireSim/TwoD/IFireGrid2DExtensions.cs:24-25 | on a grid no taller than wide, GetIndex of any in-grid location is inside the list |
| GridCells.NotTallerReadsInRange | src/FireSim/TwoD/CardinalNeighbourStrategy.cs:93-185 | on a grid no taller than wide, every read sampling makes is inside the list |
| GridCells.TallGridReadsOutOfRange | src/FireSim/TwoD/CardinalNeighbourStrategy.cs:173 | on a 3-wide, 5-tall grid, cell 6 at (2, 0) reads South at index 15 of a 15-cell list |
| GridCells.RenderTally | src/FireSim/TwoD/FireGrid.cs:98-116 | rendering W·H cells makes H − 1 row moves, H·(W − 1) column moves and W·H cell renders |
| GridCells.RenderTallyTwentyOne | test/FireSim.Test/TwoD/FireGridTests.cs:84-94 | on 21×21: 20 row moves, 420 column moves, 441 renders |
| GridCells.PrefixTally | src/FireSim/TwoD/FireGrid.cs:98-116 | after n cells the counters are (row starts, n − 1 − row starts, n) |
| GridCells.RowStartsAt | src/FireSim/TwoD/FireGrid.cs:104-108 | up to and including (r, c) exactly r rows have been started |
| GridCells.CountCellEvents | src/FireSim/TwoD/FireGrid.cs:104-114 | each cell adds a column move, or a row move except at the first cell, and one render |
| GridCells.RowMoveStartsRow | src/FireSim/TwoD/FireGrid.cs:104-114 | every row move is followed directly by the render of a cell in column 0 |
| FireGrids.CheckSize | src/FireSim/TwoD/FireGrid.cs:29-37 | a width below 3 is reported first, then a height below 3, and otherwise there is no error |
| FireGrids.CreateCells | src/FireSim/TwoD/FireGrid.cs:130-148 | the loop builds exactly the initial cells |
| FireGrids.FireGrid.constructor | src/FireSim/TwoD/FireGrid.cs:27-45 | stores the size, defaults the fire to (W/2, H/2) and the strategy to all directions, builds the initial cells, and sets IsCompleted to "nothing burns" |
| FireGrids.FireGrid.Create | src/FireSim/TwoD/FireGrid.cs:27-45 | an out-of-range width or height gives that error, and otherwise a new grid as the constructor builds it |
| FireGrids.FireGrid.SetCompletedState | src/FireSim/TwoD/FireGrid.cs:121-124 | IsCompleted becomes "no cell is Burning", and the cells are untouched |
| FireGrids.FireGrid.Spread | src/FireSim/TwoD/FireGrid.cs:71-92 | does nothing on a completed grid; otherwise replaces the cells with one step of the given rule, the standard rule by default, computed from the old list; the grid gets lighter and IsCompleted still says "nothing burns" |
| FireGrids.FireGrid.Render | src/FireSim/TwoD/FireGrid.cs:98-116 | the calls made are the row-major trace, and the renderer's text grows by exactly their text |
| FireGrids.RenderDecision | src/FireSim/TwoD/FireGrid.cs:103-112 | at position i the row is past the remembered one exactly when i starts a row after the first; otherwise the column is past it exactly when i does not start a row |
| FireGrids.FireGrid.RunToCompletion | test/FireSim.Test/TwoD/FireGridTests.cs:67-81 | spreading until completion ends, after no more steps than the starting weight |
| CommandLine.Contains | src/FireSimulation/CommandArgs.cs:20 | holds exactly when some argument equals the flag, character for character |
| CommandLine.AnyFlagIn | src/FireSimulation/CommandArgs.cs:18-26 | the search holds exactly when some flag is among the arguments |
| CommandLine.ParseEnhanced | src/FireSimulation/CommandArgs.cs:16-27 | holds exactly when some argument is "e" or "enhanced" |
| CommandLine.NewCommandArgs | src/FireSimulation/CommandArgs.cs:8-14 | UseEnhanced holds exactly when "e" or "enhanced" is among the arguments |
| CommandLine.NoArgumentsIsStandard | src/FireSimulation/CommandArgs.cs:26 | no arguments means UseEnhanced is false |
| CommandLine.ExactMatchOnly | src/FireSimulation/CommandArgs.cs:20 | "E", "-e", "--enhanced", "Enhanced", "ENHANCED" and "en" do not count |
| CommandLine.FlagAnywhere | src/FireSimulation/CommandArgs.cs:18-24 | either flag counts wherever it stands among other arguments |
| CommandLine.SplitArguments | src/FireSimulation/CommandArgs.cs:18-24 | parsing a + b is parsing a or parsing b |
| CommandLine.ReorderedArguments | src/FireSimulation/CommandArgs.cs:18-24 | reordered arguments parse alike |

## Left out

- The console loops `StandardSimulation.Run`, `EnhancedSimulation.Run` and `Program.Main` are left out. They read keys and write lines, which is console I/O.
- The `GetHashCode` and `ToString` overrides are left out, except `StringRenderer.ToString`. They are hashing and formatting, not behaviour.
- `NeighbourState.Equals` and its operators are left out. They compare the backing arrays by reference, which has no meaning for values.
- The null-argument exception of the `NeighbourState` constructor is left out, because Dafny sequences are never null.
- 32-bit arithmetic is not modelled. `Width * Height` and the index arithmetic use unbounded integers, so the overflow of very large grids is not modelled.
- The interfaces are closed choices:
  - `ISpreadStrategy` is the two rules the program has.
  - `INeighbourStrategy` is `CardinalNeighbourStrategy`.
  - `IRenderer` is `StringRenderer`, together with the trace that `FireGrid.Render` returns.
  - Renderers written elsewhere are covered only through that trace.
- FireGrids.FireGrid.Spread requires that every neighbour read is inside the list. The source indexes the list anyway and throws when a read is out of range, which can happen on a grid taller than it is wide. That exception is not modelled. `NotTallerReadsInRange` shows the requirement holds whenever Height ≤ Width, and `TallGridReadsOutOfRange` shows where it fails.
- FireGrids.FireGrid.RunToCompletion requires Height ≤ Width for the same reason.
- The append of `AddNorthToNeighbours`/`AddSouthToNeighbours` to a shared list is modelled by value: the methods take the list and return the extended one.
- The constructor requires the size checks to pass. The thrown `ArgumentOutOfRangeException` is modelled by `FireGrid.Create` returning a `GridError`.
- The test fixtures `MockFireGrid` and the neighbour tests' own grid are left out. The latter gives cell i the location (i, i).
