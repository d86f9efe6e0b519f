/** What a grid tells a renderer (src/FireSim/IRenderer.cs), and the counting renderer of the grid tests. */
module Rendering {
  import opened Cells

  /** One call the grid makes on its renderer: `MoveNextRow`, `MoveNextColumn` or `Render(cell)`. */
  datatype RenderEvent = MoveNextRow | MoveNextColumn | RenderCell(Cell: Cell)

  /** The three counters kept by a renderer that only counts calls. */
  datatype Tally = Tally(Rows: int, Columns: int, Cells: int)

  function Add(a: Tally, b: Tally): Tally
  {
    Tally(a.Rows + b.Rows, a.Columns + b.Columns, a.Cells + b.Cells)
  }

  /** The counters after the renderer has received `events`: the row moves, the column moves and
      the renders among them. */
  function Count(events: seq<RenderEvent>): (t: Tally)
  {
    var m := multiset(events);
    Tally(m[MoveNextRow], m[MoveNextColumn], |events| - m[MoveNextRow] - m[MoveNextColumn])
  }

  /** Counting is additive over consecutive runs of calls. */
  lemma CountAppend(a: seq<RenderEvent>, b: seq<RenderEvent>)
    ensures Count(a + b) == Add(Count(a), Count(b))
  {
  }
}
