/** A renderer that appends to a string buffer (src/FireSim/Renderer/StringRenderer.cs). */
module StringRendering {
  import CellStates
  import opened Cells
  import opened Rendering

  const ColumnSpace: string := " "
  const DefaultEmpty: string := "O"
  const DefaultTree: string := "!"
  const DefaultFire: string := "^"
  const RowTerminator: string := "\n"

  class StringRenderer {
    /** The glyph written for an Empty cell. */
    const Empty: string
    /** The glyph written for a Tree. */
    const Tree: string
    /** The glyph written for a Burning cell. */
    const Fire: string
    /** The text written so far; every operation only appends to it. */
    var builder: string

    /** Default glyphs. */
    constructor ()
      ensures Empty == DefaultEmpty && Tree == DefaultTree && Fire == DefaultFire
      ensures builder == ""
    {
      Empty, Tree, Fire := DefaultEmpty, DefaultTree, DefaultFire;
      builder := "";
    }

    /** A custom glyph for Empty, defaults for the others. */
    constructor WithEmpty(empty: string)
      ensures Empty == empty && Tree == DefaultTree && Fire == DefaultFire
      ensures builder == ""
    {
      Empty, Tree, Fire := empty, DefaultTree, DefaultFire;
      builder := "";
    }

    /** Custom glyphs for Empty and Tree, the default for Fire. */
    constructor WithEmptyAndTree(empty: string, tree: string)
      ensures Empty == empty && Tree == tree && Fire == DefaultFire
      ensures builder == ""
    {
      Empty, Tree, Fire := empty, tree, DefaultFire;
      builder := "";
    }

    /** Custom glyphs for all three states. */
    constructor WithGlyphs(empty: string, tree: string, fire: string)
      ensures Empty == empty && Tree == tree && Fire == fire
      ensures builder == ""
    {
      Empty, Tree, Fire := empty, tree, fire;
      builder := "";
    }

    /** The glyph for a state: Fire for Burning, Tree for Tree, Empty for Empty. */
    function Glyph(state: CellStates.CellState): (g: string)
      ensures state == CellStates.Burning ==> g == Fire
      ensures state == CellStates.Tree ==> g == Tree
      ensures state == CellStates.Empty ==> g == Empty
    {
      match state
      case Burning => Fire
      case Tree => Tree
      case Empty => Empty
    }

    /** The text this renderer appends for one call. */
    function PaintedOne(e: RenderEvent): string
    {
      match e
      case MoveNextRow => RowTerminator
      case MoveNextColumn => ColumnSpace
      case RenderCell(cell) => Glyph(cell.State)
    }

    /** The text this renderer appends for a run of calls. */
    function Painted(events: seq<RenderEvent>): string
    {
      if events == [] then "" else PaintedOne(events[0]) + Painted(events[1..])
    }

    /** Appends one space and reports success. */
    method MoveNextColumn() returns (r: bool)
      modifies this
      ensures r
      ensures builder == old(builder) + ColumnSpace
      ensures builder == old(builder) + Painted([RenderEvent.MoveNextColumn])
    {
      builder := builder + ColumnSpace;
      r := true;
    }

    /** Appends a line break and reports success. */
    method MoveNextRow() returns (r: bool)
      modifies this
      ensures r
      ensures builder == old(builder) + RowTerminator
      ensures builder == old(builder) + Painted([RenderEvent.MoveNextRow])
    {
      builder := builder + RowTerminator;
      r := true;
    }

    /** Appends the glyph for the state of `cell`. */
    method Render(cell: Cell)
      modifies this
      ensures builder == old(builder) + Glyph(cell.State)
      ensures builder == old(builder) + Painted([RenderCell(cell)])
    {
      match cell.State {
        case Burning => builder := builder + Fire;
        case Tree => builder := builder + Tree;
        case Empty => builder := builder + Empty;
      }
    }

    /** Everything written so far, in the order it was written. */
    function ToString(): (s: string)
      reads this
      ensures s == builder
    {
      builder
    }
  }

  /** The text for two consecutive runs of calls is the text of the first followed by that of the second. */
  lemma {:induction false} PaintedAppend(r: StringRenderer, a: seq<RenderEvent>, b: seq<RenderEvent>)
    ensures r.Painted(a + b) == r.Painted(a) + r.Painted(b)
  {
    if a == [] {
      assert a + b == b;
    } else {
      assert (a + b)[0] == a[0] && (a + b)[1..] == a[1..] + b;
      PaintedAppend(r, a[1..], b);
      assert r.PaintedOne(a[0]) + (r.Painted(a[1..]) + r.Painted(b)) == (r.PaintedOne(a[0]) + r.Painted(a[1..])) + r.Painted(b);
    }
  }

  /** Text that grew by the calls `a` and then by the calls `b` grew by the calls `a + b`. */
  lemma GrowsBy(r: StringRenderer, before: string, mid: string, after: string, a: seq<RenderEvent>, b: seq<RenderEvent>)
    requires mid == before + r.Painted(a) && after == mid + r.Painted(b)
    ensures after == before + r.Painted(a + b)
  {
    PaintedAppend(r, a, b);
  }

  /** With one-character glyphs the text holds exactly one character per call. */
  lemma {:induction false} PaintedLengthDefault(r: StringRenderer, events: seq<RenderEvent>)
    requires |r.Empty| == 1 && |r.Tree| == 1 && |r.Fire| == 1
    ensures |r.Painted(events)| == |events|
  {
    if events != [] {
      PaintedLengthDefault(r, events[1..]);
    }
  }
}
