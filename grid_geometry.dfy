/** Index/location arithmetic and the border test that every grid uses
    (src/FireSim/TwoD/IFireGrid2DExtensions.cs). */
module GridGeometry {
  import opened Locations

  /** What the extension methods read of a grid: its width and its height. */
  datatype GridSize = GridSize(Width: int, Height: int)

  /** C#'s integer division, which truncates toward zero. */
  function TruncDiv(a: int, b: int): int
    requires b > 0
  {
    if a >= 0 then a / b else -((-a) / b)
  }

  /** C#'s remainder, whose sign follows the dividend. */
  function TruncRem(a: int, b: int): int
    requires b > 0
  {
    if a >= 0 then a % b else -((-a) % b)
  }

  /** `GetGridLocation`: the row is the index divided by the WIDTH, the column the remainder. */
  function GetGridLocation(grid: GridSize, index: int): (loc: GridLocation)
    requires grid.Width > 0
    ensures loc.Row * grid.Width + loc.Column == index
    ensures -grid.Width < loc.Column < grid.Width
    ensures index >= 0 ==> 0 <= loc.Row && 0 <= loc.Column
    ensures index >= 0 ==> loc == GridLocation(index / grid.Width, index % grid.Width)
    ensures index < 0 ==> loc.Row <= 0 && loc.Column <= 0
  {
    GridLocation(TruncDiv(index, grid.Width), TruncRem(index, grid.Width))
  }

  /** `GetIndex`: the row is multiplied by the HEIGHT, so rows lie Height apart and dividing by
      the Height recovers the row and column; this agrees with `GetGridLocation`, which divides
      by the Width, only on square grids. */
  function GetIndex(grid: GridSize, row: int, col: int): (i: int)
    ensures 0 <= row && 0 <= col < grid.Height ==>
              0 <= i && i / grid.Height == row && i % grid.Height == col
  {
    if 0 <= row && 0 <= col < grid.Height then
      DivModUnique(row * grid.Height + col, grid.Height, row, col);
      row * grid.Height + col
    else
      row * grid.Height + col
  }

  /** Whether a row and column lie inside the grid. */
  predicate InGrid(grid: GridSize, row: int, col: int)
  {
    0 <= row < grid.Height && 0 <= col < grid.Width
  }

  /** `IsBorder`: first or last row, or first or last column. */
  function IsBorder(grid: GridSize, row: int, col: int): (b: bool)
    ensures InGrid(grid, row, col) ==>
              (b <==> !(InGrid(grid, row - 1, col) && InGrid(grid, row + 1, col) &&
                        InGrid(grid, row, col - 1) && InGrid(grid, row, col + 1)))
  {
    row == 0 || row == grid.Height - 1 || col == 0 || col == grid.Width - 1
  }

  /** Whether the location of cell `index` lies on the border. */
  predicate IsBorderAt(grid: GridSize, index: int)
    requires grid.Width > 0
  {
    var loc := GetGridLocation(grid, index);
    IsBorder(grid, loc.Row, loc.Column)
  }

  /** A positive multiple of a positive number is at least that number. */
  lemma MulAtLeast(x: int, w: int)
    requires x >= 1 && w > 0
    ensures x * w >= w
  {
    assert x * w == (x - 1) * w + w;
  }

  /** Multiplying by a positive number keeps the order. */
  lemma MulAtLeastMono(x: int, y: int, w: int)
    requires x >= y && w > 0
    ensures x * w >= y * w
  {
    assert x * w - y * w == (x - y) * w;
  }

  /** Euclidean division has a unique quotient and remainder. */
  lemma DivModUnique(a: int, w: int, q: int, m: int)
    requires w > 0 && 0 <= m < w && a == q * w + m
    ensures a / w == q && a % w == m
  {
    var q', m' := a / w, a % w;
    var d := q - q';
    assert d * w == m' - m by {
      assert q * w - q' * w == d * w;
    }
    if d >= 1 {
      MulAtLeast(d, w);
      assert false;
    } else if d <= -1 {
      MulAtLeast(-d, w);
      assert false;
    }
  }

  /** Every index of a `Width`×`Height` grid has a location inside the grid. */
  lemma LocationInBounds(grid: GridSize, index: int)
    requires grid.Width > 0 && 0 <= index < grid.Width * grid.Height
    ensures var loc := GetGridLocation(grid, index);
      0 <= loc.Row < grid.Height && 0 <= loc.Column < grid.Width
  {
    var loc := GetGridLocation(grid, index);
    if loc.Row >= grid.Height {
      MulAtLeastMono(loc.Row, grid.Height, grid.Width);
      assert false;
    }
  }

  /** On a square grid, locating an index and converting back gives the index again. */
  lemma IndexRoundTrip(grid: GridSize, index: int)
    requires grid.Width > 0 && grid.Width == grid.Height && index >= 0
    ensures var loc := GetGridLocation(grid, index); GetIndex(grid, loc.Row, loc.Column) == index
  {
  }

  /** On a square grid, converting a row and an in-range column to an index and locating it
      gives the same row and column again. */
  lemma {:induction false} LocationRoundTrip(grid: GridSize, row: int, col: int)
    requires grid.Width > 0 && grid.Width == grid.Height && row >= 0 && 0 <= col < grid.Width
    ensures GetGridLocation(grid, GetIndex(grid, row, col)) == GridLocation(row, col)
  {
    DivModUnique(row * grid.Width + col, grid.Width, row, col);
  }

  /** The location of `row * Width + col` is (row, col) whenever the column is in range. */
  lemma {:induction false} LocationOfRowMajor(grid: GridSize, row: int, col: int)
    requires grid.Width > 0 && row >= 0 && 0 <= col < grid.Width
    ensures GetGridLocation(grid, row * grid.Width + col) == GridLocation(row, col)
  {
    DivModUnique(row * grid.Width + col, grid.Width, row, col);
  }

  /** On a 3-wide, 5-tall grid the round trip fails: index 3 is (1, 0), whose index is 5. */
  lemma NonSquareRoundTripFails()
    ensures GetGridLocation(GridSize(3, 5), 3) == GridLocation(1, 0)
    ensures GetIndex(GridSize(3, 5), 1, 0) == 5
  {
  }

  /** The sentinel never equals the location of a non-negative index ... */
  lemma EmptyIsNoLocation(grid: GridSize, index: int)
    requires grid.Width > 0 && index >= 0
    ensures GetGridLocation(grid, index) != Locations.Empty
  {
  }

  /** ... but, as C# division truncates, it is the location of index `-Width - 1`. */
  lemma EmptyIsLocationOfNegativeIndex(grid: GridSize)
    requires grid.Width > 1
    ensures GetGridLocation(grid, -grid.Width - 1) == Locations.Empty
  {
    DivModUnique(grid.Width + 1, grid.Width, 1, 1);
  }

  /** The number of border positions among the indices below `n`. */
  function BorderCount(grid: GridSize, n: nat): nat
    requires grid.Width > 0
  {
    if n == 0 then 0
    else BorderCount(grid, n - 1) + (if IsBorderAt(grid, n - 1) then 1 else 0)
  }

  /** Border positions in the rows below `r`: the first and the last row are border all along,
      every other row has two. */
  function RowsBorderCount(grid: GridSize, r: nat): nat
    requires grid.Width > 0
  {
    if r == 0 then 0
    else RowsBorderCount(grid, r - 1) + (if r - 1 == 0 || r - 1 == grid.Height - 1 then grid.Width else 2)
  }

  /** Border positions among the first `c` columns of row `r`. */
  function InRowBorderCount(grid: GridSize, r: int, c: int): nat
    requires grid.Width > 0 && c >= 0
  {
    if r == 0 || r == grid.Height - 1 then c
    else (if c >= 1 then 1 else 0) + (if c >= grid.Width then 1 else 0)
  }

  lemma {:induction false} BorderCountAt(grid: GridSize, r: nat, c: nat)
    requires grid.Width >= 3 && r < grid.Height && c <= grid.Width
    ensures BorderCount(grid, r * grid.Width + c) == RowsBorderCount(grid, r) + InRowBorderCount(grid, r, c)
    decreases r, c
  {
    var base := r * grid.Width;
    if c == 0 {
      if r > 0 {
        BorderCountAt(grid, r - 1, grid.Width);
        MulPred(r, grid.Width);
      }
    } else {
      BorderCountAt(grid, r, c - 1);
      LocationOfRowMajor(grid, r, c - 1);
      assert base + c - 1 == base + (c - 1);
      assert IsBorderAt(grid, base + (c - 1)) == IsBorder(grid, r, c - 1);
      InRowBorderStep(grid, r, c);
    }
  }

  /** `(r − 1)·w + w = r·w`. */
  lemma MulPred(r: int, w: int)
    ensures (r - 1) * w + w == r * w
  {
  }

  /** One more column of row `r` adds one border position exactly when that column is on the border. */
  lemma InRowBorderStep(grid: GridSize, r: int, c: int)
    requires grid.Width >= 3 && 1 <= c <= grid.Width
    ensures InRowBorderCount(grid, r, c) == InRowBorderCount(grid, r, c - 1) + (if IsBorder(grid, r, c - 1) then 1 else 0)
  {
  }

  lemma {:induction false} RowsBorderCountBelowLast(grid: GridSize, r: nat)
    requires grid.Width > 0 && 1 <= r < grid.Height
    ensures RowsBorderCount(grid, r) == grid.Width + 2 * (r - 1)
  {
    if r > 1 {
      RowsBorderCountBelowLast(grid, r - 1);
    }
  }

  /** A grid at least 3 wide and 3 tall has `2·Width + 2·(Height − 2)` border positions. */
  lemma BorderPositionCount(grid: GridSize)
    requires grid.Width >= 3 && grid.Height >= 3
    ensures BorderCount(grid, grid.Width * grid.Height) == 2 * grid.Width + 2 * (grid.Height - 2)
  {
    BorderCountAt(grid, grid.Height - 1, grid.Width);
    RowsBorderCountBelowLast(grid, grid.Height - 1);
    assert (grid.Height - 1) * grid.Width + grid.Width == grid.Width * grid.Height;
  }

  /** The 7×7 examples: index 23 is (3, 2), (3, 2) is index 23, and (0, 0) is border. */
  lemma SevenBySevenExamples()
    ensures GetGridLocation(GridSize(7, 7), 23) == GridLocation(3, 2)
    ensures GetIndex(GridSize(7, 7), 3, 2) == 23
    ensures IsBorder(GridSize(7, 7), 0, 0)
  {
    LocationOfRowMajor(GridSize(7, 7), 3, 2);
  }
}
