/** The tile map: a rectangular block of rows, one character per cell.
    '1' marks a wall, '.' an open floor cell; any other character is neither.
    Rows are indexed by y, columns by x, as in `mapGrid[y][x]`. */
module Grid {

  /** A map every row of which has the length of the first, with at least one row and one column. */
  predicate Rectangular(grid: seq<string>)
  {
    |grid| >= 1 && |grid[0]| >= 1 &&
    forall y :: 0 <= y < |grid| ==> |grid[y]| == |grid[0]|
  }

  /** `mapW` of the renderer: the length of the first row. */
  function Width(grid: seq<string>): (w: nat)
    requires Rectangular(grid)
    ensures w >= 1
  {
    |grid[0]|
  }

  /** `mapH` of the renderer: the number of rows. */
  function Height(grid: seq<string>): (h: nat)
    requires Rectangular(grid)
    ensures h >= 1
  {
    |grid|
  }

  predicate InBounds(grid: seq<string>, x: int, y: int)
    requires Rectangular(grid)
  {
    0 <= x < Width(grid) && 0 <= y < Height(grid)
  }

  /** The cell at column x, row y. */
  function CellAt(grid: seq<string>, x: int, y: int): (c: char)
    requires Rectangular(grid) && InBounds(grid, x, y)
    ensures c in grid[y]
  {
    grid[y][x]
  }

  /** The ray caster stops on a cell that holds '1'. */
  predicate IsWall(grid: seq<string>, x: int, y: int)
    requires Rectangular(grid) && InBounds(grid, x, y)
  {
    CellAt(grid, x, y) == '1'
  }

  /** A move may end only on a cell that holds '.'. */
  predicate IsOpen(grid: seq<string>, x: int, y: int)
    requires Rectangular(grid) && InBounds(grid, x, y)
  {
    CellAt(grid, x, y) == '.'
  }

  predicate OnEdge(grid: seq<string>, x: int, y: int)
    requires Rectangular(grid)
  {
    x == 0 || x == Width(grid) - 1 || y == 0 || y == Height(grid) - 1
  }

  /** No cell of the outermost rows and columns is open (the map literal's ring of '1's). */
  predicate Framed(grid: seq<string>)
    requires Rectangular(grid)
  {
    forall x, y | 0 <= x < Width(grid) && 0 <= y < Height(grid) :: OnEdge(grid, x, y) ==> !IsOpen(grid, x, y)
  }

  /** Every cell of the outermost rows and columns is a wall. */
  predicate Walled(grid: seq<string>)
    requires Rectangular(grid)
  {
    forall x, y | 0 <= x < Width(grid) && 0 <= y < Height(grid) :: OnEdge(grid, x, y) ==> IsWall(grid, x, y)
  }

  /** C++ `int(v)` on a double: truncation toward zero. */
  function Trunc(v: real): (r: int)
    ensures v >= 0.0 ==> r == v.Floor
    ensures v >= 0.0 ==> r as real <= v < r as real + 1.0
    ensures v <= 0.0 ==> r as real - 1.0 < v <= r as real
  {
    if v >= 0.0 then v.Floor else -((-v).Floor)
  }

  /** A position whose truncated coordinates name an open cell of a framed map
      lies at least one whole cell inside the map's edge on both axes. */
  lemma {:induction false} OpenCellIsInterior(grid: seq<string>, x: real, y: real)
    requires Rectangular(grid) && Framed(grid)
    requires InBounds(grid, Trunc(x), Trunc(y)) && IsOpen(grid, Trunc(x), Trunc(y))
    ensures 1 <= Trunc(x) <= Width(grid) - 2 && 1 <= Trunc(y) <= Height(grid) - 2
    ensures x >= 1.0 && y >= 1.0
  {
    if OnEdge(grid, Trunc(x), Trunc(y)) {
      assert false;
    }
  }

  /** The map the program ships with (src/main.cpp:12-29): 16 by 16 cells,
      walled all round. */
  const SourceMap: seq<string> := [
    "1111111111111111",
    "1..............1",
    "1..111...11....1",
    "1..1.......1...1",
    "1..1..11...1...1",
    "1....1......1..1",
    "1....1......1..1",
    "1....11111111..1",
    "1..............1",
    "1..11......11..1",
    "1..1........1..1",
    "1..1...11...1..1",
    "1..............1",
    "1..............1",
    "1..............1",
    "1111111111111111"
  ]

  /** The shipped map meets what the walk and the moves rely on, and the
      starting cell (8, 8) is open. */
  lemma SourceMapIsFramed()
    ensures Rectangular(SourceMap) && Framed(SourceMap) && Walled(SourceMap)
    ensures Width(SourceMap) == 16 && Height(SourceMap) == 16
    ensures InBounds(SourceMap, 8, 8) && IsOpen(SourceMap, 8, 8)
  {
  }
}
