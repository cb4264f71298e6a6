/** The frame renderer (src/main.cpp:40-134): a flat character buffer of
    `width * height` cells, row y and column x at index `y * width + x`,
    cleared and redrawn column by column every frame, with the status line
    written over the start of the first row. */
module Frame {
  import opened Grid
  import opened Dda
  import opened Shading
  import opened Column
  import opened Player

  /** `cameraX` of column x (src/main.cpp:45): -1 at the left edge, rising by
      2 / screenW per column, 0 in the middle column of an even width. */
  function CameraX(x: int, screenW: nat): (c: real)
    requires screenW >= 1
    ensures 0 <= x < screenW ==> -1.0 <= c < 1.0
    ensures 2 * x == screenW ==> c == 0.0
  {
    var c := 2.0 * x as real / screenW as real - 1.0;
    CameraRange(x, screenW);
    c
  }

  lemma CameraRange(x: int, screenW: nat)
    requires screenW >= 1
    ensures 0 <= x < screenW ==> 0.0 <= 2.0 * x as real / screenW as real < 2.0
    ensures 2 * x == screenW ==> 2.0 * x as real / screenW as real == 1.0
  {
    var w := screenW as real;
    var q := 2.0 * x as real / w;
    assert q * w == 2.0 * x as real;
    if 0 <= x < screenW {
      assert (2.0 - q) * w == 2.0 * (w - x as real);
      FactorSign(2.0 - q, w);
      FactorSign(q, w);
    }
    if 2 * x == screenW {
      assert (q - 1.0) * w == 0.0;
      FactorSign(q - 1.0, w);
      FactorSign(1.0 - q, w);
    }
  }

  /** A product with a positive factor has the sign of the other factor. */
  lemma FactorSign(a: real, b: real)
    requires b > 0.0
    ensures a * b > 0.0 ==> a > 0.0
    ensures a * b >= 0.0 ==> a >= 0.0
  {
  }

  lemma ZeroFactor(a: real, b: real)
    ensures b == 0.0 ==> a * b == 0.0
  {
  }

  lemma MulNonNegative(a: int, b: int)
    requires a >= 0 && b >= 0
    ensures a * b >= 0
  {
  }

  /** Row-major layout: a cell of a w by h grid has an index inside the buffer. */
  lemma RowMajorBound(x: int, y: int, w: int, h: int)
    ensures 0 <= x < w && 0 <= y < h ==> 0 <= y * w + x < w * h
  {
    if 0 <= x < w && 0 <= y < h {
      MulNonNegative(h - 1 - y, w);
      MulNonNegative(y, w);
      assert w * h - (y * w + x) == (h - 1 - y) * w + (w - x);
    }
  }

  /** What one column of the frame shows: the rows its wall slice covers and
      the glyph the slice is drawn with. */
  datatype ColumnPlan = ColumnPlan(drawStart: int, drawEnd: int, glyph: char)

  /** The slice drawn for a wall at distance `d` whose last crossing was on
      `side` (src/main.cpp:100-118). */
  function PlanOf(d: Distance, side: int, screenH: nat): (p: ColumnPlan)
    requires screenH >= 1
    ensures 0 <= p.drawStart <= screenH / 2 <= p.drawEnd <= screenH - 1
    ensures p.glyph in "#Xx. M-"
  {
    var range := DrawRange(LineHeight(d, screenH), screenH);
    ColumnPlan(range.0, range.1, WallGlyph(d, side))
  }

  /** The ray direction at camera offset c: the facing direction plus c times
      the camera plane (src/main.cpp:46-47). */
  function RayDir(pose: Pose, c: real): (r: (real, real))
    ensures c == 0.0 ==> r == (pose.dirX, pose.dirY)
  {
    var rx, ry := pose.dirX + pose.planeX * c, pose.dirY + pose.planeY * c;
    ZeroFactor(pose.planeX, c);
    ZeroFactor(pose.planeY, c);
    assert c == 0.0 ==> rx == pose.dirX && ry == pose.dirY;
    (rx, ry)
  }

  /** The ray of column x for a player at `pose` (src/main.cpp:45-47). */
  function ColumnRay(pose: Pose, screenW: nat, x: int): Ray
    requires screenW >= 1
  {
    var dir := RayDir(pose, CameraX(x, screenW));
    Setup(pose.px, pose.py, dir.0, dir.1)
  }

  /** The column the renderer draws at x for a player at `pose` (src/main.cpp:45-118). */
  function Plan(grid: seq<string>, pose: Pose, screenW: nat, screenH: nat, x: int): (p: ColumnPlan)
    requires Rectangular(grid) && InBounds(grid, Trunc(pose.px), Trunc(pose.py))
    requires screenW >= 1 && screenH >= 1
  {
    var ray := ColumnRay(pose, screenW, x);
    var hit := Cast(grid, ray, Start(ray));
    PlanOf(WallDistance(ray, hit), hit.side, screenH)
  }

  /** One column's ray cast and slice (src/main.cpp:45-118): the line height
      and glyph whose drawing is the planned column. */
  method CastColumn(grid: seq<string>, pose: Pose, screenW: nat, screenH: nat, x: int)
      returns (lineHeight: nat, shade: char)
    requires Rectangular(grid) && InBounds(grid, Trunc(pose.px), Trunc(pose.py))
    requires screenW >= 1 && screenH >= 1
    ensures Plan(grid, pose, screenW, screenH, x) ==
            ColumnPlan(DrawRange(lineHeight, screenH).0, DrawRange(lineHeight, screenH).1, shade)
  {
    var cameraX := CameraX(x, screenW);
    var rayDir := RayDir(pose, cameraX);
    var hit, perpWallDist := CastRay(grid, pose.px, pose.py, rayDir.0, rayDir.1);
    lineHeight := LineHeight(perpWallDist, screenH);
    shade := WallGlyph(perpWallDist, hit.side);
    ghost var ray := ColumnRay(pose, screenW, x);
    assert ray == Setup(pose.px, pose.py, rayDir.0, rayDir.1);
    assert hit == Cast(grid, ray, Start(ray));
    assert perpWallDist == WallDistance(ray, hit);
  }

  /** The rendering loop's state: the character buffer the frame is drawn into. */
  class Screen {
    const width: nat
    const height: nat
    const cells: array<char>

    ghost predicate Valid()
    {
      width >= 1 && height >= 1 && cells.Length == width * height
    }

    /** The buffer index of column x, row y: rows are stored one after another. */
    function Index(x: int, y: int): (i: int)
      ensures 0 <= x < width && 0 <= y < height ==> 0 <= i < width * height
      ensures y == 0 ==> i == x
      ensures 0 <= x && y >= 1 ==> i >= width
    {
      RowMajorBound(x, y, width, height);
      MulNonNegative(if y >= 1 then y - 1 else 0, width);
      y * width + x
    }

    /** A cell on an earlier row comes earlier in the buffer. */
    lemma IndexBelow(x1: int, y1: int, x2: int, y2: int)
      requires 0 <= x1 < width && 0 <= x2 < width && y1 < y2
      ensures Index(x1, y1) < Index(x2, y2)
    {
      MulNonNegative(y2 - y1 - 1, width);
      assert Index(x2, y2) - Index(x1, y1) == (y2 - y1 - 1) * width + (width - x1) + x2;
    }

    /** Writing the cell at (x, y) leaves every other cell where it was. */
    lemma OtherCellsDistinct(x: int, y: int)
      requires 0 <= x < width && 0 <= y < height
      ensures forall x', y' :: 0 <= x' < width && 0 <= y' < height && (x' != x || y' != y) ==>
                Index(x', y') != Index(x, y)
    {
      forall x', y' | 0 <= x' < width && 0 <= y' < height && (x' != x || y' != y)
        ensures Index(x', y') != Index(x, y)
      {
        if y' < y {
          IndexBelow(x', y', x, y);
        } else if y < y' {
          IndexBelow(x, y, x', y');
        }
      }
    }

    /** The buffer as the program creates it: all blanks (src/main.cpp:40). */
    constructor (w: nat, h: nat)
      requires w >= 1 && h >= 1
      ensures Valid() && width == w && height == h && fresh(cells)
      ensures forall i :: 0 <= i < cells.Length ==> cells[i] == ' '
    {
      width, height := w, h;
      cells := new char[w * h](_ => ' ');
    }

    /** `fill` with blanks at the start of every frame (src/main.cpp:43). */
    method Clear()
      requires Valid()
      modifies cells
      ensures forall i :: 0 <= i < cells.Length ==> cells[i] == ' '
    {
      var i := 0;
      while i < cells.Length
        invariant 0 <= i <= cells.Length
        invariant forall k :: 0 <= k < i ==> cells[k] == ' '
      {
        cells[i] := ' ';
        i := i + 1;
      }
    }

    /** Column x of one frame (src/main.cpp:100-105, 120-126): rows drawStart to
        drawEnd get the wall glyph, every row below gets the floor pattern, the
        rows above and every other column keep what they held. */
    method DrawColumn(x: int, lineHeight: nat, shade: char)
      requires Valid() && 0 <= x < width
      modifies cells
      ensures var r := DrawRange(lineHeight, height);
              forall y :: r.0 <= y < height ==> cells[Index(x, y)] == ColumnCell(height, r.0, r.1, shade, y)
      ensures forall y :: 0 <= y < DrawRange(lineHeight, height).0 ==> cells[Index(x, y)] == old(cells[Index(x, y)])
      ensures forall x', y :: 0 <= x' < width && x' != x && 0 <= y < height ==>
                cells[Index(x', y)] == old(cells[Index(x', y)])
    {
      var range := DrawRange(lineHeight, height);
      var drawStart, drawEnd := range.0, range.1;

      var y := drawStart;
      while y <= drawEnd
        invariant drawStart <= y <= drawEnd + 1
        invariant forall y' :: drawStart <= y' < y ==> cells[Index(x, y')] == shade
        invariant forall x', y' :: 0 <= x' < width && 0 <= y' < height && (x' != x || y' < drawStart || y' >= y) ==>
                    cells[Index(x', y')] == old(cells[Index(x', y')])
      {
        OtherCellsDistinct(x, y);
        cells[Index(x, y)] := shade;
        y := y + 1;
      }

      y := drawEnd + 1;
      while y < height
        invariant drawEnd + 1 <= y <= height
        invariant forall y' :: drawStart <= y' <= drawEnd ==> cells[Index(x, y')] == shade
        invariant forall y' :: drawEnd < y' < y ==> cells[Index(x, y')] == FloorGlyph(height, y')
        invariant forall x', y' :: 0 <= x' < width && 0 <= y' < height && (x' != x || y' < drawStart) ==>
                    cells[Index(x', y')] == old(cells[Index(x', y')])
      {
        OtherCellsDistinct(x, y);
        cells[Index(x, y)] := if y as real > height as real * 0.75 then ',' else ' ';
        y := y + 1;
      }
    }

    /** The status line (src/main.cpp:133-134): its first `width` characters at
        most replace the start of the buffer; every other cell is unchanged. */
    method OverlayHud(hud: string)
      requires Valid()
      modifies cells
      ensures forall i :: 0 <= i < cells.Length ==>
                cells[i] == if i < |hud| && i < width then hud[i] else old(cells[i])
    {
      var i := 0;
      while i < |hud| && i < width
        invariant 0 <= i <= width
        invariant i <= |hud|
        invariant forall k :: 0 <= k < cells.Length ==>
                    cells[k] == if k < i then hud[k] else old(cells[k])
      {
        cells[i] := hud[i];
        i := i + 1;
      }
    }

    /** The cell (x, y) of a finished frame: the status line's character on the
        first row where it reaches, otherwise what column x draws in row y. */
    function FrameCell(grid: seq<string>, pose: Pose, hud: string, x: int, y: int): char
      requires Valid() && Rectangular(grid) && InBounds(grid, Trunc(pose.px), Trunc(pose.py))
      requires 0 <= x
    {
      if y == 0 && x < |hud| then hud[x] else PlannedCell(grid, pose, x, y)
    }

    /** One call of the `render` lambda, up to handing the buffer to the terminal:
        clear, draw every column left to right, overlay the status line. */
    method Render(grid: seq<string>, pose: Pose, hud: string)
      requires Valid() && Rectangular(grid) && InBounds(grid, Trunc(pose.px), Trunc(pose.py))
      modifies cells
      ensures forall x, y :: 0 <= x < width && 0 <= y < height ==>
                cells[Index(x, y)] == FrameCell(grid, pose, hud, x, y)
    {
      Clear();
      var x := 0;
      while x < width
        invariant 0 <= x <= width
        invariant forall x', y' :: 0 <= x' < x && 0 <= y' < height ==>
                    cells[Index(x', y')] == PlannedCell(grid, pose, x', y')
        invariant forall x', y' :: x <= x' < width && 0 <= y' < height ==> cells[Index(x', y')] == ' '
      {
        var lineHeight, shade := CastColumn(grid, pose, width, height, x);
        DrawColumn(x, lineHeight, shade);
        x := x + 1;
      }
      ghost var drawn := cells[..];
      OverlayHud(hud);
      forall x', y' | 0 <= x' < width && 0 <= y' < height
        ensures cells[Index(x', y')] == FrameCell(grid, pose, hud, x', y')
      {
        assert drawn[Index(x', y')] == PlannedCell(grid, pose, x', y');
      }
    }

    /** The cell (x, y) as column x leaves it, before the status line is drawn. */
    function PlannedCell(grid: seq<string>, pose: Pose, x: int, y: int): char
      requires Valid() && Rectangular(grid) && InBounds(grid, Trunc(pose.px), Trunc(pose.py))
    {
      var p := Plan(grid, pose, width, height, x);
      ColumnCell(height, p.drawStart, p.drawEnd, p.glyph, y)
    }
  }
}
