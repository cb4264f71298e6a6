/** The player's pose and the collision-checked forward and backward moves of
    the command loop (src/main.cpp:36-38, 149-159). */
module Player {
  import opened Grid

  /** The distance one `w` or `s` command moves along the facing direction. */
  const MoveSpeed: real := 0.25

  /** Position, facing direction and camera plane, as one value. */
  datatype Pose = Pose(px: real, py: real, dirX: real, dirY: real, planeX: real, planeY: real)

  /** The position stands on an open cell of the map. */
  predicate Standing(grid: seq<string>, x: real, y: real)
    requires Rectangular(grid)
  {
    InBounds(grid, Trunc(x), Trunc(y)) && IsOpen(grid, Trunc(x), Trunc(y))
  }

  /** A move whose offset is under one cell on each axis. */
  predicate ShortStep(dx: real, dy: real)
  {
    -1.0 < dx < 1.0 && -1.0 < dy < 1.0
  }

  /** From an open cell of a framed map, a step shorter than one cell on each
      axis lands on a cell inside the map: the cell test of a move never indexes
      outside the rows and columns. */
  lemma {:induction false} TargetInBounds(grid: seq<string>, x: real, y: real, dx: real, dy: real)
    requires Rectangular(grid) && Framed(grid) && Standing(grid, x, y) && ShortStep(dx, dy)
    ensures x + dx > 0.0 && y + dy > 0.0
    ensures InBounds(grid, Trunc(x + dx), Trunc(y + dy))
  {
    OpenCellIsInterior(grid, x, y);
    var i, j := Trunc(x), Trunc(y);
    assert i as real <= x < i as real + 1.0;
    assert j as real <= y < j as real + 1.0;
    assert i - 1 <= Trunc(x + dx) <= i + 1;
    assert j - 1 <= Trunc(y + dy) <= j + 1;
  }

  /** The position after a move from (x, y) towards (nx, ny): the target when its
      cell holds '.', otherwise the unchanged start (src/main.cpp:155, 159). */
  function Moved(grid: seq<string>, x: real, y: real, nx: real, ny: real): (r: (real, real))
    requires Rectangular(grid) && InBounds(grid, Trunc(nx), Trunc(ny))
    ensures r == (nx, ny) || r == (x, y)
    ensures IsOpen(grid, Trunc(nx), Trunc(ny)) ==> r == (nx, ny)
    ensures !IsOpen(grid, Trunc(nx), Trunc(ny)) ==> r == (x, y)
  {
    if CellAt(grid, Trunc(nx), Trunc(ny)) == '.' then (nx, ny) else (x, y)
  }

  /** A player standing on an open cell still stands on one after any move. */
  lemma {:induction false} MovedKeepsStanding(grid: seq<string>, x: real, y: real, nx: real, ny: real)
    requires Rectangular(grid) && InBounds(grid, Trunc(nx), Trunc(ny))
    requires Standing(grid, x, y)
    ensures var r := Moved(grid, x, y, nx, ny); Standing(grid, r.0, r.1)
  {
  }

  /** A forward move that was taken is undone exactly by the backward move that
      follows it: the backward target is the original position, whose cell is open. */
  lemma {:induction false} ForwardThenBackward(grid: seq<string>, x: real, y: real, dx: real, dy: real)
    requires Rectangular(grid) && Framed(grid) && Standing(grid, x, y) && ShortStep(dx, dy)
    requires InBounds(grid, Trunc(x + dx), Trunc(y + dy))
    requires Moved(grid, x, y, x + dx, y + dy) == (x + dx, y + dy)
    ensures InBounds(grid, Trunc(x + dx - dx), Trunc(y + dy - dy))
    ensures Moved(grid, x + dx, y + dy, x + dx - dx, y + dy - dy) == (x, y)
  {
    assert x + dx - dx == x && y + dy - dy == y;
  }

  /** A move towards a cell that is not open leaves the position where it was. */
  lemma {:induction false} BlockedMoveIsNoOp(grid: seq<string>, x: real, y: real, nx: real, ny: real)
    requires Rectangular(grid) && InBounds(grid, Trunc(nx), Trunc(ny))
    requires CellAt(grid, Trunc(nx), Trunc(ny)) == '1'
    ensures Moved(grid, x, y, nx, ny) == (x, y)
  {
  }

  /** The mutable pose of the command loop. */
  class Player {
    var px: real
    var py: real
    var dirX: real
    var dirY: real
    var planeX: real
    var planeY: real

    /** The pose the program starts with (src/main.cpp:36-38), which stands on
        an open cell of the shipped map. */
    constructor ()
      ensures Valid(SourceMap)
      ensures px == 8.0 && py == 8.0
      ensures dirX == -1.0 && dirY == 0.0
      ensures planeX == 0.0 && planeY == 0.66
    {
      px, py := 8.0, 8.0;
      dirX, dirY := -1.0, 0.0;
      planeX, planeY := 0.0, 0.66;
      SourceMapIsFramed();
    }

    function Current(): Pose
      reads this
    {
      Pose(px, py, dirX, dirY, planeX, planeY)
    }

    /** What the moves rely on: a framed map, the player on an open cell, and a
        direction short enough that one move spans less than a cell per axis. */
    ghost predicate Valid(grid: seq<string>)
      reads this
    {
      Rectangular(grid) && Framed(grid) && Standing(grid, px, py) &&
      ShortStep(dirX * MoveSpeed, dirY * MoveSpeed)
    }

    /** Command `w` (src/main.cpp:152-155). */
    method MoveForward(grid: seq<string>)
      requires Valid(grid)
      modifies this
      ensures Valid(grid)
      ensures (px, py) == Moved(grid, old(px), old(py), old(px) + old(dirX) * MoveSpeed, old(py) + old(dirY) * MoveSpeed)
      ensures dirX == old(dirX) && dirY == old(dirY) && planeX == old(planeX) && planeY == old(planeY)
    {
      var nx := px + dirX * MoveSpeed;
      var ny := py + dirY * MoveSpeed;
      TargetInBounds(grid, px, py, dirX * MoveSpeed, dirY * MoveSpeed);
      MovedKeepsStanding(grid, px, py, nx, ny);
      if grid[Trunc(ny)][Trunc(nx)] == '.' {
        px := nx;
        py := ny;
      }
    }

    /** Command `s` (src/main.cpp:156-159). */
    method MoveBackward(grid: seq<string>)
      requires Valid(grid)
      modifies this
      ensures Valid(grid)
      ensures (px, py) == Moved(grid, old(px), old(py), old(px) - old(dirX) * MoveSpeed, old(py) - old(dirY) * MoveSpeed)
      ensures dirX == old(dirX) && dirY == old(dirY) && planeX == old(planeX) && planeY == old(planeY)
    {
      var nx := px - dirX * MoveSpeed;
      var ny := py - dirY * MoveSpeed;
      TargetInBounds(grid, px, py, -(dirX * MoveSpeed), -(dirY * MoveSpeed));
      MovedKeepsStanding(grid, px, py, nx, ny);
      if grid[Trunc(ny)][Trunc(nx)] == '.' {
        px := nx;
        py := ny;
      }
    }
  }
}
