# Terminal raycaster: a verified model of the renderer and the moves

The program is a one-file C++ terminal raycaster (`src/main.cpp`). The player stands
on a 16 by 16 tile map of walls (`'1'`) and floor (`'.'`). Every frame, one ray per
screen column is cast. Each ray walks the map cell by cell (a digital differential
analyser, "DDA") until it reaches a wall or leaves the map. The perpendicular
distance to the wall gives the column a slice height and a glyph. A darker glyph
is used where the ray last crossed a horizontal grid line (`side == 1`). The slice
and a two-band floor are written into a flat `screenW * screenH` character buffer.
A status line is then copied over the start of that buffer. Between frames, the
commands `w` and `s` move the player forward or backward, but only onto floor cells.

The model has six modules:

- `Grid` covers the map queries and C++ `int()` truncation. It also holds the
  shipped map, proved walled all round.
- `Dda` covers the ray set-up and the walk, in two forms:
  - a functional specification: `Advance` is one iteration, `Path` is the sequence
    of states the walk passes through, and `Cast` is the state it ends in;
  - the imperative loop `Walk`, proved equal to that specification.

  It also covers the perpendicular wall distance, with IEEE division by a zero
  ray component modelled as `PosInfinity`.
- `Shading` covers the distance tiers and the darkening table.
- `Column` covers the line height, the truncating half used for the draw range,
  the clamp, and the floor band.
- `Frame` covers the buffer. It is a class over an `array<char>` whose methods
  clear it, draw one column, overlay the status line, and render a whole frame.
  `Render` is specified cell by cell.
- `Player` covers the pose as a class with the two collision-checked moves.

Screen width and height are fields of `Frame.Screen` (the program uses 120 by 40).
The map is a parameter; the program's own map is `Grid.SourceMap`.

On a bounds exit the code stores a `1e30` sentinel into `perpWallDist`
(src/main.cpp:89), as if for an infinite-distance miss, but the side formula at
src/main.cpp:95-98 always overwrites it, so a column whose ray left the map is
drawn with the formula's distance. The model follows the code: `Dda.CastRay`
yields `WallDistance` for every exit, and `Dda.WalledMapStopsAtWall` proves that
on a map walled all round, such as the shipped one, that exit is never taken.

## Model

| member | source | states |
|---|---|---|
| Grid.Trunc | src/main.cpp:49-50 | `int()` truncates toward zero: the floor for non-negative values and the ceiling for non-positive ones |
| Grid.OpenCellIsInterior | src/main.cpp:13-28 | on a map with no open edge cell, any position standing on an open cell is at least one cell inside the edge, with both coordinates at least 1 |
| Grid.SourceMapIsFramed | src/main.cpp:12-31 | the shipped map is rectangular, 16 by 16, all its edge cells are walls, and the start cell (8, 8) is open |
| Dda.StepSign | src/main.cpp:62-75 | the step is -1 exactly when the ray component is negative, and +1 exactly when it is not |
| Dda.DeltaDist | src/main.cpp:54-55 | the step length is positive; it is the reciprocal of the component's magnitude, or the 1e30 sentinel for a zero component |
| Dda.InitialSideDist | src/main.cpp:62-75 | from a non-negative position truncated to its cell, the first side distance lies between zero and one step length |
| Dda.Setup | src/main.cpp:54-75 | the ray constants keep the position and direction, and their step signs and step lengths are well formed |
| Dda.Start | src/main.cpp:49-75 | the walk starts in the truncated player cell with side 0; its side distances equal the gap to the next grid line times the step length, and are non-negative from a non-negative position |
| Dda.Advance | src/main.cpp:78-86 | one iteration moves exactly one axis by its step, grows that axis's side distance by its step length, leaves the other axis alone, and sets side to 0 for x or 1 for y, x being chosen exactly when its side distance is strictly smaller |
| Dda.AdvanceKeepsSideDists | src/main.cpp:78-86 | an iteration keeps each side distance equal to the scaled gap to the grid line beyond the new cell |
| Dda.AdvanceShrinksRemaining | src/main.cpp:77-93 | from an in-bounds cell, an iteration uses up exactly one of the cells remaining to the edge in the step directions, so the loop terminates |
| Dda.Path | src/main.cpp:77-93 | the walk's states follow one another by single iterations; every state but the last is in bounds and not a wall, and the last is out of bounds or a wall; there are fewer iterations than cells to the edge; every state lies ahead of the start in the step directions; the side distances stay consistent |
| Dda.Cast | src/main.cpp:77-93 | the walk ends out of bounds or on a wall, strictly ahead of the start on the axis crossed last |
| Dda.CastUnfold | src/main.cpp:77-93 | the end state is the first advance when that one stops the walk, and otherwise the end state of the walk from there |
| Dda.WalledMapStopsAtWall | src/main.cpp:87-92 | on a map walled all round, a walk from a non-wall cell ends on a wall inside the map, so the bounds exit is never taken |
| Dda.CastFrom | src/main.cpp:49-93 | the ray from the player position ends out of bounds or on a wall |
| Dda.WallDistanceNonNegative | src/main.cpp:95-98 | from a non-negative position the perpendicular distance is never negative, and a zero ray component gives +infinity only with a positive numerator, as IEEE division does |
| Dda.AxisDistanceSign | src/main.cpp:95-98 | on one axis, a hit cell strictly beyond the player's cell in the step direction gives a non-negative quotient, or a positive numerator over zero |
| Dda.WallDistanceIsSideDistLessDelta | src/main.cpp:95-98 | for a non-zero component of the axis crossed last, the perpendicular distance equals that axis's side distance less one step length |
| Dda.AxisIdentity | src/main.cpp:95-98 | on one axis, the distance formula equals the side distance less the step length |
| Dda.Walk | src/main.cpp:77-93 | the imperative loop ends in exactly the state the functional walk specifies |
| Dda.CastRay | src/main.cpp:49-98 | one ray cast yields the specified end state of the walk, which stops the walk, and the perpendicular distance computed from the axis crossed last |
| Shading.Shade | src/main.cpp:107-112 | each glyph is drawn exactly on its distance tier: '#' up to 1, 'X' below 2, 'x' below 3, '.' below 5, and ' ' at 5 or more or at infinity |
| Shading.ShadeMonotone | src/main.cpp:107-112 | a farther wall never gets a nearer tier's glyph |
| Shading.Darken | src/main.cpp:114-118 | with side 1, '#' becomes 'M', 'X' becomes 'x' and 'x' becomes '-', and the other glyphs are kept; any other side keeps the glyph |
| Shading.WallGlyph | src/main.cpp:107-118 | every wall glyph is one of "#Xx. M-" |
| Shading.OnlyNearYSideIsM | src/main.cpp:107-118 | 'M' is drawn exactly for a side-1 hit at distance at most 1 |
| Shading.SideSelectsTable | src/main.cpp:107-118 | side-0 hits use the undarkened tiers; side-1 hits use only "Mx-. "; '-' appears exactly for side-1 hits at distance in [2, 3) |
| Column.TruncDiv | src/main.cpp:102 | C++ division truncates toward zero: the remainder has the sign of the dividend and is smaller than the divisor |
| Column.TruncHalfOfNegated | src/main.cpp:102 | `-lineHeight / 2` is the negated half of the line height, one more than the Euclidean quotient when the height is odd |
| Column.LineHeight | src/main.cpp:100 | for a positive distance, the line height is the integer part of the screen height over the distance; it is the full height for a non-positive distance and 0 for an infinite one |
| Column.UnitDistanceFillsScreen | src/main.cpp:100 | a wall at distance 1 gets exactly the screen height |
| Column.LineHeightAntitone | src/main.cpp:100 | a farther wall never gets a taller slice |
| Column.DrawRange | src/main.cpp:102-105 | after clamping, 0 <= drawStart <= screenH/2 <= drawEnd <= screenH-1; each end is clamped exactly when the half height reaches past it, and otherwise lies half the line height from the centre row |
| Column.DrawRangeGrows | src/main.cpp:102-105 | a taller slice covers every row a shorter one covers |
| Column.FloorGlyph | src/main.cpp:125 | the floor glyph is ',' exactly on rows strictly beyond three quarters of the screen height, and ' ' elsewhere |
| Frame.CameraX | src/main.cpp:45 | every column's camera offset lies in [-1, 1), and the middle column of an even width gets 0 |
| Frame.RayDir | src/main.cpp:46-47 | the middle column casts exactly along the facing direction |
| Frame.PlanOf | src/main.cpp:100-118 | every planned slice satisfies the clamp and uses one of the seven wall glyphs |
| Frame.CastColumn | src/main.cpp:45-118 | the line height and glyph computed for column x draw exactly the column the specification plans for it |
| Frame.Screen.Index | src/main.cpp:121 | every cell of the screen has an index inside the buffer; row 0 is the buffer's start, and later rows come after it |
| Frame.Screen.constructor | src/main.cpp:40 | the new buffer has width times height cells, all blank |
| Frame.Screen.Clear | src/main.cpp:43 | every cell of the buffer is blank afterwards |
| Frame.Screen.DrawColumn | src/main.cpp:120-126 | in column x, rows drawStart to drawEnd hold the glyph and rows below hold the floor band; rows above drawStart and every other column keep their contents |
| Frame.Screen.OverlayHud | src/main.cpp:133-134 | index i holds the status line's character for i < min(len, width); every other index is unchanged |
| Frame.Screen.Render | src/main.cpp:42-134 | after a frame, each cell is the status line's character where it reaches on row 0; otherwise it is blank above column x's slice, the glyph on it, or the floor band below it, as cast from the pose |
| Player.TargetInBounds | src/main.cpp:152-159 | from an open cell of a framed map, a move shorter than a cell per axis indexes a cell inside the map with positive coordinates |
| Player.Moved | src/main.cpp:155 | the position becomes the target exactly when the target cell is '.', and otherwise stays |
| Player.MovedKeepsStanding | src/main.cpp:152-159 | a player on an open cell is still on one after any move |
| Player.ForwardThenBackward | src/main.cpp:152-159 | a forward move that was taken is exactly undone by the backward move after it |
| Player.BlockedMoveIsNoOp | src/main.cpp:155 | a move towards a wall leaves the position unchanged |
| Player.Player.constructor | src/main.cpp:36-38 | the starting pose is (8, 8), facing (-1, 0) with plane (0, 0.66), and it meets the move invariant on the shipped map |
| Player.Player.MoveForward | src/main.cpp:152-155 | the `w` command commits the forward target exactly when its cell is '.', keeps direction and plane, and keeps the player on an open cell |
| Player.Player.MoveBackward | src/main.cpp:156-159 | the `s` command commits the backward target exactly when its cell is '.', keeps direction and plane, and keeps the player on an open cell |

## Left out

- Terminal output is not modelled: the clear-screen escape and printing the buffer row by row (src/main.cpp:136-139). `Frame.Screen.Render` ends with the finished buffer.
- The command prompt, reading a command, and quitting on `q`, `Q` or end of input are not modelled (src/main.cpp:144-147).
- Building the status line text with two-decimal formatting is not modelled (src/main.cpp:129-132). `hud` is an arbitrary string parameter.
- Rotation with `a` and `d` is not modelled (src/main.cpp:160-173). It is floating-point trigonometry with no exact invariant.
- Doubles are modelled as exact reals. The positions `px`/`py`, the move targets `nx`/`ny`, `deltaDist`, `sideDist`, `perpWallDist` and `lineHeight` are exact real values, not IEEE-rounded ones. A negative zero ray component, which IEEE divides to -infinity, is not distinguished from zero.
- Player.ForwardThenBackward: relies on `x + dx - dx == x`, which holds over exact reals but not always for IEEE doubles (for example once a rotation has made the direction inexact), so the source's backward move may not land exactly on the start.
- Column.LineHeight: does not model the undefined behaviour of `int()` on a quotient beyond the `int` range, which happens for a distance smaller than screenH / 2^31.
- Dda.CastRay: the `1e30` store into `perpWallDist` on the bounds exit (src/main.cpp:89) is not a statement of the model, because lines 95-98 always overwrite it before it is read.
- Player.Player.MoveForward and Player.Player.MoveBackward require three things the source does not check. The map has no open edge cell. The player stands on an open cell. One step is shorter than a cell on each axis. Without these, the source indexes the map unchecked, and the model proves the index is in bounds under them. The starting pose meets them on the shipped map.
- The map literal is a parameter of every operation. The shipped map appears only as `Grid.SourceMap`, to show that it meets the preconditions.
