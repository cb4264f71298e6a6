/** One ray of the renderer: the set-up of step signs and step lengths, the
    grid walk (digital differential analyser) from the player's cell to the
    first wall or out of the map, and the perpendicular wall distance. */
module Dda {
  import opened Grid

  /** Stand-in for an infinite step length on an axis the ray does not move along. */
  const Huge: real := 1e30

  /** A value of `perpWallDist`: a finite real, or the +infinity that IEEE division
      gives for a positive numerator over a zero ray component. */
  datatype Distance = Finite(value: real) | PosInfinity

  /** What is fixed before the walk starts: the player position, the ray
      direction, the step sign and the step length along each axis. */
  datatype Ray = Ray(px: real, py: real, rayDirX: real, rayDirY: real,
                     stepX: int, stepY: int, deltaDistX: real, deltaDistY: real)

  /** The variables the walk updates: the current cell, the ray length at the
      next vertical and horizontal grid line, and the axis crossed last
      (0 for a step in x, 1 for a step in y). */
  datatype Walker = Walker(mapX: int, mapY: int, sideDistX: real, sideDistY: real, side: int)

  function Abs(v: real): (r: real)
    ensures r >= 0.0 && (r == v || r == -v)
  {
    if v < 0.0 then -v else v
  }

  /** `stepX`/`stepY`: -1 exactly for a negative ray component, otherwise +1. */
  function StepSign(rayDir: real): (step: int)
    ensures step == -1 <==> rayDir < 0.0
    ensures step == 1 <==> rayDir >= 0.0
  {
    if rayDir < 0.0 then -1 else 1
  }

  /** `deltaDistX`/`deltaDistY`: the ray length between two successive grid
      lines of one axis, with the sentinel for a component that is exactly zero. */
  function DeltaDist(rayDir: real): (d: real)
    ensures d > 0.0
    ensures rayDir != 0.0 ==> d * Abs(rayDir) == 1.0
    ensures rayDir == 0.0 ==> d == Huge
  {
    if rayDir == 0.0 then Huge else Abs(1.0 / rayDir)
  }

  /** The distance from the position to the next grid line in the step direction,
      measured in cells along the axis. */
  function Gap(p: real, cell: int, rayDir: real): real
  {
    if rayDir < 0.0 then p - cell as real else cell as real + 1.0 - p
  }

  /** `sideDistX`/`sideDistY` before the first step: the ray length to the first
      grid line crossed. From a non-negative position truncated to its cell it
      lies between zero and one whole step length. */
  function InitialSideDist(p: real, cell: int, rayDir: real, delta: real): (d: real)
    requires delta >= 0.0
    ensures p >= 0.0 && cell == Trunc(p) ==> 0.0 <= d <= delta
  {
    var g := Gap(p, cell, rayDir);
    assert p >= 0.0 && cell == Trunc(p) ==> 0.0 <= g <= 1.0;
    MulBounds(g, delta);
    g * delta
  }

  lemma MulBounds(g: real, d: real)
    requires d >= 0.0
    ensures 0.0 <= g <= 1.0 ==> 0.0 <= g * d <= d
  {
    if 0.0 <= g <= 1.0 {
      assert d - g * d == (1.0 - g) * d;
    }
  }

  /** The ray constants for a player at (px, py) casting along (rayDirX, rayDirY). */
  function Setup(px: real, py: real, rayDirX: real, rayDirY: real): (ray: Ray)
    ensures WellFormed(ray)
    ensures ray.px == px && ray.py == py && ray.rayDirX == rayDirX && ray.rayDirY == rayDirY
  {
    Ray(px, py, rayDirX, rayDirY, StepSign(rayDirX), StepSign(rayDirY), DeltaDist(rayDirX), DeltaDist(rayDirY))
  }

  predicate WellFormed(ray: Ray)
  {
    ray.stepX == StepSign(ray.rayDirX) && ray.stepY == StepSign(ray.rayDirY) &&
    ray.deltaDistX > 0.0 && ray.deltaDistY > 0.0
  }

  /** The walk's state before its first step: the truncated player cell, and `side` 0. */
  function Start(ray: Ray): (w: Walker)
    requires WellFormed(ray)
    ensures w.mapX == Trunc(ray.px) && w.mapY == Trunc(ray.py) && w.side == 0
    ensures SideDistsMatch(ray, w)
    ensures ray.px >= 0.0 && ray.py >= 0.0 ==>
              0.0 <= w.sideDistX <= ray.deltaDistX && 0.0 <= w.sideDistY <= ray.deltaDistY
  {
    var mapX, mapY := Trunc(ray.px), Trunc(ray.py);
    Walker(mapX, mapY,
           InitialSideDist(ray.px, mapX, ray.rayDirX, ray.deltaDistX),
           InitialSideDist(ray.py, mapY, ray.rayDirY, ray.deltaDistY), 0)
  }

  /** The accumulated side distances are the distances from the position to the
      grid lines just beyond the current cell, scaled by the step lengths. */
  predicate SideDistsMatch(ray: Ray, w: Walker)
  {
    AxisMatches(ray.px, w.mapX, ray.rayDirX, ray.deltaDistX, w.sideDistX) &&
    AxisMatches(ray.py, w.mapY, ray.rayDirY, ray.deltaDistY, w.sideDistY)
  }

  /** On one axis: the side distance is the gap to the next grid line times the step length. */
  predicate AxisMatches(p: real, cell: int, rayDir: real, delta: real, sideDist: real)
  {
    sideDist == Gap(p, cell, rayDir) * delta
  }

  /** One iteration of the walk: advance on the axis whose next grid line is
      strictly nearer (x), or else on y, by one cell in that axis's step
      direction; that axis's side distance grows by its step length, the other
      axis is untouched, and `side` records the axis that moved. */
  function Advance(ray: Ray, w: Walker): (r: Walker)
    ensures r.side == 0 || r.side == 1
    ensures (r.side == 0) == (w.sideDistX < w.sideDistY)
    ensures r.side == 0 ==> r.mapX - w.mapX == ray.stepX && r.mapY == w.mapY &&
                            r.sideDistX - w.sideDistX == ray.deltaDistX && r.sideDistY == w.sideDistY
    ensures r.side == 1 ==> r.mapY - w.mapY == ray.stepY && r.mapX == w.mapX &&
                            r.sideDistY - w.sideDistY == ray.deltaDistY && r.sideDistX == w.sideDistX
  {
    if w.sideDistX < w.sideDistY then
      Walker(w.mapX + ray.stepX, w.mapY, w.sideDistX + ray.deltaDistX, w.sideDistY, 0)
    else
      Walker(w.mapX, w.mapY + ray.stepY, w.sideDistX, w.sideDistY + ray.deltaDistY, 1)
  }

  /** An iteration leaves the side distances consistent with the new cell. */
  lemma {:induction false} AdvanceKeepsSideDists(ray: Ray, w: Walker)
    requires WellFormed(ray)
    ensures SideDistsMatch(ray, w) ==> SideDistsMatch(ray, Advance(ray, w))
  {
    var r := Advance(ray, w);
    if !SideDistsMatch(ray, w) {
    } else if r.side == 0 {
      var g := Gap(ray.px, w.mapX, ray.rayDirX);
      assert Gap(ray.px, r.mapX, ray.rayDirX) == g + 1.0;
      assert (g + 1.0) * ray.deltaDistX == g * ray.deltaDistX + ray.deltaDistX;
    } else {
      var g := Gap(ray.py, w.mapY, ray.rayDirY);
      assert Gap(ray.py, r.mapY, ray.rayDirY) == g + 1.0;
      assert (g + 1.0) * ray.deltaDistY == g * ray.deltaDistY + ray.deltaDistY;
    }
  }

  /** The termination measure of the walk: the cells left between the current
      cell and the map edge, in each axis's step direction. */
  function Remaining(grid: seq<string>, ray: Ray, w: Walker): int
    requires Rectangular(grid)
  {
    (if ray.stepX > 0 then Width(grid) - w.mapX else w.mapX + 1) +
    (if ray.stepY > 0 then Height(grid) - w.mapY else w.mapY + 1)
  }

  /** Every iteration uses up exactly one of the remaining cells. */
  lemma AdvanceShrinksRemaining(grid: seq<string>, ray: Ray, w: Walker)
    requires Rectangular(grid) && WellFormed(ray) && InBounds(grid, w.mapX, w.mapY)
    ensures Remaining(grid, ray, w) >= 2
    ensures Remaining(grid, ray, Advance(ray, w)) == Remaining(grid, ray, w) - 1
    ensures Remaining(grid, ray, Advance(ray, w)) >= 1
  {
  }

  /** The walk's exit test (src/main.cpp:87-92): out of the map, or on a '1'. */
  predicate Stops(grid: seq<string>, w: Walker)
    requires Rectangular(grid)
  {
    !InBounds(grid, w.mapX, w.mapY) || IsWall(grid, w.mapX, w.mapY)
  }

  /** The cell of `w` lies in the step direction of `o` (or level with it) on both axes. */
  predicate Ahead(ray: Ray, o: Walker, w: Walker)
  {
    (if ray.stepX > 0 then w.mapX >= o.mapX else w.mapX <= o.mapX) &&
    (if ray.stepY > 0 then w.mapY >= o.mapY else w.mapY <= o.mapY)
  }

  /** `w` is ahead of `o`, and strictly ahead on the axis it crossed last. */
  predicate StrictlyAhead(ray: Ray, o: Walker, w: Walker)
  {
    Ahead(ray, o, w) &&
    if w.side == 0 then w.mapX != o.mapX else w.side == 1 && w.mapY != o.mapY
  }

  /** The states the walk passes through, after each iteration, starting from `w`.
      Every state but the last is an in-bounds non-wall cell; the last one stops
      the walk; each follows from the one before by one iteration; the number of
      iterations is below the cells remaining to the edge; every state lies ahead
      of `w` in the step directions; and the side distances stay consistent. */
  function Path(grid: seq<string>, ray: Ray, w: Walker): (p: seq<Walker>)
    requires Rectangular(grid) && WellFormed(ray) && InBounds(grid, w.mapX, w.mapY)
    ensures |p| >= 1 && p[0] == Advance(ray, w)
    ensures forall i :: 0 <= i < |p| - 1 ==> Advance(ray, p[i]) == p[i + 1]
    ensures forall i :: 0 <= i < |p| - 1 ==>
              InBounds(grid, p[i].mapX, p[i].mapY) && !IsWall(grid, p[i].mapX, p[i].mapY)
    ensures Stops(grid, p[|p| - 1])
    ensures |p| < Remaining(grid, ray, w)
    ensures forall i :: 0 <= i < |p| ==> StrictlyAhead(ray, w, p[i])
    ensures SideDistsMatch(ray, w) ==> forall i :: 0 <= i < |p| ==> SideDistsMatch(ray, p[i])
    decreases Remaining(grid, ray, w)
  {
    AdvanceShrinksRemaining(grid, ray, w);
    var n := Advance(ray, w);
    AdvanceKeepsSideDists(ray, w);
    if Stops(grid, n) then [n] else [n] + Path(grid, ray, n)
  }

  /** The state the walk ends in. */
  function Cast(grid: seq<string>, ray: Ray, w: Walker): (r: Walker)
    requires Rectangular(grid) && WellFormed(ray) && InBounds(grid, w.mapX, w.mapY)
    ensures Stops(grid, r)
    ensures StrictlyAhead(ray, w, r)
    ensures SideDistsMatch(ray, w) ==> SideDistsMatch(ray, r)
  {
    var p := Path(grid, ray, w);
    p[|p| - 1]
  }

  /** Unfolding the walk by one iteration. */
  lemma {:induction false} CastUnfold(grid: seq<string>, ray: Ray, w: Walker)
    requires Rectangular(grid) && WellFormed(ray) && InBounds(grid, w.mapX, w.mapY)
    ensures Stops(grid, Advance(ray, w)) ==> Cast(grid, ray, w) == Advance(ray, w)
    ensures !Stops(grid, Advance(ray, w)) ==> Cast(grid, ray, w) == Cast(grid, ray, Advance(ray, w))
  {
    var n := Advance(ray, w);
    if !Stops(grid, n) {
      var q := Path(grid, ray, n);
      assert Path(grid, ray, w) == [n] + q;
    }
  }

  /** On a map walled all round, a walk from an in-bounds cell that is not a
      wall ends on a wall inside the map: the out-of-bounds exit (and the
      sentinel distance stored there) is never reached. */
  lemma {:induction false} WalledMapStopsAtWall(grid: seq<string>, ray: Ray, w: Walker)
    requires Rectangular(grid) && Walled(grid) && WellFormed(ray)
    requires InBounds(grid, w.mapX, w.mapY) && !IsWall(grid, w.mapX, w.mapY)
    ensures var hit := Cast(grid, ray, w);
            InBounds(grid, hit.mapX, hit.mapY) && IsWall(grid, hit.mapX, hit.mapY)
    decreases Remaining(grid, ray, w)
  {
    if OnEdge(grid, w.mapX, w.mapY) {
      assert false;
    }
    var n := Advance(ray, w);
    CastUnfold(grid, ray, w);
    AdvanceShrinksRemaining(grid, ray, w);
    assert InBounds(grid, n.mapX, n.mapY);
    if !Stops(grid, n) {
      WalledMapStopsAtWall(grid, ray, n);
    }
  }

  /** The walk of the ray from (px, py) along (rayDirX, rayDirY). */
  function CastFrom(grid: seq<string>, px: real, py: real, rayDirX: real, rayDirY: real): (r: Walker)
    requires Rectangular(grid) && InBounds(grid, Trunc(px), Trunc(py))
    ensures Stops(grid, r)
  {
    var ray := Setup(px, py, rayDirX, rayDirY);
    Cast(grid, ray, Start(ray))
  }

  /** A quotient in the sense of IEEE division by a ray component. */
  function Divide(n: real, d: real): Distance
  {
    if d == 0.0 then PosInfinity else Finite(n / d)
  }

  /** The numerator of `perpWallDist` for the axis crossed last. */
  function WallNumerator(ray: Ray, w: Walker): real
  {
    if w.side == 0 then w.mapX as real - ray.px + (1 - ray.stepX) as real / 2.0
    else w.mapY as real - ray.py + (1 - ray.stepY) as real / 2.0
  }

  /** `perpWallDist` (src/main.cpp:95-98): the distance to the crossed grid line
      projected onto the camera direction. */
  function WallDistance(ray: Ray, w: Walker): Distance
  {
    Divide(WallNumerator(ray, w), if w.side == 0 then ray.rayDirX else ray.rayDirY)
  }

  /** From a non-negative position, the walk's final perpendicular distance is never
      negative, and it is infinite only where the numerator is positive, so the
      model's PosInfinity is exactly IEEE's value of that division. */
  lemma {:induction false} WallDistanceNonNegative(grid: seq<string>, px: real, py: real, rayDirX: real, rayDirY: real)
    requires Rectangular(grid) && InBounds(grid, Trunc(px), Trunc(py))
    requires px >= 0.0 && py >= 0.0
    ensures var hit := CastFrom(grid, px, py, rayDirX, rayDirY);
            SoundQuotient(WallNumerator(Setup(px, py, rayDirX, rayDirY), hit),
                          if hit.side == 0 then rayDirX else rayDirY)
  {
    var ray := Setup(px, py, rayDirX, rayDirY);
    var s := Start(ray);
    var hit := CastFrom(grid, px, py, rayDirX, rayDirY);
    assert hit == Cast(grid, ray, s);
    assert StrictlyAhead(ray, s, hit);
    if hit.side == 0 {
      AxisDistanceSign(px, hit.mapX, rayDirX);
      assert WallNumerator(ray, hit) == hit.mapX as real - px + (1 - StepSign(rayDirX)) as real / 2.0;
      assert SoundQuotient(WallNumerator(ray, hit), rayDirX);
    } else {
      AxisDistanceSign(py, hit.mapY, rayDirY);
      assert WallNumerator(ray, hit) == hit.mapY as real - py + (1 - StepSign(rayDirY)) as real / 2.0;
      assert SoundQuotient(WallNumerator(ray, hit), rayDirY);
    }
  }

  /** The quotient n / d is non-negative, or d is zero and n positive (IEEE +infinity). */
  predicate SoundQuotient(n: real, d: real)
  {
    match Divide(n, d)
    case Finite(v) => v >= 0.0
    case PosInfinity => n > 0.0
  }

  /** On one axis: a cell strictly beyond the player's cell in the step direction
      gives a non-negative quotient, and a positive numerator when the ray
      component is zero. */
  lemma AxisDistanceSign(p: real, cell: int, dir: real)
    requires p >= 0.0
    requires if dir < 0.0 then cell < Trunc(p) else cell > Trunc(p)
    ensures SoundQuotient(cell as real - p + (1 - StepSign(dir)) as real / 2.0, dir)
  {
    var n := cell as real - p + (1 - StepSign(dir)) as real / 2.0;
    if dir < 0.0 {
      assert n <= 0.0;
      NonPositiveOverNegative(n, dir);
    } else {
      assert n > 0.0;
      if dir != 0.0 { PositiveOverPositive(n, dir); }
    }
  }

  lemma NonPositiveOverNegative(n: real, d: real)
    requires n <= 0.0 && d < 0.0
    ensures n / d >= 0.0
  {
    assert n / d == (-n) / (-d);
  }

  lemma PositiveOverPositive(n: real, d: real)
    requires n > 0.0 && d > 0.0
    ensures n / d > 0.0
  {
  }

  /** The textbook identity behind the formula: the perpendicular distance is the
      side distance of the axis crossed last, less one step length of that axis. */
  lemma {:induction false} WallDistanceIsSideDistLessDelta(grid: seq<string>, px: real, py: real, rayDirX: real, rayDirY: real)
    requires Rectangular(grid) && InBounds(grid, Trunc(px), Trunc(py))
    ensures var ray := Setup(px, py, rayDirX, rayDirY);
            var hit := CastFrom(grid, px, py, rayDirX, rayDirY);
            (hit.side == 0 && rayDirX != 0.0 ==>
               WallDistance(ray, hit) == Finite(hit.sideDistX - ray.deltaDistX)) &&
            (hit.side == 1 && rayDirY != 0.0 ==>
               WallDistance(ray, hit) == Finite(hit.sideDistY - ray.deltaDistY))
  {
    var ray := Setup(px, py, rayDirX, rayDirY);
    var hit := CastFrom(grid, px, py, rayDirX, rayDirY);
    assert hit == Cast(grid, ray, Start(ray));
    assert SideDistsMatch(ray, hit);
    if hit.side == 0 && rayDirX != 0.0 {
      AxisIdentity(px, hit.mapX, rayDirX, hit.sideDistX);
      assert WallNumerator(ray, hit) == hit.mapX as real - px + (1 - StepSign(rayDirX)) as real / 2.0;
    } else if hit.side == 1 && rayDirY != 0.0 {
      AxisIdentity(py, hit.mapY, rayDirY, hit.sideDistY);
      assert WallNumerator(ray, hit) == hit.mapY as real - py + (1 - StepSign(rayDirY)) as real / 2.0;
    }
  }

  /** On one axis: (cell - p + (1 - step) / 2) / dir == sideDist - |1 / dir|. */
  lemma AxisIdentity(p: real, cell: int, dir: real, sideDist: real)
    requires dir != 0.0
    requires AxisMatches(p, cell, dir, DeltaDist(dir), sideDist)
    ensures Divide(cell as real - p + (1 - StepSign(dir)) as real / 2.0, dir) == Finite(sideDist - DeltaDist(dir))
  {
    var g := Gap(p, cell, dir);
    if dir < 0.0 {
      assert DeltaDist(dir) == -(1.0 / dir);
      assert (cell as real - p + 1.0) == -(g - 1.0);
      assert (-(g - 1.0)) / dir == (g - 1.0) * -(1.0 / dir);
    } else {
      assert DeltaDist(dir) == 1.0 / dir;
      assert cell as real - p == g - 1.0;
      assert (g - 1.0) / dir == (g - 1.0) * (1.0 / dir);
    }
  }

  /** The per-ray part of the render loop (src/main.cpp:49-98): set up the step
      signs, step lengths and first side distances, walk from the player's cell
      until a wall is reached or the map is left, then compute the perpendicular
      wall distance from the axis crossed last. */
  method CastRay(grid: seq<string>, px: real, py: real, rayDirX: real, rayDirY: real)
    returns (hit: Walker, perpWallDist: Distance)
    requires Rectangular(grid) && InBounds(grid, Trunc(px), Trunc(py))
    ensures hit == CastFrom(grid, px, py, rayDirX, rayDirY)
    ensures Stops(grid, hit)
    ensures perpWallDist == WallDistance(Setup(px, py, rayDirX, rayDirY), hit)
  {
    var ray := Setup(px, py, rayDirX, rayDirY);
    hit := Walk(grid, ray, Start(ray));
    perpWallDist := WallDistance(ray, hit);
  }

  /** The walk itself (src/main.cpp:77-93): step until the cell is a wall or outside the map. */
  method Walk(grid: seq<string>, ray: Ray, start: Walker) returns (hit: Walker)
    requires Rectangular(grid) && WellFormed(ray) && InBounds(grid, start.mapX, start.mapY)
    ensures hit == Cast(grid, ray, start)
  {
    var mapX, mapY, sideDistX, sideDistY, side := start.mapX, start.mapY, start.sideDistX, start.sideDistY, start.side;
    var found := false;
    while !found
      invariant InBounds(grid, mapX, mapY)
      invariant !found ==> Cast(grid, ray, Walker(mapX, mapY, sideDistX, sideDistY, side)) == Cast(grid, ray, start)
      invariant found ==> Walker(mapX, mapY, sideDistX, sideDistY, side) == Cast(grid, ray, start)
      decreases Remaining(grid, ray, Walker(mapX, mapY, sideDistX, sideDistY, side))
    {
      ghost var before := Walker(mapX, mapY, sideDistX, sideDistY, side);
      CastUnfold(grid, ray, before);
      AdvanceShrinksRemaining(grid, ray, before);
      if sideDistX < sideDistY {
        sideDistX := sideDistX + ray.deltaDistX;
        mapX := mapX + ray.stepX;
        side := 0;
      } else {
        sideDistY := sideDistY + ray.deltaDistY;
        mapY := mapY + ray.stepY;
        side := 1;
      }
      assert Walker(mapX, mapY, sideDistX, sideDistY, side) == Advance(ray, before);
      if mapX < 0 || mapX >= Width(grid) || mapY < 0 || mapY >= Height(grid) {
        found := true;
        break;
      }
      if grid[mapY][mapX] == '1' {
        found := true;
      }
    }
    hit := Walker(mapX, mapY, sideDistX, sideDistY, side);
  }
}
