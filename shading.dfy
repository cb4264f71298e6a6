/** The glyph a wall slice is drawn with: a five-tier lookup on the
    perpendicular distance, then a darker variant for walls whose last
    crossing was along the y axis. */
module Shading {
  import opened Dda

  /** The distance tiers of src/main.cpp:107-112, nearest to farthest. */
  function Shade(d: Distance): (c: char)
    ensures c == '#' <==> d.Finite? && d.value <= 1.0
    ensures c == 'X' <==> d.Finite? && 1.0 < d.value < 2.0
    ensures c == 'x' <==> d.Finite? && 2.0 <= d.value < 3.0
    ensures c == '.' <==> d.Finite? && 3.0 <= d.value < 5.0
    ensures c == ' ' <==> d.PosInfinity? || d.value >= 5.0
  {
    match d
    case PosInfinity => ' '
    case Finite(v) =>
      if v <= 1.0 then '#'
      else if v < 2.0 then 'X'
      else if v < 3.0 then 'x'
      else if v < 5.0 then '.'
      else ' '
  }

  /** The position of a distance glyph in the tier order, 0 for the nearest. */
  function Tier(c: char): nat
  {
    match c
    case '#' => 0
    case 'X' => 1
    case 'x' => 2
    case '.' => 3
    case _ => 4
  }

  /** A farther wall is never drawn with a nearer tier's glyph. */
  lemma ShadeMonotone(d1: Distance, d2: Distance)
    requires d1.Finite? && (d2.PosInfinity? || d1.value <= d2.value)
    ensures Tier(Shade(d1)) <= Tier(Shade(d2))
  {
  }

  /** The darkening of src/main.cpp:114-118: with `side == 1` each of the three
      nearest tiers drops to a darker glyph ('#' to 'M', 'X' to 'x', 'x' to '-'), the two farthest stay; with any
      other side the glyph is unchanged. */
  function Darken(shade: char, side: int): (c: char)
    ensures side != 1 ==> c == shade
    ensures side == 1 && shade !in "#Xx" ==> c == shade
    ensures side == 1 ==> (shade == '#' ==> c == 'M') && (shade == 'X' ==> c == 'x') && (shade == 'x' ==> c == '-')
  {
    if side == 1 then
      if shade == '#' then 'M'
      else if shade == 'X' then 'x'
      else if shade == 'x' then '-'
      else shade
    else shade
  }

  /** The glyph of a wall slice at distance `d` whose last crossing was on `side`. */
  function WallGlyph(d: Distance, side: int): (c: char)
    ensures c in "#Xx. M-"
  {
    Darken(Shade(d), side)
  }

  /** 'M' is drawn only for a y-side hit at distance at most one, and always then. */
  lemma {:induction false} OnlyNearYSideIsM(d: Distance, side: int)
    ensures WallGlyph(d, side) == 'M' <==> side == 1 && d.Finite? && d.value <= 1.0
  {
    if side == 1 {
      assert Shade(d) != 'M';
    }
  }

  /** An x-side hit is drawn with the undarkened tier glyph; a y-side hit maps
      each tier to its darker glyph, so '-' appears only for y-side hits. */
  lemma {:induction false} SideSelectsTable(d: Distance, side: int)
    ensures side != 1 ==> WallGlyph(d, side) == Shade(d) && WallGlyph(d, side) in "#Xx. "
    ensures side == 1 ==> WallGlyph(d, side) in "Mx-. "
    ensures WallGlyph(d, side) == '-' <==> side == 1 && d.Finite? && 2.0 <= d.value < 3.0
  {
    if side == 1 {
      assert Shade(d) != '-';
    }
  }
}
