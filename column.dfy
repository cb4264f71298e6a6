/** The vertical extent of one column's wall slice and the floor pattern below it. */
module Column {
  import opened Dda

  /** C++ integer division, which truncates toward zero. */
  function TruncDiv(a: int, b: int): (q: int)
    requires b > 0
    ensures a >= 0 ==> 0 <= a - q * b < b
    ensures a < 0 ==> -b < a - q * b <= 0
  {
    if a >= 0 then a / b else -((-a) / b)
  }

  /** For the negated non-negative `lineHeight`, truncating halving is the negated
      Euclidean half, and differs from Dafny's `/` on every odd height. */
  lemma {:induction false} TruncHalfOfNegated(n: nat)
    ensures TruncDiv(-(n as int), 2) == -(n / 2)
    ensures n % 2 == 1 ==> (-(n as int)) / 2 == TruncDiv(-(n as int), 2) - 1
  {
  }

  /** `lineHeight` (src/main.cpp:100): the screen height over the distance,
      truncated, for a positive distance; the full height for zero or a negative
      distance; zero for an infinite one. */
  function LineHeight(d: Distance, screenH: nat): (h: nat)
    ensures d.Finite? && d.value > 0.0 ==>
              h as real <= screenH as real / d.value < h as real + 1.0
    ensures d.Finite? && d.value <= 0.0 ==> h == screenH
    ensures d.PosInfinity? ==> h == 0
  {
    match d
    case PosInfinity => 0
    case Finite(v) =>
      if v > 0.0 then
        DivAntitone(screenH as real, v, v);
        (screenH as real / v).Floor
      else screenH
  }

  /** Dividing a non-negative height by a larger distance gives a smaller quotient. */
  lemma DivAntitone(a: real, v1: real, v2: real)
    requires a >= 0.0 && 0.0 < v1 <= v2
    ensures 0.0 <= a / v2 <= a / v1
  {
    var q1, q2 := a / v1, a / v2;
    assert q1 * v1 == a && q2 * v2 == a;
    if q2 > q1 {
      assert q2 * v2 >= q2 * v1 by { assert q2 * v2 - q2 * v1 == q2 * (v2 - v1); }
      assert q2 * v1 > q1 * v1 by { assert q2 * v1 - q1 * v1 == (q2 - q1) * v1; }
    }
  }

  /** A wall one cell away fills exactly the screen height. */
  lemma {:induction false} UnitDistanceFillsScreen(screenH: nat)
    ensures LineHeight(Finite(1.0), screenH) == screenH
  {
    assert screenH as real / 1.0 == screenH as real;
  }

  /** A farther wall never gets a taller slice. */
  lemma {:induction false} LineHeightAntitone(v1: real, v2: real, screenH: nat)
    requires 0.0 < v1 <= v2
    ensures LineHeight(Finite(v2), screenH) <= LineHeight(Finite(v1), screenH)
  {
    DivAntitone(screenH as real, v1, v2);
  }

  /** `drawStart`/`drawEnd` (src/main.cpp:102-105): the slice is centred on row
      `screenH / 2`, half the line height above and below it (the upper half
      halved by truncating division), clamped to the rows of the screen. */
  function DrawRange(lineHeight: nat, screenH: nat): (r: (int, int))
    requires screenH >= 1
    ensures 0 <= r.0 <= screenH / 2 <= r.1 <= screenH - 1
    ensures r.0 == 0 <==> lineHeight / 2 >= screenH / 2
    ensures r.0 > 0 ==> screenH / 2 - r.0 == lineHeight / 2
    ensures r.1 == screenH - 1 <==> lineHeight / 2 + screenH / 2 >= screenH - 1
    ensures r.1 < screenH - 1 ==> r.1 - screenH / 2 == lineHeight / 2
  {
    TruncHalfOfNegated(lineHeight);
    var drawStart := TruncDiv(-(lineHeight as int), 2) + screenH / 2;
    var drawEnd := lineHeight / 2 + screenH / 2;
    (if drawStart < 0 then 0 else drawStart, if drawEnd >= screenH then screenH - 1 else drawEnd)
  }

  /** A taller slice covers every row a shorter one covers. */
  lemma {:induction false} DrawRangeGrows(h1: nat, h2: nat, screenH: nat)
    requires screenH >= 1 && h1 <= h2
    ensures DrawRange(h2, screenH).0 <= DrawRange(h1, screenH).0
    ensures DrawRange(h1, screenH).1 <= DrawRange(h2, screenH).1
  {
    assert h1 / 2 <= h2 / 2;
  }

  /** The floor glyph of row y (src/main.cpp:125): ',' strictly below three
      quarters of the screen height, a blank above. */
  function FloorGlyph(screenH: nat, y: int): (c: char)
    ensures c == ',' <==> 4 * y > 3 * screenH
    ensures c == ' ' <==> 4 * y <= 3 * screenH
  {
    if y as real > screenH as real * 0.75 then ',' else ' '
  }

  /** What row y of a column holds once the column is drawn on a cleared screen:
      blank above the slice, the wall glyph on it, the floor pattern below it. */
  function ColumnCell(screenH: nat, drawStart: int, drawEnd: int, glyph: char, y: int): char
  {
    if y < drawStart then ' '
    else if y <= drawEnd then glyph
    else FloorGlyph(screenH, y)
  }
}
