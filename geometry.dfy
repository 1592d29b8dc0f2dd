/** Grid coordinates, canvas bounds and the two integer helpers the
    simulation's arithmetic needs: clamping to the horizontal bounds and the
    truncating division behind `int(fall_distance * progress)`. */
module Geometry {

  /** A cell of the canvas. */
  datatype Coord = Coord(column: int, row: int)

  /** The four canvas bounds; they never change during a run. */
  datatype Canvas = Canvas(top: int, bottom: int, left: int, right: int) {
    predicate Valid() { left <= right }
  }

  function Min(a: int, b: int): int { if a <= b then a else b }

  function Max(a: int, b: int): int { if a >= b then a else b }

  /** `max(lo, min(hi, x))`: inside the bounds the value is kept, outside it
      saturates at the nearer bound. */
  function Clamp(x: int, lo: int, hi: int): (r: int)
    ensures lo <= hi ==> lo <= r <= hi
    ensures lo <= x <= hi ==> r == x
    ensures lo <= hi && x < lo ==> r == lo
    ensures lo <= hi && hi < x ==> r == hi
  {
    Max(lo, Min(hi, x))
  }

  /** Division rounding toward zero, as Python's `int()` of a quotient does:
      the magnitude is the floor of |a| / b and the sign is that of a. */
  function TruncDiv(a: int, b: int): (r: int)
    requires b > 0
    ensures 0 <= a ==> 0 <= r && r * b <= a < r * b + b
    ensures a < 0 ==> r <= 0 && -r * b <= -a < -r * b + b
  {
    if a >= 0 then
      DivBounds(a, b);
      a / b
    else
      DivBounds(-a, b);
      -((-a) / b)
  }

  /** Euclidean division of a non-negative number is its floor quotient. */
  lemma DivBounds(a: int, b: int)
    requires 0 <= a && 0 < b
    ensures 0 <= a / b && (a / b) * b <= a < (a / b) * b + b
  {
    var q, m := a / b, a % b;
    assert a == q * b + m && 0 <= m < b;
  }
}
