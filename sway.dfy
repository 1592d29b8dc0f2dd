/** Sway-waypoint paths: a falling particle starts at the canvas top and
    passes `numSways - 1` intermediate waypoints before its final one.
    Waypoint `i` sits at the fraction `i / numSways` of the fall, and its
    column is the start column pushed left (odd `i`) or right (even `i`) by a
    drawn amount of 1 to 3, accumulated unclamped and clamped only when the
    waypoint is emitted. */
module Sway {
  import opened Geometry

  /** Sign of the `i`-th sway: right on even waypoints, left on odd ones. */
  function Direction(i: int): int { if i % 2 == 0 then 1 else -1 }

  /** Unclamped column offset after the first `i` sways; `amounts[j - 1]`
      is the amount drawn for waypoint `j`. */
  function Offset(amounts: seq<int>, i: nat): int
    requires i <= |amounts|
  {
    if i == 0 then 0 else Offset(amounts, i - 1) + Direction(i) * amounts[i - 1]
  }

  /** Row of intermediate waypoint `i` on a fall from `top` to `target`
      (`top - int(fall_distance * i / numSways)`). */
  function SwayRow(top: int, target: int, numSways: int, i: int): int
    requires numSways > 0
  {
    top - TruncDiv((top - target) * i, numSways)
  }

  /** Intermediate waypoint `i` (1-based) of a fall starting in column `start`. */
  function SwayPoint(c: Canvas, start: int, target: int, numSways: int, amounts: seq<int>, i: nat): Coord
    requires 1 <= i <= |amounts| && 0 < numSways
  {
    Coord(Clamp(start + Offset(amounts, i), c.left, c.right), SwayRow(c.top, target, numSways, i))
  }

  /** The intermediate waypoints for the amounts drawn so far, in order. */
  function SwayPoints(c: Canvas, start: int, target: int, numSways: int, amounts: seq<int>): seq<Coord>
    requires |amounts| == 0 || |amounts| < numSways
  {
    seq(|amounts|, k requires 0 <= k < |amounts| => SwayPoint(c, start, target, numSways, amounts, k + 1))
  }

  /** The random draws behind one path: `randint(2, 4)` sways and one
      `randint(1, 3)` amount per intermediate waypoint. */
  datatype PathDraw = PathDraw(numSways: int, amounts: seq<int>) {
    predicate Valid() {
      2 <= numSways <= 4 && |amounts| == numSways - 1 &&
      forall j :: 0 <= j < |amounts| ==> 1 <= amounts[j] <= 3
    }
  }

  /** Path of a text particle: the sway waypoints, then its input cell. */
  function TextPath(c: Canvas, input: Coord, d: PathDraw): seq<Coord>
    requires d.Valid()
  {
    SwayPoints(c, input.column, input.row, d.numSways, d.amounts) + [input]
  }

  /** Path of a background flake from column `start`: the sway waypoints,
      then the clamped final column on the bottom row. */
  function BackgroundPath(c: Canvas, start: int, d: PathDraw): seq<Coord>
    requires d.Valid()
  {
    SwayPoints(c, start, c.bottom, d.numSways, d.amounts)
      + [Coord(Clamp(start + Offset(d.amounts, |d.amounts|), c.left, c.right), c.bottom)]
  }

  ghost predicate IsTextPath(c: Canvas, input: Coord, p: seq<Coord>) {
    exists d: PathDraw :: d.Valid() && p == TextPath(c, input, d)
  }

  ghost predicate IsBackgroundPath(c: Canvas, start: int, p: seq<Coord>) {
    exists d: PathDraw :: d.Valid() && p == BackgroundPath(c, start, d)
  }

  /** The sway loop of path construction: draws one amount per intermediate
      waypoint, accumulates the unclamped column and emits clamped waypoints.
      Returns the waypoints, the final unclamped column and the amounts drawn. */
  method SwayWaypoints(c: Canvas, start: int, target: int, numSways: int)
    returns (waypoints: seq<Coord>, column: int, amounts: seq<int>)
    ensures |amounts| == Max(0, numSways - 1)
    ensures forall j :: 0 <= j < |amounts| ==> 1 <= amounts[j] <= 3
    ensures waypoints == SwayPoints(c, start, target, numSways, amounts)
    ensures column == start + Offset(amounts, |amounts|)
  {
    var fallDistance := c.top - target;
    column := start;
    waypoints, amounts := [], [];
    var i := 1;
    while i < numSways
      invariant 1 <= i && (i <= numSways || i == 1)
      invariant |amounts| == i - 1
      invariant forall j :: 0 <= j < |amounts| ==> 1 <= amounts[j] <= 3
      invariant waypoints == SwayPoints(c, start, target, numSways, amounts)
      invariant column == start + Offset(amounts, |amounts|)
    {
      var swayRow := c.top - TruncDiv(fallDistance * i, numSways);
      var swayDirection := if i % 2 == 0 then 1 else -1;
      var swayAmount :| 1 <= swayAmount <= 3;
      column := column + swayDirection * swayAmount;
      var swayColumn := Clamp(column, c.left, c.right);
      forall k | 0 <= k <= |amounts|
        ensures Offset(amounts + [swayAmount], k) == Offset(amounts, k)
      {
        OffsetPrefix(amounts, swayAmount, k);
      }
      waypoints := waypoints + [Coord(swayColumn, swayRow)];
      amounts := amounts + [swayAmount];
      i := i + 1;
    }
  }

  /** Drawing a further amount does not change the offsets already reached. */
  lemma {:induction false} OffsetPrefix(amounts: seq<int>, a: int, i: nat)
    requires i <= |amounts|
    ensures Offset(amounts + [a], i) == Offset(amounts, i)
  {
    if i > 0 {
      OffsetPrefix(amounts, a, i - 1);
      assert (amounts + [a])[i - 1] == amounts[i - 1];
    }
  }

  /** The alternating offsets drift slowly: each left/right pair moves the
      unclamped column by at most 2, and an unpaired left sway by 1 to 3. */
  lemma {:induction false} OffsetDrift(amounts: seq<int>, i: nat)
    requires i <= |amounts|
    requires forall j :: 0 <= j < |amounts| ==> 1 <= amounts[j] <= 3
    ensures -2 * (i / 2) - 3 * (i % 2) <= Offset(amounts, i) <= 2 * (i / 2) - i % 2
  {
    if i > 0 {
      OffsetDrift(amounts, i - 1);
    }
  }

  lemma MulLeq(a: int, b: int, k: int)
    requires a <= b && 0 <= k
    ensures a * k <= b * k
  {
    assert (b - a) * k >= 0;
  }

  lemma MulLess(x: int, y: int, n: int)
    requires 0 < n && x * n < y * n
    ensures x < y
  {
    if x >= y {
      MulLeq(y, x, n);
    }
  }

  /** `int(d * i / n)` for `0 <= i <= j <= n` is between 0 and `d`, and grows with `i`. */
  lemma ScaledFraction(d: int, n: int, i: int, j: int)
    requires 0 <= d && 0 <= i <= j <= n && 0 < n
    ensures 0 <= TruncDiv(d * i, n) <= TruncDiv(d * j, n) <= d
  {
    MulLeq(i, j, d);
    MulLeq(j, n, d);
    var ri, rj := TruncDiv(d * i, n), TruncDiv(d * j, n);
    assert ri * n <= d * i <= d * j < (rj + 1) * n;
    MulLess(ri, rj + 1, n);
    ScaledWhole(d, n);
    ScaledBelow(d, n, d * j);
  }

  /** `int(d * n / n)` is `d`. */
  lemma ScaledWhole(d: int, n: int)
    requires 0 <= d && 0 < n
    ensures TruncDiv(d * n, n) == d
  {
    var rn := TruncDiv(d * n, n);
    assert d * n < (rn + 1) * n;
    MulLess(d, rn + 1, n);
    assert rn * n <= d * n < (d + 1) * n;
    MulLess(rn, d + 1, n);
  }

  /** A quotient of at most `d * n` is at most `d`. */
  lemma ScaledBelow(d: int, n: int, a: int)
    requires 0 <= a <= d * n && 0 < n
    ensures TruncDiv(a, n) <= d
  {
    var r := TruncDiv(a, n);
    assert r * n <= a <= d * n < (d + 1) * n;
    MulLess(r, d + 1, n);
  }

  /** Scaling a negative distance is the negated scaling of its size. */
  lemma ScaledNeg(d: int, n: int, i: int)
    requires 0 < n
    ensures TruncDiv(d * i, n) == -TruncDiv((-d) * i, n)
  {
    assert d * i == -((-d) * i);
    TruncDivNeg((-d) * i, n);
  }

  lemma TruncDivNeg(a: int, n: int)
    requires 0 < n
    ensures TruncDiv(-a, n) == -TruncDiv(a, n)
  {
  }

  /** Rows of a fall from `top` to `target`: the fall starts on `top`, ends on
      `target`, every intermediate row lies between the two, and the rows
      move monotonically from `top` toward `target`. */
  lemma {:induction false} SwayRowsMonotone(top: int, target: int, n: int, i: int, j: int)
    requires 0 <= i <= j <= n && 0 < n
    ensures SwayRow(top, target, n, 0) == top && SwayRow(top, target, n, n) == target
    ensures target <= top ==> target <= SwayRow(top, target, n, j) <= SwayRow(top, target, n, i) <= top
    ensures top <= target ==> top <= SwayRow(top, target, n, i) <= SwayRow(top, target, n, j) <= target
  {
    var d := top - target;
    if d >= 0 {
      ScaledFraction(d, n, i, j);
      ScaledWhole(d, n);
    } else {
      ScaledFraction(-d, n, i, j);
      ScaledWhole(-d, n);
      ScaledNeg(d, n, i);
      ScaledNeg(d, n, j);
      ScaledNeg(d, n, n);
    }
  }

  /** Every intermediate waypoint is inside the horizontal bounds, on a row
      between `top` and `target`, within the drift of the start column, and
      the rows never turn back. */
  lemma SwayPointsShape(c: Canvas, start: int, target: int, d: PathDraw)
    requires c.Valid() && d.Valid()
    ensures var w := SwayPoints(c, start, target, d.numSways, d.amounts);
      |w| == d.numSways - 1 &&
      (forall k :: 0 <= k < |w| ==> c.left <= w[k].column <= c.right) &&
      (c.left <= start <= c.right ==>
        forall k :: 0 <= k < |w| ==> start - 5 <= w[k].column <= start + 2) &&
      (target <= c.top ==> forall k :: 0 <= k < |w| ==> target <= w[k].row <= c.top) &&
      (c.top <= target ==> forall k :: 0 <= k < |w| ==> c.top <= w[k].row <= target) &&
      (target <= c.top ==> forall k, k' :: 0 <= k < k' < |w| ==> w[k'].row <= w[k].row) &&
      (c.top <= target ==> forall k, k' :: 0 <= k < k' < |w| ==> w[k].row <= w[k'].row)
  {
    var n, w := d.numSways, SwayPoints(c, start, target, d.numSways, d.amounts);
    forall k | 0 <= k < |w|
      ensures c.left <= start <= c.right ==> start - 5 <= w[k].column <= start + 2
      ensures target <= c.top ==> target <= w[k].row <= c.top
      ensures c.top <= target ==> c.top <= w[k].row <= target
    {
      SwayPointBounds(c, start, target, d, k + 1);
    }
    forall k, k' | 0 <= k < k' < |w|
      ensures target <= c.top ==> w[k'].row <= w[k].row
      ensures c.top <= target ==> w[k].row <= w[k'].row
    {
      SwayRowsMonotone(c.top, target, n, k + 1, k' + 1);
    }
  }

  /** Intermediate waypoint `i` lies within the drift of the start column
      and on a row between `top` and `target`. */
  lemma SwayPointBounds(c: Canvas, start: int, target: int, d: PathDraw, i: nat)
    requires c.Valid() && d.Valid() && 1 <= i <= |d.amounts|
    ensures var p := SwayPoint(c, start, target, d.numSways, d.amounts, i);
      (c.left <= start <= c.right ==> start - 5 <= p.column <= start + 2) &&
      (target <= c.top ==> target <= p.row <= c.top) &&
      (c.top <= target ==> c.top <= p.row <= target)
  {
    OffsetDrift(d.amounts, i);
    SwayRowsMonotone(c.top, target, d.numSways, i, d.numSways);
  }


  /** A text particle's path has `numSways` waypoints (2 to 4), ends on its
      input cell, stays inside the horizontal bounds until then, and falls
      monotonically from the top to the input row. */
  lemma TextPathShape(c: Canvas, input: Coord, d: PathDraw)
    requires c.Valid() && d.Valid()
    ensures var p := TextPath(c, input, d);
      |p| == d.numSways && 2 <= |p| <= 4 && p[|p| - 1] == input &&
      (forall k :: 0 <= k < |p| - 1 ==> c.left <= p[k].column <= c.right) &&
      (input.row <= c.top ==> forall k, k' :: 0 <= k < k' < |p| ==> input.row <= p[k'].row <= p[k].row <= c.top)
  {
    SwayPointsShape(c, input.column, input.row, d);
  }

  /** A background flake's path has `numSways` waypoints (2 to 4), every
      column inside the horizontal bounds, a final waypoint on the bottom row
      in the column of the last sway, and rows falling monotonically from the
      top to the bottom. */
  lemma BackgroundPathShape(c: Canvas, start: int, d: PathDraw)
    requires c.Valid() && d.Valid()
    ensures var p := BackgroundPath(c, start, d);
      |p| == d.numSways && 2 <= |p| <= 4 &&
      p[|p| - 1].row == c.bottom && p[|p| - 1].column == p[|p| - 2].column &&
      (forall k :: 0 <= k < |p| ==> c.left <= p[k].column <= c.right) &&
      (c.bottom <= c.top ==> forall k, k' :: 0 <= k < k' < |p| ==> c.bottom <= p[k'].row <= p[k].row <= c.top)
  {
    SwayPointsShape(c, start, c.bottom, d);
  }
}
