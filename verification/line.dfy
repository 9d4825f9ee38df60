/** Bresenham's integer line stepping (`getLine` in internal/world/algo.go). */
module Line {
  import opened Points

  /** Step direction along one axis: +1 toward a larger coordinate, else -1. */
  function Dir(from: int, to: int): int {
    if from < to then 1 else -1
  }

  /** Distance still to travel along one axis, measured in the step direction. */
  function Remaining(cur: int, goal: int, s: int): int {
    if s == 1 then goal - cur else cur - goal
  }

  /** The loop state the algorithm keeps between iterations. `dx` is the
      horizontal extent and `dy` the NEGATED vertical extent, as in the source;
      `err` is tied to the distances still to travel by the cross-product
      identity below, which is what keeps the walk on the line. */
  ghost predicate WalkInv(x: int, y: int, x1: int, y1: int, dx: int, dy: int, sx: int, sy: int, err: int) {
    var rx := Remaining(x, x1, sx);
    var ry := Remaining(y, y1, sy);
    && (sx == 1 || sx == -1) && (sy == 1 || sy == -1)
    && 0 <= rx <= dx && 0 <= ry <= -dy
    && err == dx + dy - rx * dy - ry * dx
  }

  /** Whether the walk at a state takes an x step and a y step next. */
  lemma StepFacts(x: int, y: int, x1: int, y1: int, dx: int, dy: int, sx: int, sy: int, err: int)
    requires WalkInv(x, y, x1, y1, dx, dy, sx, sy, err)
    requires x != x1 || y != y1
    ensures 2 * err >= dy || 2 * err <= dx
    ensures 2 * err >= dy ==> Remaining(x, x1, sx) > 0
    ensures 2 * err <= dx ==> Remaining(y, y1, sy) > 0
  {
    var rx := Remaining(x, x1, sx);
    var ry := Remaining(y, y1, sy);
    if rx == 0 {
      assert ry >= 1;
      NonNegProduct(ry - 1, dx);
      assert err == dy - (ry - 1) * dx;
    }
    if ry == 0 {
      assert rx >= 1;
      NonNegProduct(rx - 1, -dy);
      assert err == dx + (rx - 1) * (-dy);
    }
  }

  lemma NonNegProduct(a: int, b: int)
    requires a >= 0 && b >= 0
    ensures a * b >= 0
  {
  }

  /** One iteration of the loop body: from `e2 = 2*err`, step x when
      `e2 >= dy` and y when `e2 <= dx` (both for a diagonal step). */
  function Advance(x: int, y: int, dx: int, dy: int, sx: int, sy: int, err: int): (next: (int, int, int)) {
    var e2 := 2 * err;
    var x', errX := if e2 >= dy then x + sx else x, if e2 >= dy then err + dy else err;
    var y', errY := if e2 <= dx then y + sy else y, if e2 <= dx then errX + dx else errX;
    (x', y', errY)
  }

  /** An iteration away from the end point keeps the invariant, moves, and
      never overshoots the end point on either axis. */
  lemma AdvanceKeepsInv(x: int, y: int, x1: int, y1: int, dx: int, dy: int, sx: int, sy: int, err: int)
    requires WalkInv(x, y, x1, y1, dx, dy, sx, sy, err)
    requires x != x1 || y != y1
    ensures var (x', y', err') := Advance(x, y, dx, dy, sx, sy, err);
      && WalkInv(x', y', x1, y1, dx, dy, sx, sy, err')
      && Step(Point(x, y), Point(x', y'), sx, sy)
      && Remaining(x', x1, sx) + Remaining(y', y1, sy) < Remaining(x, x1, sx) + Remaining(y, y1, sy)
  {
    StepFacts(x, y, x1, y1, dx, dy, sx, sy, err);
    var e2 := 2 * err;
    var stepX, stepY := if e2 >= dy then 1 else 0, if e2 <= dx then 1 else 0;
    var (x', y', err') := Advance(x, y, dx, dy, sx, sy, err);
    assert x' == x + stepX * sx && y' == y + stepY * sy && err' == err + stepX * dy + stepY * dx;
    var rx, ry := Remaining(x, x1, sx), Remaining(y, y1, sy);
    assert Remaining(x', x1, sx) == rx - stepX && Remaining(y', y1, sy) == ry - stepY;
    MulStep(rx, stepX, dy);
    MulStep(ry, stepY, dx);
  }

  /** Removing b copies of d from r copies. */
  lemma MulStep(r: int, b: int, d: int)
    ensures (r - b) * d == r * d - b * d
  {
  }

  /** Distance still to travel on both axes together. */
  function Progress(p: Point, x1: int, y1: int, sx: int, sy: int): int {
    Remaining(p.x, x1, sx) + Remaining(p.y, y1, sy)
  }

  /** The points from (x, y) up to and including (x1, y1): each iteration
      emits the current point, stops at the end point, otherwise advances. */
  function Walk(x: int, y: int, x1: int, y1: int, dx: int, dy: int, sx: int, sy: int, err: int): (pts: seq<Point>)
    requires WalkInv(x, y, x1, y1, dx, dy, sx, sy, err)
    ensures |pts| >= 1 && pts[0] == Point(x, y) && pts[|pts| - 1] == Point(x1, y1)
    decreases Remaining(x, x1, sx) + Remaining(y, y1, sy)
  {
    if x == x1 && y == y1 then [Point(x, y)]
    else
      AdvanceKeepsInv(x, y, x1, y1, dx, dy, sx, sy, err);
      var (x', y', err') := Advance(x, y, dx, dy, sx, sy, err);
      [Point(x, y)] + Walk(x', y', x1, y1, dx, dy, sx, sy, err')
  }

  /** The walk never leaves the box between its two ends, and each point is
      one move from the one before. */
  lemma {:induction false} WalkShape(x: int, y: int, x1: int, y1: int, dx: int, dy: int, sx: int, sy: int, err: int)
    requires WalkInv(x, y, x1, y1, dx, dy, sx, sy, err)
    ensures forall p :: p in Walk(x, y, x1, y1, dx, dy, sx, sy, err) ==>
              0 <= Remaining(p.x, x1, sx) <= Remaining(x, x1, sx) && 0 <= Remaining(p.y, y1, sy) <= Remaining(y, y1, sy)
    ensures Chain(Walk(x, y, x1, y1, dx, dy, sx, sy, err), sx, sy)
    decreases Remaining(x, x1, sx) + Remaining(y, y1, sy)
  {
    if x != x1 || y != y1 {
      AdvanceKeepsInv(x, y, x1, y1, dx, dy, sx, sy, err);
      var (x', y', err') := Advance(x, y, dx, dy, sx, sy, err);
      WalkShape(x', y', x1, y1, dx, dy, sx, sy, err');
      var pts, rest := Walk(x, y, x1, y1, dx, dy, sx, sy, err), Walk(x', y', x1, y1, dx, dy, sx, sy, err');
      assert pts == [Point(x, y)] + rest;
      assert Remaining(x', x1, sx) <= Remaining(x, x1, sx) && Remaining(y', y1, sy) <= Remaining(y, y1, sy);
      assert pts[1] == rest[0] == Point(x', y');
      forall i | 0 < i < |pts| - 1
        ensures Step(pts[i], pts[i + 1], sx, sy)
      {
        assert pts[i] == rest[i - 1] && pts[i + 1] == rest[i];
      }
    }
  }

  /** Each point is one move from the one before. */
  predicate Chain(pts: seq<Point>, sx: int, sy: int) {
    forall i :: 0 <= i < |pts| - 1 ==> Step(pts[i], pts[i + 1], sx, sy)
  }

  /** One move of the walk: each coordinate stays or moves one unit in its
      step direction, and at least one of them moves. */
  predicate Step(p: Point, q: Point, sx: int, sy: int) {
    && (q.x == p.x || q.x == p.x + sx)
    && (q.y == p.y || q.y == p.y + sy)
    && q != p
  }

  /** All points of the line from (x0, y0) to (x1, y1), both ends included. */
  function GetLine(x0: int, y0: int, x1: int, y1: int): (pts: seq<Point>)
    ensures |pts| >= 1 && pts[0] == Point(x0, y0) && pts[|pts| - 1] == Point(x1, y1)
    ensures forall i :: 0 <= i < |pts| - 1 ==> Step(pts[i], pts[i + 1], Dir(x0, x1), Dir(y0, y1))
    ensures forall i :: 0 <= i < |pts| ==> InBox(pts[i], x0, y0, x1, y1)
  {
    var dx := Abs(x1 - x0);
    var dy := -(Abs(y1 - y0) as int);
    InitialInv(x0, y0, x1, y1);
    assert WalkInv(x0, y0, x1, y1, dx, dy, Dir(x0, x1), Dir(y0, y1), dx + dy);
    var pts := Walk(x0, y0, x1, y1, dx, dy, Dir(x0, x1), Dir(y0, y1), dx + dy);
    WalkShape(x0, y0, x1, y1, dx, dy, Dir(x0, x1), Dir(y0, y1), dx + dy);
    WalkInBox(pts, x0, y0, x1, y1);
    pts
  }

  lemma WalkInBox(pts: seq<Point>, x0: int, y0: int, x1: int, y1: int)
    requires forall p :: p in pts ==>
      0 <= Remaining(p.x, x1, Dir(x0, x1)) <= Remaining(x0, x1, Dir(x0, x1))
      && 0 <= Remaining(p.y, y1, Dir(y0, y1)) <= Remaining(y0, y1, Dir(y0, y1))
    ensures forall i :: 0 <= i < |pts| ==> InBox(pts[i], x0, y0, x1, y1)
  {
    forall i | 0 <= i < |pts| ensures InBox(pts[i], x0, y0, x1, y1) {
      assert pts[i] in pts;
      RemainingInBox(pts[i].x, x0, x1, Dir(x0, x1));
      RemainingInBox(pts[i].y, y0, y1, Dir(y0, y1));
    }
  }

  lemma RemainingInBox(c: int, c0: int, c1: int, s: int)
    requires s == Dir(c0, c1)
    requires 0 <= Remaining(c, c1, s) <= Remaining(c0, c1, s)
    ensures (c0 <= c <= c1) || (c1 <= c <= c0)
  {
  }

  /** (p.x, p.y) lies in the bounding box spanned by the two end points. */
  predicate InBox(p: Point, x0: int, y0: int, x1: int, y1: int) {
    && (if x0 <= x1 then x0 <= p.x <= x1 else x1 <= p.x <= x0)
    && (if y0 <= y1 then y0 <= p.y <= y1 else y1 <= p.y <= y0)
  }

  /** When the horizontal extent dominates, every iteration steps x, so the
      walk has one point per remaining column. */
  lemma {:induction false} WalkLengthShallow(x: int, y: int, x1: int, y1: int, dx: int, dy: int, sx: int, sy: int, err: int)
    requires WalkInv(x, y, x1, y1, dx, dy, sx, sy, err)
    requires dx >= -dy && 2 * err >= dy
    ensures |Walk(x, y, x1, y1, dx, dy, sx, sy, err)| == Remaining(x, x1, sx) + 1
    decreases Remaining(x, x1, sx) + Remaining(y, y1, sy)
  {
    if x != x1 || y != y1 {
      StepFacts(x, y, x1, y1, dx, dy, sx, sy, err);
      AdvanceKeepsInv(x, y, x1, y1, dx, dy, sx, sy, err);
      var (x', y', err') := Advance(x, y, dx, dy, sx, sy, err);
      WalkLengthShallow(x', y', x1, y1, dx, dy, sx, sy, err');
    }
  }

  /** When the vertical extent dominates, every iteration steps y. */
  lemma {:induction false} WalkLengthSteep(x: int, y: int, x1: int, y1: int, dx: int, dy: int, sx: int, sy: int, err: int)
    requires WalkInv(x, y, x1, y1, dx, dy, sx, sy, err)
    requires dx <= -dy && 2 * err <= dx
    ensures |Walk(x, y, x1, y1, dx, dy, sx, sy, err)| == Remaining(y, y1, sy) + 1
    decreases Remaining(x, x1, sx) + Remaining(y, y1, sy)
  {
    if x != x1 || y != y1 {
      StepFacts(x, y, x1, y1, dx, dy, sx, sy, err);
      AdvanceKeepsInv(x, y, x1, y1, dx, dy, sx, sy, err);
      var (x', y', err') := Advance(x, y, dx, dy, sx, sy, err);
      WalkLengthSteep(x', y', x1, y1, dx, dy, sx, sy, err');
    }
  }

  /** Every move brings the walk closer to the end point. */
  lemma StepProgress(p: Point, q: Point, x1: int, y1: int, sx: int, sy: int)
    requires (sx == 1 || sx == -1) && (sy == 1 || sy == -1)
    requires Step(p, q, sx, sy)
    ensures Progress(q, x1, y1, sx, sy) < Progress(p, x1, y1, sx, sy)
  {
  }

  /** Along a chain of moves, any later point is closer to the end point than
      any earlier one. */
  lemma {:induction false} ChainPair(pts: seq<Point>, x1: int, y1: int, sx: int, sy: int, i: int, j: int)
    requires (sx == 1 || sx == -1) && (sy == 1 || sy == -1)
    requires forall k :: 0 <= k < |pts| - 1 ==> Step(pts[k], pts[k + 1], sx, sy)
    requires 0 <= i < j < |pts|
    ensures Progress(pts[j], x1, y1, sx, sy) < Progress(pts[i], x1, y1, sx, sy)
    decreases j - i
  {
    StepProgress(pts[j - 1], pts[j], x1, y1, sx, sy);
    if i < j - 1 {
      ChainPair(pts, x1, y1, sx, sy, i, j - 1);
    }
  }

  /** No point appears twice on a line. */
  lemma GetLineDistinct(x0: int, y0: int, x1: int, y1: int)
    ensures var pts := GetLine(x0, y0, x1, y1);
      forall i, j :: 0 <= i < j < |pts| ==> pts[i] != pts[j]
  {
    var pts := GetLine(x0, y0, x1, y1);
    var sx, sy := Dir(x0, x1), Dir(y0, y1);
    forall i, j | 0 <= i < j < |pts| ensures pts[i] != pts[j] {
      ChainPair(pts, x1, y1, sx, sy, i, j);
    }
  }

  /** The line has one point per unit of its longer extent, plus one. */
  lemma GetLineLength(x0: int, y0: int, x1: int, y1: int)
    ensures |GetLine(x0, y0, x1, y1)| == Max(Abs(x1 - x0), Abs(y1 - y0)) + 1
  {
    var dx: int := Abs(x1 - x0);
    var dy: int := -(Abs(y1 - y0) as int);
    var sx, sy, err := Dir(x0, x1), Dir(y0, y1), dx + dy;
    InitialInv(x0, y0, x1, y1);
    assert WalkInv(x0, y0, x1, y1, dx, dy, sx, sy, err);
    assert GetLine(x0, y0, x1, y1) == Walk(x0, y0, x1, y1, dx, dy, sx, sy, err);
    assert Remaining(x0, x1, sx) == dx && Remaining(y0, y1, sy) == -dy;
    if dx >= -dy {
      WalkLengthShallow(x0, y0, x1, y1, dx, dy, sx, sy, err);
    } else {
      WalkLengthSteep(x0, y0, x1, y1, dx, dy, sx, sy, err);
    }
  }

  lemma InitialInv(x0: int, y0: int, x1: int, y1: int)
    ensures WalkInv(x0, y0, x1, y1, Abs(x1 - x0), -(Abs(y1 - y0) as int), Dir(x0, x1), Dir(y0, y1),
                    Abs(x1 - x0) - Abs(y1 - y0))
  {
    var dx: int := Abs(x1 - x0);
    var dy: int := -(Abs(y1 - y0) as int);
    assert Remaining(x0, x1, Dir(x0, x1)) == dx;
    assert Remaining(y0, y1, Dir(y0, y1)) == -dy;
    assert dx * dy == (-dy) * (-dx);
  }

  /** Equal end points give exactly one point. */
  lemma GetLineSinglePoint(x: int, y: int)
    ensures GetLine(x, y, x, y) == [Point(x, y)]
  {
  }

  /** The exact sequences the repository's tests pin down for a steep and a
      shallow slope, a diagonal and a horizontal run. */
  lemma GetLineSteepExample()
    ensures GetLine(2, 3, 4, 8) == [Point(2, 3), Point(2, 4), Point(3, 5), Point(3, 6), Point(4, 7), Point(4, 8)]
  {
  }

  lemma GetLineShallowExample()
    ensures GetLine(3, 2, 8, 4) == [Point(3, 2), Point(4, 2), Point(5, 3), Point(6, 3), Point(7, 4), Point(8, 4)]
  {
  }

  lemma GetLineDiagonalExample()
    ensures GetLine(5, 0, 0, 5) == [Point(5, 0), Point(4, 1), Point(3, 2), Point(2, 3), Point(1, 4), Point(0, 5)]
  {
  }

  lemma GetLineHorizontalExample()
    ensures GetLine(0, 2, 6, 2) == [Point(0, 2), Point(1, 2), Point(2, 2), Point(3, 2), Point(4, 2), Point(5, 2), Point(6, 2)]
  {
    assert Walk(3, 2, 6, 2, 6, 0, 1, -1, 6) == [Point(3, 2), Point(4, 2), Point(5, 2), Point(6, 2)];
  }
}
