/** Rooms: axis-aligned rectangles with inclusive corners (`world.Rect`). */
module Rects {
  import opened Points

  /** (x1, y1) is the top-left corner, (x2, y2) the bottom-right one. */
  datatype Rect = Rect(x1: int, y1: int, x2: int, y2: int)

  /** Go's `a / 2` on `int`: the quotient is truncated toward zero, so the
      remainder takes the sign of the dividend (Dafny's own `/` is Euclidean). */
  function GoHalf(a: int): (q: int)
    ensures a >= 0 ==> 0 <= a - 2 * q <= 1
    ensures a < 0 ==> -1 <= a - 2 * q <= 0
  {
    if a >= 0 then a / 2 else -((-a) / 2)
  }

  /** The truncated integer midpoint of the rectangle. */
  function Center(r: Rect): (c: Point)
    ensures Abs(2 * c.x - (r.x1 + r.x2)) <= 1 && Abs(2 * c.y - (r.y1 + r.y2)) <= 1
    ensures r.x1 + r.x2 >= 0 ==> 2 * c.x <= r.x1 + r.x2
    ensures r.x1 + r.x2 < 0 ==> 2 * c.x >= r.x1 + r.x2
    ensures r.y1 + r.y2 >= 0 ==> 2 * c.y <= r.y1 + r.y2
    ensures r.y1 + r.y2 < 0 ==> 2 * c.y >= r.y1 + r.y2
    ensures r.x1 <= r.x2 ==> r.x1 <= c.x <= r.x2
    ensures r.y1 <= r.y2 ==> r.y1 <= c.y <= r.y2
  {
    Point(GoHalf(r.x1 + r.x2), GoHalf(r.y1 + r.y2))
  }

  function Width(r: Rect): int {
    r.x2 - r.x1
  }

  function Height(r: Rect): int {
    r.y2 - r.y1
  }

  /** The overlap test as the repository has it: a placeholder that answers
      false for every pair. */
  function Intersects(a: Rect, b: Rect): (overlaps: bool)
    ensures !overlaps
  {
    false
  }

  /** Concrete midpoints, including a negative sum that truncates toward zero. */
  lemma CenterExamples()
    ensures Center(Rect(0, 0, 10, 10)) == Point(5, 5)
    ensures Center(Rect(1, 2, 4, 7)) == Point(2, 4)
    ensures Center(Rect(-3, -3, 0, 0)) == Point(-1, -1)
  {
  }

  /** The five cases the repository's tests expect to be disjoint are reported
      disjoint. */
  lemma IntersectsDisjointCases()
    ensures !Intersects(Rect(0, 0, 5, 5), Rect(10, 10, 15, 15))
    ensures !Intersects(Rect(0, 0, 5, 5), Rect(6, 6, 10, 10))
    ensures !Intersects(Rect(0, 0, 10, 10), Rect(10, 10, 15, 15))
    ensures !Intersects(Rect(5, 5, 10, 10), Rect(10, 10, 15, 15))
    ensures !Intersects(Rect(-10, -10, -5, -5), Rect(0, 0, 5, 5))
  {
  }

  /** The four cases the tests expect to overlap are ALSO reported disjoint:
      the placeholder does not meet them. */
  lemma IntersectsMissesOverlaps()
    ensures !Intersects(Rect(0, 0, 10, 10), Rect(2, 2, 8, 8))
    ensures !Intersects(Rect(0, 0, 10, 10), Rect(10, 0, 20, 10))
    ensures !Intersects(Rect(0, 0, 10, 10), Rect(5, 5, 15, 15))
    ensures !Intersects(Rect(-10, -10, 0, 0), Rect(-5, -5, 5, 5))
  {
  }
}
