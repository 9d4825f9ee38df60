/** The order in which the repository visits the border of a rectangle:
    the top and bottom rows column by column, then the left and right
    columns row by row (the ray targets of `ComputeFOV` in
    internal/world/map.go and the doorway candidates of `findDoorways` in
    internal/world/facility.go). */
module Borders {
  import opened Points

  /** Cells on the rows `minY` and `maxY`, two per column, column by column
      from `x` up to `maxX`. */
  function TopBottom(x: int, maxX: int, minY: int, maxY: int): seq<Point>
    decreases maxX - x + 1
  {
    if x > maxX then [] else [Point(x, minY), Point(x, maxY)] + TopBottom(x + 1, maxX, minY, maxY)
  }

  /** Cells on the columns `minX` and `maxX`, two per row, row by row from `y`
      up to `maxY`. */
  function LeftRight(y: int, maxY: int, minX: int, maxX: int): seq<Point>
    decreases maxY - y + 1
  {
    if y > maxY then [] else [Point(minX, y), Point(maxX, y)] + LeftRight(y + 1, maxY, minX, maxX)
  }

  lemma {:induction false} TopBottomMembers(x: int, maxX: int, minY: int, maxY: int, t: Point)
    ensures t in TopBottom(x, maxX, minY, maxY) <==> x <= t.x <= maxX && (t.y == minY || t.y == maxY)
    decreases maxX - x + 1
  {
    if x <= maxX {
      TopBottomMembers(x + 1, maxX, minY, maxY, t);
    }
  }

  lemma {:induction false} LeftRightMembers(y: int, maxY: int, minX: int, maxX: int, t: Point)
    ensures t in LeftRight(y, maxY, minX, maxX) <==> y <= t.y <= maxY && (t.x == minX || t.x == maxX)
    decreases maxY - y + 1
  {
    if y <= maxY {
      LeftRightMembers(y + 1, maxY, minX, maxX, t);
    }
  }
}
