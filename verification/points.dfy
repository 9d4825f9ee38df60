/** Integer grid coordinates and the distances defined on them
    (`entity.Point`, `math.Abs` and `ManhattanDistance`). */
module Points {

  /** A grid coordinate. The repository refers to `entity.Point` without
      defining it; every use reads and writes exactly these two fields. */
  datatype Point = Point(x: int, y: int)

  function Abs(n: int): (r: nat)
    ensures r == n || r == -n
  {
    if n < 0 then -n else n
  }

  function Max(a: int, b: int): (r: int)
    ensures r >= a && r >= b && (r == a || r == b)
  {
    if a >= b then a else b
  }

  function Min(a: int, b: int): (r: int)
    ensures r <= a && r <= b && (r == a || r == b)
  {
    if a <= b then a else b
  }

  /** The A* heuristic: distance with only horizontal and vertical moves. */
  function ManhattanDistance(p1: Point, p2: Point): (d: nat)
    ensures d == 0 <==> p1 == p2
    ensures d >= Abs(p1.x - p2.x) && d >= Abs(p1.y - p2.y)
  {
    Abs(p1.x - p2.x) + Abs(p1.y - p2.y)
  }

  /** Two cells are orthogonal neighbours: one unit step north, south, west or east. */
  predicate Adjacent(p: Point, q: Point) {
    ManhattanDistance(p, q) == 1
  }

  /** The distance is a metric: symmetric, and it satisfies the triangle inequality. */
  lemma ManhattanMetric(a: Point, b: Point, c: Point)
    ensures ManhattanDistance(a, b) == ManhattanDistance(b, a)
    ensures ManhattanDistance(a, c) <= ManhattanDistance(a, b) + ManhattanDistance(b, c)
  {
  }

  /** One orthogonal step changes the distance to any fixed cell by exactly one. */
  lemma AdjacentStep(p: Point, q: Point, t: Point)
    requires Adjacent(p, q)
    ensures ManhattanDistance(p, t) <= ManhattanDistance(q, t) + 1
    ensures ManhattanDistance(q, t) <= ManhattanDistance(p, t) + 1
  {
  }
}
