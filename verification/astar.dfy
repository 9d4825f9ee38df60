/** Grid A* (`world.FindPath`, `reconstructPath`): 4-neighbour search with
    unit step cost and the Manhattan heuristic, over the heap of module
    PriorityQueue.

    This is the search the code's comments and tests describe. The start node
    has G-cost 0, neighbours are tried north, south, west, east, each step
    costs 1, the loop runs while the frontier is non-empty, and the reversal
    starts from index 0. The literal constants of the Go source differ on
    each of these points; README lists the lines.

    The Go slices `closedSet` and `openSetTracker` are indexed by
    `y*Width + x`. Here the closed cells are a map from cell to the node that
    closed it. That map also holds what the `Parent` pointers reach. The
    tracker entry for a cell is the queued node with that cell. */
module AStar {
  import opened Points
  import opened Tiles
  import opened Grid
  import opened Wrappers
  import opened PriorityQueue
  import opened Seqs

  /** Neighbour offsets in the order the search tries them: N, S, W, E. */
  const Directions: seq<Point> := [Point(0, -1), Point(0, 1), Point(-1, 0), Point(1, 0)]

  function Neighbour(p: Point, d: Point): Point {
    Point(p.x + d.x, p.y + d.y)
  }

  predicate Unit(d: Point) {
    Adjacent(Point(0, 0), d)
  }

  /** The four offsets are exactly the orthogonal unit steps. */
  lemma DirectionsAreSteps(p: Point, q: Point)
    ensures forall i :: 0 <= i < |Directions| ==> Unit(Directions[i])
    ensures Adjacent(p, q) <==> exists i :: 0 <= i < |Directions| && q == Neighbour(p, Directions[i])
  {
    if Adjacent(p, q) {
      var i := if q.y < p.y then 0 else if q.y > p.y then 1 else if q.x < p.x then 2 else 3;
      assert q == Neighbour(p, Directions[i]);
    }
  }

  /** The offset that takes p to an adjacent q. */
  lemma StepDirection(p: Point, q: Point) returns (i: nat)
    requires Adjacent(p, q)
    ensures i < |Directions| && q == Neighbour(p, Directions[i])
  {
    i := if q.y < p.y then 0 else if q.y > p.y then 1 else if q.x < p.x then 2 else 3;
  }

  // ---------------------------------------------------------------------------
  // Walks on the grid
  // ---------------------------------------------------------------------------

  /** A walk: orthogonal unit steps, each onto an in-bounds walkable cell.
      The first cell is exempt, as the search never checks its start. */
  predicate IsWalk(m: Map, path: seq<Point>)
    requires Valid(m)
  {
    |path| > 0 &&
    forall i :: 0 < i < |path| ==> Adjacent(path[i - 1], path[i]) && IsWalkable(m, path[i].x, path[i].y)
  }

  predicate WalkBetween(m: Map, path: seq<Point>, from: Point, to: Point)
    requires Valid(m)
  {
    IsWalk(m, path) && path[0] == from && path[|path| - 1] == to
  }

  ghost predicate Reachable(m: Map, from: Point, to: Point)
    requires Valid(m)
  {
    exists path :: WalkBetween(m, path, from, to)
  }

  /** No walk from `from` to `to` has fewer than `len` cells. */
  ghost predicate NoShorter(m: Map, from: Point, to: Point, len: int)
    requires Valid(m)
  {
    forall path :: WalkBetween(m, path, from, to) ==> len <= |path|
  }


  // ---------------------------------------------------------------------------
  // The search
  // ---------------------------------------------------------------------------

  function StartNode(start: Point, target: Point): (n: Node)
    ensures n.point == start && n.parent == None && n.gCost == 0
    ensures n.hCost == ManhattanDistance(start, target) && n.fCost == n.hCost
  {
    var h := ManhattanDistance(start, target);
    Node(start, None, 0, h, h, 0)
  }

  /** The tracker lookup: the position of the queued node for cell p. */
  function Find(q: Queue, p: Point): (k: Option<nat>)
    ensures k.Some? ==> k.value < |q| && q[k.value].point == p
    ensures k.None? ==> forall j :: 0 <= j < |q| ==> q[j].point != p
  {
    FindFrom(q, p, 0)
  }

  function FindFrom(q: Queue, p: Point, i: nat): (k: Option<nat>)
    requires i <= |q|
    ensures k.Some? ==> i <= k.value < |q| && q[k.value].point == p
    ensures k.None? ==> forall j :: i <= j < |q| ==> q[j].point != p
    decreases |q| - i
  {
    if i == |q| then None
    else if q[i].point == p then Some(i)
    else FindFrom(q, p, i + 1)
  }

  /** A queued node for cell p whose G-cost is at most b. */
  ghost predicate Covers(q: Queue, p: Point, b: int) {
    exists x :: x in multiset(Strip(q)) && x.point == p && x.gCost <= b
  }

  /** Every queued node's H-cost is the Manhattan distance to the target. */
  ghost predicate Estimated(q: Queue, target: Point) {
    forall x | x in multiset(Strip(q)) :: x.hCost == ManhattanDistance(x.point, target)
  }

  /** No cell is queued twice. */
  ghost predicate DistinctCells(q: Queue) {
    forall p :: multiset(PointsOf(q))[p] <= 1
  }

  /** A node queued or improved while expanding `cur`. */
  ghost predicate Fresh(m: Map, cur: Node, closed: map<Point, Node>, x: Node)
    requires Valid(m)
  {
    x.parent == Some(cur.point) && x.gCost == cur.gCost + 1 && x.fCost == x.gCost + x.hCost &&
    Adjacent(cur.point, x.point) && IsWalkable(m, x.point.x, x.point.y) && x.point !in closed
  }

  /** What one expansion step keeps: node positions, heap order, costs and
      distinct cells; every queued cell stays queued at no higher cost; and
      every node is either already queued or Fresh. */
  ghost predicate Keeps(m: Map, target: Point, cur: Node, closed: map<Point, Node>, q: Queue, r: Queue)
    requires Valid(m)
  {
    Indexed(r) &&
    (IsHeap(q) ==> IsHeap(r)) &&
    (Estimated(q, target) ==> Estimated(r, target)) &&
    (DistinctCells(q) ==> DistinctCells(r)) &&
    (forall p, b :: Covers(q, p, b) ==> Covers(r, p, b)) &&
    (forall x | x in multiset(Strip(r)) :: x in multiset(Strip(q)) || Fresh(m, cur, closed, x))
  }

  lemma KeepsChain(m: Map, target: Point, cur: Node, closed: map<Point, Node>, q: Queue, q1: Queue, r: Queue)
    requires Valid(m) && Keeps(m, target, cur, closed, q, q1) && Keeps(m, target, cur, closed, q1, r)
    ensures Keeps(m, target, cur, closed, q, r)
  {
  }

  /** One pass of the neighbour loop, for offset d. A cell off the map,
      closed or not walkable is skipped. A cell not yet queued is pushed, and
      a queued cell reached more cheaply gets its parent and costs updated
      and is re-sifted at its HeapIndex. */
  function Relax(m: Map, target: Point, cur: Node, q: Queue, closed: map<Point, Node>, d: Point): (r: Queue)
    requires Valid(m) && Indexed(q) && Unit(d)
    ensures Keeps(m, target, cur, closed, q, r)
    ensures var n := Neighbour(cur.point, d);
            IsWalkable(m, n.x, n.y) && n !in closed ==> Covers(r, n, cur.gCost + 1)
  {
    var n := Neighbour(cur.point, d);
    if !InBounds(m, n.x, n.y) then q
    else if n in closed || !TileAt(m, n.x, n.y).walkable then q
    else
      var g := cur.gCost + 1;
      match Find(q, n)
      case None =>
        var h := ManhattanDistance(n, target);
        var x := Node(n, Some(cur.point), g, h, g + h, 0);
        PushBranch(m, target, cur, closed, q, x);
        HeapPush(q, x)
      case Some(k) =>
        if g < q[k].gCost then
          var y := q[k].(parent := Some(cur.point), gCost := g, fCost := g + q[k].hCost);
          ImproveBranch(m, target, cur, closed, q, k, y);
          HeapFix(q[k := y], q[k].heapIndex)
        else
          InStrip(q, k);
          q
  }

  lemma PushBranch(m: Map, target: Point, cur: Node, closed: map<Point, Node>, q: Queue, x: Node)
    requires Valid(m) && Indexed(q)
    requires forall j :: 0 <= j < |q| ==> q[j].point != x.point
    requires x.hCost == ManhattanDistance(x.point, target)
    requires x.(heapIndex := 0) == x && Fresh(m, cur, closed, x)
    ensures Keeps(m, target, cur, closed, q, HeapPush(q, x))
    ensures Covers(HeapPush(q, x), x.point, cur.gCost + 1)
  {
    var r := HeapPush(q, x);
    assert forall j :: 0 <= j < |q| ==> PointsOf(q)[j] != x.point;
    assert x.point !in PointsOf(q);
    assert x in multiset(Strip(r));
  }

  lemma ImproveBranch(m: Map, target: Point, cur: Node, closed: map<Point, Node>, q: Queue, k: nat, y: Node)
    requires Valid(m) && Indexed(q) && k < |q|
    requires y == q[k].(parent := Some(cur.point), gCost := cur.gCost + 1, fCost := cur.gCost + 1 + q[k].hCost)
    requires cur.gCost + 1 < q[k].gCost
    requires Adjacent(cur.point, y.point) && IsWalkable(m, y.point.x, y.point.y) && y.point !in closed
    ensures q[k].heapIndex == k && Indexed(q[k := y])
    ensures Keeps(m, target, cur, closed, q, HeapFix(q[k := y], k))
    ensures Covers(HeapFix(q[k := y], k), y.point, cur.gCost + 1)
  {
    var q' := q[k := y];
    var r := HeapFix(q', k);
    ImproveKeeps(m, cur, closed, q, k, y, target);
    if IsHeap(q) {
      FixRestores(q, k, y);
    }
    PermCarries(m, target, cur, closed, q, q', r);
    assert y.(heapIndex := 0) in multiset(Strip(r));
  }

  /** What replacing queued nodes keeps: the queued cells, the H-costs, every
      queued cell at no higher cost, and every node either kept or Fresh. */
  ghost predicate Carries(m: Map, target: Point, cur: Node, closed: map<Point, Node>, q: Queue, q': Queue)
    requires Valid(m)
  {
    multiset(PointsOf(q')) == multiset(PointsOf(q)) &&
    (Estimated(q, target) ==> Estimated(q', target)) &&
    (forall p, b :: Covers(q, p, b) ==> Covers(q', p, b)) &&
    (forall x | x in multiset(Strip(q')) :: x in multiset(Strip(q)) || Fresh(m, cur, closed, x))
  }

  /** A reordering of an updated queue carries over what the update kept. */
  lemma PermCarries(m: Map, target: Point, cur: Node, closed: map<Point, Node>, q: Queue, q': Queue, r: Queue)
    requires Valid(m) && Perm(r, q') && Indexed(r) && (IsHeap(q) ==> IsHeap(r))
    requires Carries(m, target, cur, closed, q, q')
    ensures Keeps(m, target, cur, closed, q, r)
  {
    forall p, b | Covers(q, p, b)
      ensures Covers(r, p, b)
    {
      assert Covers(q', p, b);
      var x :| x in multiset(Strip(q')) && x.point == p && x.gCost <= b;
      assert x in multiset(Strip(r));
    }
  }

  /** The neighbour loop: Relax for each offset in turn. */
  function Expand(m: Map, target: Point, cur: Node, q: Queue, closed: map<Point, Node>, k: nat): (r: Queue)
    requires Valid(m) && Indexed(q) && k <= |Directions|
    ensures Keeps(m, target, cur, closed, q, r)
    ensures forall i :: k <= i < |Directions| ==>
              var n := Neighbour(cur.point, Directions[i]);
              IsWalkable(m, n.x, n.y) && n !in closed ==> Covers(r, n, cur.gCost + 1)
    decreases |Directions| - k
  {
    if k == |Directions| then q
    else
      DirectionsAreSteps(cur.point, cur.point);
      var q1 := Relax(m, target, cur, q, closed, Directions[k]);
      var r := Expand(m, target, cur, q1, closed, k + 1);
      KeepsChain(m, target, cur, closed, q, q1, r);
      ExpandCovers(m, cur, closed, k, q1, r);
      r
  }

  lemma ExpandCovers(m: Map, cur: Node, closed: map<Point, Node>, k: nat, q1: Queue, r: Queue)
    requires Valid(m) && k < |Directions|
    requires var n := Neighbour(cur.point, Directions[k]);
             IsWalkable(m, n.x, n.y) && n !in closed ==> Covers(q1, n, cur.gCost + 1)
    requires forall p, b :: Covers(q1, p, b) ==> Covers(r, p, b)
    requires forall i :: k < i < |Directions| ==>
               var n := Neighbour(cur.point, Directions[i]);
               IsWalkable(m, n.x, n.y) && n !in closed ==> Covers(r, n, cur.gCost + 1)
    ensures forall i :: k <= i < |Directions| ==>
              var n := Neighbour(cur.point, Directions[i]);
              IsWalkable(m, n.x, n.y) && n !in closed ==> Covers(r, n, cur.gCost + 1)
  {
  }

  /** The main loop: pop the cheapest node; stop with its path if it is the
      target, otherwise close it and expand it. An empty frontier means the
      target cannot be reached. */
  function Search(m: Map, ghost start: Point, target: Point, open: Queue, closed: map<Point, Node>): (path: seq<Point>)
    requires Inv(m, start, target, open, closed)
    ensures path != [] ==> WalkBetween(m, path, start, target) && Distinct(path) && NoShorter(m, start, target, |path|)
    ensures path == [] ==> !Reachable(m, start, target)
    decreases Unclosed(m, closed)
  {
    if |open| == 0 then
      NothingLeft(m, start, target, closed);
      []
    else
      var (rest, cur) := HeapPop(open);
      PoppedSettled(m, start, target, open, closed);
      if cur.point == target then
        FoundPath(m, start, target, open, closed);
        ReconstructPath(closed, cur)
      else
        var closed' := closed[cur.point := cur];
        var open' := Expand(m, target, cur, rest, closed', 0);
        StepKeeps(m, start, target, open, closed, rest, cur);
        Search(m, start, target, open', closed')
  }

  /** The cells of the grid not yet closed; the loop closes one per round. */
  ghost function Unclosed(m: Map, closed: map<Point, Node>): set<Point> {
    set x: int, y: int | 0 <= x < m.width && 0 <= y < m.height && Point(x, y) !in closed :: Point(x, y)
  }

  lemma UnclosedShrinks(m: Map, closed: map<Point, Node>, u: Node)
    requires InBounds(m, u.point.x, u.point.y) && u.point !in closed
    ensures Unclosed(m, closed[u.point := u]) < Unclosed(m, closed)
  {
    assert u.point in Unclosed(m, closed) - Unclosed(m, closed[u.point := u]);
  }

  /** A shortest 4-connected walk from start to target, or [] (Go's nil) when
      there is none. */
  function FindPath(m: Map, start: Point, target: Point): (path: seq<Point>)
    requires Valid(m) && InBounds(m, start.x, start.y)
    ensures path != [] ==> WalkBetween(m, path, start, target) && Distinct(path)
    ensures path != [] ==> NoShorter(m, start, target, |path|)
    ensures path == [] <==> !Reachable(m, start, target)
  {
    var open := HeapPush(HeapInit([]), StartNode(start, target));
    InitialInv(m, start, target);
    var path := Search(m, start, target, open, map[]);
    if path != [] then
      WalkReaches(m, path, start, target);
      path
    else
      path
  }

  lemma WalkReaches(m: Map, path: seq<Point>, from: Point, to: Point)
    requires Valid(m) && WalkBetween(m, path, from, to)
    ensures Reachable(m, from, to)
  {
  }

  // ---------------------------------------------------------------------------
  // Path reconstruction
  // ---------------------------------------------------------------------------

  /** Parent links lead to closed nodes one G-cost step cheaper, down to a
      parentless node of G-cost 0. */
  ghost predicate Chained(closed: map<Point, Node>, n: Node) {
    n.gCost >= 0 &&
    match n.parent
    case None => n.gCost == 0
    case Some(p) => p in closed && closed[p].point == p && closed[p].gCost + 1 == n.gCost
  }

  ghost predicate ChainedMap(closed: map<Point, Node>) {
    forall p | p in closed :: Chained(closed, closed[p])
  }

  /** The first loop of `reconstructPath`: the cells from n back along the
      parent links, n's cell first. Each cell's recorded parent is the next
      cell, and the last cell has none. */
  function Collect(closed: map<Point, Node>, n: Node): (trail: seq<Point>)
    requires ChainedMap(closed) && Chained(closed, n)
    ensures |trail| == n.gCost + 1 && trail[0] == n.point
    ensures forall i :: 0 < i < |trail| ==> trail[i] in closed && closed[trail[i]].gCost == n.gCost - i
    ensures n.parent == (if |trail| > 1 then Some(trail[1]) else None)
    ensures forall i :: 0 < i < |trail| ==>
              closed[trail[i]].parent == (if i + 1 < |trail| then Some(trail[i + 1]) else None)
    decreases n.gCost
  {
    match n.parent
    case None => [n.point]
    case Some(p) =>
      var rest := Collect(closed, closed[p]);
      assert forall i :: 1 < i < 1 + |rest| ==> ([n.point] + rest)[i] == rest[i - 1];
      [n.point] + rest
  }

  /** The second loop of `reconstructPath`: swap the ends and move inwards. */
  function SwapEnds(s: seq<Point>, i: nat, j: int): (r: seq<Point>)
    requires i + j == |s| - 1
    ensures |r| == |s|
    ensures forall k :: 0 <= k < |s| && i <= k <= j ==> r[k] == s[i + j - k]
    ensures forall k :: 0 <= k < |s| && !(i <= k <= j) ==> r[k] == s[k]
    decreases j - i
  {
    if i < j then SwapEnds(s[i := s[j]][j := s[i]], i + 1, j - 1) else s
  }

  function Reverse(s: seq<Point>): (r: seq<Point>)
    ensures |r| == |s|
    ensures forall k :: 0 <= k < |s| ==> r[k] == s[|s| - 1 - k]
  {
    SwapEnds(s, 0, |s| - 1)
  }

  function ReconstructPath(closed: map<Point, Node>, n: Node): (path: seq<Point>)
    requires ChainedMap(closed) && Chained(closed, n)
    ensures |path| == n.gCost + 1 && path[|path| - 1] == n.point
  {
    Reverse(Collect(closed, n))
  }

  // ---------------------------------------------------------------------------
  // The loop invariant
  // ---------------------------------------------------------------------------

  /** Node bookkeeping: costs as assigned, and a parent that is a closed
      neighbour one step cheaper, or no parent for the start. */
  ghost predicate NodeOk(m: Map, start: Point, target: Point, closed: map<Point, Node>, n: Node)
    requires Valid(m)
  {
    n.gCost >= 0 && n.hCost == ManhattanDistance(n.point, target) && n.fCost == n.gCost + n.hCost &&
    match n.parent
    case None => n.point == start && n.gCost == 0
    case Some(p) =>
      p in closed && closed[p].gCost + 1 == n.gCost && Adjacent(p, n.point) && IsWalkable(m, n.point.x, n.point.y)
  }

  /** A queued node: on the map, not closed, well kept. */
  ghost predicate Good(m: Map, start: Point, target: Point, closed: map<Point, Node>, n: Node)
    requires Valid(m)
  {
    InBounds(m, n.point.x, n.point.y) && n.point !in closed && NodeOk(m, start, target, closed, n)
  }

  ghost predicate ClosedOk(m: Map, start: Point, target: Point, closed: map<Point, Node>)
    requires Valid(m)
  {
    forall p | p in closed ::
      closed[p].point == p && InBounds(m, p.x, p.y) && NodeOk(m, start, target, closed, closed[p])
  }

  ghost predicate OpenOk(m: Map, start: Point, target: Point, closed: map<Point, Node>, q: Queue)
    requires Valid(m)
  {
    (forall x | x in multiset(Strip(q)) :: Good(m, start, target, closed, x)) && DistinctCells(q)
  }

  /** The start is queued alone until the first pop, and closed after it. */
  ghost predicate StartSeen(start: Point, closed: map<Point, Node>, q: Queue) {
    start in closed || (closed == map[] && |q| == 1 && q[0].point == start)
  }

  /** The walkable neighbour in direction d of a closed cell c is closed, or
      queued at a G-cost of at most one more than c's. */
  ghost predicate Covered(m: Map, closed: map<Point, Node>, q: Queue, c: Point, d: Point)
    requires Valid(m) && c in closed
  {
    var n := Neighbour(c, d);
    IsWalkable(m, n.x, n.y) ==> n in closed || Covers(q, n, closed[c].gCost + 1)
  }

  ghost predicate Frontier(m: Map, closed: map<Point, Node>, q: Queue)
    requires Valid(m)
  {
    forall c, i | c in closed && 0 <= i < |Directions| :: Covered(m, closed, q, c, Directions[i])
  }

  /** A closed node's G-cost is a shortest walk length from the start. */
  ghost predicate Settled(m: Map, start: Point, closed: map<Point, Node>)
    requires Valid(m)
  {
    forall c | c in closed :: NoShorter(m, start, c, closed[c].gCost + 1)
  }

  ghost predicate Inv(m: Map, start: Point, target: Point, q: Queue, closed: map<Point, Node>) {
    Valid(m) && InBounds(m, start.x, start.y) && IsHeap(q) && Indexed(q) && target !in closed &&
    ClosedOk(m, start, target, closed) && OpenOk(m, start, target, closed, q) &&
    StartSeen(start, closed, q) && Frontier(m, closed, q) && Settled(m, start, closed)
  }

  // ---------------------------------------------------------------------------
  // Queue bookkeeping
  // ---------------------------------------------------------------------------

  /** Each queued node's cell is among the queued cells. */
  lemma StripPoints(q: Queue)
    ensures forall x | x in multiset(Strip(q)) :: x.point in multiset(PointsOf(q))
  {
    forall x | x in multiset(Strip(q))
      ensures x.point in multiset(PointsOf(q))
    {
      assert x in Strip(q);
      var k :| 0 <= k < |q| && Strip(q)[k] == x;
      assert PointsOf(q)[k] == x.point;
    }
  }

  /** Every position of the queue holds a node of its bag. */
  lemma InStrip(q: Queue, k: int)
    requires 0 <= k < |q|
    ensures q[k].(heapIndex := 0) in multiset(Strip(q))
  {
    assert Strip(q)[k] == q[k].(heapIndex := 0);
  }

  lemma ImproveKeeps(m: Map, cur: Node, closed: map<Point, Node>, q: Queue, k: nat, y: Node, target: Point)
    requires Valid(m) && Indexed(q) && k < |q|
    requires y == q[k].(parent := Some(cur.point), gCost := cur.gCost + 1, fCost := cur.gCost + 1 + q[k].hCost)
    requires cur.gCost + 1 < q[k].gCost
    requires Adjacent(cur.point, y.point) && IsWalkable(m, y.point.x, y.point.y) && y.point !in closed
    ensures q[k].heapIndex == k && Indexed(q[k := y])
    ensures Perm(HeapFix(q[k := y], k), q[k := y]) && Indexed(HeapFix(q[k := y], k))
    ensures Carries(m, target, cur, closed, q, q[k := y])
    ensures y.(heapIndex := 0) in multiset(Strip(q[k := y]))
  {
    ImproveCarries(m, cur, closed, q, k, y, target);
  }

  /** Lowering a queued node's cost keeps its cell and every other node,
      covers each cell at no higher cost, and adds only a Fresh node. */
  lemma ImproveCarries(m: Map, cur: Node, closed: map<Point, Node>, q: Queue, k: nat, y: Node, target: Point)
    requires Valid(m) && k < |q|
    requires y == q[k].(parent := Some(cur.point), gCost := cur.gCost + 1, fCost := cur.gCost + 1 + q[k].hCost)
    requires cur.gCost + 1 < q[k].gCost
    requires Adjacent(cur.point, y.point) && IsWalkable(m, y.point.x, y.point.y) && y.point !in closed
    ensures Carries(m, target, cur, closed, q, q[k := y])
    ensures y.(heapIndex := 0) in multiset(Strip(q[k := y]))
  {
    var s, y0 := Strip(q), y.(heapIndex := 0);
    assert Strip(q[k := y]) == s[k := y0];
    assert PointsOf(q[k := y]) == PointsOf(q);
    UpdateMembers(s, k, y0);
    forall p, b | Covers(q, p, b)
      ensures Covers(q[k := y], p, b)
    {
      var x: Node :| x in multiset(s) && x.point == p && x.gCost <= b;
      if x == s[k] {
        assert y0.point == p && y0.gCost <= b;
      } else {
        assert x in multiset(s[k := y0]);
      }
    }
    assert Fresh(m, cur, closed, y0);
    if Estimated(q, target) {
      assert s[k] in multiset(s);
      assert y0.hCost == ManhattanDistance(y0.point, target);
    }
  }

  // ---------------------------------------------------------------------------
  // Why the invariant holds
  // ---------------------------------------------------------------------------

  lemma InitialInv(m: Map, start: Point, target: Point)
    requires Valid(m) && InBounds(m, start.x, start.y)
    ensures Inv(m, start, target, HeapPush(HeapInit([]), StartNode(start, target)), map[])
  {
    var s := StartNode(start, target);
    EmptyQueue();
    assert HeapPush([], s) == [s];
    assert Strip([s]) == [s];
    assert PointsOf([s]) == [start];
  }

  /** Nodes kept in order stay in order when one more node is closed. */
  lemma NodeOkGrows(m: Map, start: Point, target: Point, closed: map<Point, Node>, u: Node, n: Node)
    requires Valid(m) && u.point !in closed && NodeOk(m, start, target, closed, n)
    ensures NodeOk(m, start, target, closed[u.point := u], n)
  {
  }

  /** What popping the root gives: a well-kept node whose cell is no longer
      queued, with every other queued node still queued. */
  lemma PopFacts(m: Map, start: Point, target: Point, open: Queue, closed: map<Point, Node>)
    requires Inv(m, start, target, open, closed) && |open| > 0
    ensures var (rest, u) := HeapPop(open);
            Good(m, start, target, closed, u) && IsHeap(rest) && Indexed(rest) && DistinctCells(rest) &&
            (forall x | x in multiset(Strip(rest)) :: x in multiset(Strip(open)) && x.point != u.point) &&
            (forall x | x in multiset(Strip(open)) :: x in multiset(Strip(rest)) || x.point == u.point)
  {
    InStrip(open, 0);
    PopCells(open);
  }

  lemma PopCells(open: Queue)
    requires DistinctCells(open) && |open| > 0
    ensures var (rest, u) := HeapPop(open);
            DistinctCells(rest) &&
            (forall x | x in multiset(Strip(rest)) :: x in multiset(Strip(open)) && x.point != u.point) &&
            (forall x | x in multiset(Strip(open)) :: x in multiset(Strip(rest)) || x.point == u.point)
  {
    var (rest, u) := HeapPop(open);
    BagPop(multiset(PointsOf(rest)), multiset(PointsOf(open)), u.point);
    StripPoints(rest);
  }

  /** Taking one element out of a bag with no repeats leaves a bag with no
      repeats that no longer holds the element. */
  lemma BagPop(after: multiset<Point>, before: multiset<Point>, p: Point)
    requires after + multiset{p} == before && forall c :: before[c] <= 1
    ensures (forall c :: after[c] <= 1) && p !in after
  {
    assert before[p] == after[p] + 1;
    forall c
      ensures after[c] <= 1
    {
      assert before[c] == (after + multiset{p})[c];
    }
  }

  /** The A* argument: with a consistent heuristic, the node popped first
      has a shortest G-cost. A shorter walk would leave the closed region
      through a queued cell whose F-cost is below the root's. */
  lemma PoppedSettled(m: Map, start: Point, target: Point, open: Queue, closed: map<Point, Node>)
    requires Inv(m, start, target, open, closed) && |open| > 0
    ensures NoShorter(m, start, open[0].point, open[0].gCost + 1)
  {
    var u := open[0];
    InStrip(open, 0);
    forall path | WalkBetween(m, path, start, u.point)
      ensures u.gCost + 1 <= |path|
    {
      if start in closed && |path| < u.gCost + 1 {
        var x := ExitNode(m, start, open, closed, path, u.point);
        ManhattanMetric(x.point, u.point, target);
        RootCheapest(m, start, target, open, closed, x, u);
      }
    }
  }

  /** No queued node has a smaller F-cost than the root. */
  lemma RootCheapest(m: Map, start: Point, target: Point, open: Queue, closed: map<Point, Node>, x: Node, u: Node)
    requires Valid(m) && IsHeap(open) && |open| > 0 && u == open[0]
    requires OpenOk(m, start, target, closed, open)
    requires x in multiset(Strip(open))
    ensures u.gCost + ManhattanDistance(u.point, target) <= x.gCost + ManhattanDistance(x.point, target)
  {
    InStrip(open, 0);
    assert Good(m, start, target, closed, x);
    assert Good(m, start, target, closed, u.(heapIndex := 0));
    assert x in Strip(open);
    var k :| 0 <= k < |open| && Strip(open)[k] == x;
    LessIgnoresPosition(open[k], u, 0, 0);
    RootIsMin(open, k);
  }

  /** A walk from a closed start to an unclosed cell crosses the frontier:
      some queued node is no dearer than the walk up to it plus the Manhattan
      distance from it to the walk's end. */
  lemma ExitNode(m: Map, start: Point, open: Queue, closed: map<Point, Node>, path: seq<Point>, to: Point)
    returns (x: Node)
    requires Valid(m) && Frontier(m, closed, open) && Settled(m, start, closed)
    requires start in closed && to !in closed && WalkBetween(m, path, start, to)
    ensures x in multiset(Strip(open)) && x.gCost + ManhattanDistance(x.point, to) <= |path| - 1
  {
    var i := FirstOutside(path, closed);
    var c := path[i - 1];
    var dir := StepDirection(c, path[i]);
    assert Covered(m, closed, open, c, Directions[dir]);
    x :| x in multiset(Strip(open)) && x.point == path[i] && x.gCost <= closed[c].gCost + 1;
    WalkPrefix(m, path, i);
    assert WalkBetween(m, path[..i], start, c);
    assert closed[c].gCost + 1 <= i;
    WalkDistance(m, path, i);
  }

  /** A walk cut short is still a walk. */
  lemma WalkPrefix(m: Map, path: seq<Point>, i: int)
    requires Valid(m) && IsWalk(m, path) && 0 < i <= |path|
    ensures IsWalk(m, path[..i])
  {
    forall k | 0 < k < i
      ensures Adjacent(path[..i][k - 1], path[..i][k]) && IsWalkable(m, path[..i][k].x, path[..i][k].y)
    {
      assert path[..i][k - 1] == path[k - 1] && path[..i][k] == path[k];
    }
  }

  /** The first step of a walk that leaves a set of cells. */
  lemma {:induction false} FirstOutside(path: seq<Point>, closed: map<Point, Node>) returns (i: nat)
    requires |path| > 0 && path[0] in closed && path[|path| - 1] !in closed
    ensures 0 < i < |path| && path[i - 1] in closed && path[i] !in closed
    decreases |path|
  {
    if path[1] !in closed {
      i := 1;
    } else {
      var j := FirstOutside(path[1..], closed);
      i := j + 1;
    }
  }

  /** The Manhattan distance between two cells of a walk is at most the
      number of steps between them. */
  lemma {:induction false} WalkDistance(m: Map, path: seq<Point>, a: nat)
    requires Valid(m) && IsWalk(m, path) && a < |path|
    ensures ManhattanDistance(path[a], path[|path| - 1]) <= |path| - 1 - a
    decreases |path| - a
  {
    if a < |path| - 1 {
      WalkDistance(m, path, a + 1);
      ManhattanMetric(path[a], path[a + 1], path[|path| - 1]);
    }
  }

  /** An empty frontier means the closed region is shut under walkable
      steps; it holds the start but not the target. */
  lemma NothingLeft(m: Map, start: Point, target: Point, closed: map<Point, Node>)
    requires Inv(m, start, target, [], closed)
    ensures !Reachable(m, start, target)
  {
    forall path | IsWalk(m, path) && path[0] == start
      ensures path[|path| - 1] in closed
    {
      AllClosed(m, start, closed, path, |path| - 1);
    }
  }

  lemma {:induction false} AllClosed(m: Map, start: Point, closed: map<Point, Node>, path: seq<Point>, k: nat)
    requires Valid(m) && start in closed && Frontier(m, closed, [])
    requires IsWalk(m, path) && path[0] == start && k < |path|
    ensures path[k] in closed
    decreases k
  {
    if k > 0 {
      AllClosed(m, start, closed, path, k - 1);
      var dir := StepDirection(path[k - 1], path[k]);
      assert Covered(m, closed, [], path[k - 1], Directions[dir]);
      assert Strip([]) == [];
    }
  }

  /** Popping the target: the parent links spell a walk from the start with
      G-cost + 1 distinct cells. */
  lemma FoundPath(m: Map, start: Point, target: Point, open: Queue, closed: map<Point, Node>)
    requires Inv(m, start, target, open, closed) && |open| > 0 && open[0].point == target
    ensures var u := HeapPop(open).1;
            ChainedMap(closed) && Chained(closed, u) &&
            var path := ReconstructPath(closed, u);
            WalkBetween(m, path, start, target) && Distinct(path) && |path| == open[0].gCost + 1
  {
    PopFacts(m, start, target, open, closed);
    var u := HeapPop(open).1;
    TrailWalk(m, start, target, closed, u);
    TrailDistinct(closed, u);
    ReverseDistinct(Collect(closed, u));
  }

  /** Read backwards, the cells behind a well-kept node form a walk from the
      start to the node. */
  lemma TrailWalk(m: Map, start: Point, target: Point, closed: map<Point, Node>, u: Node)
    requires Valid(m) && ClosedOk(m, start, target, closed) && Good(m, start, target, closed, u)
    ensures ChainedMap(closed) && Chained(closed, u)
    ensures WalkBetween(m, ReconstructPath(closed, u), start, u.point)
  {
    var trail := Collect(closed, u);
    var path := ReconstructPath(closed, u);
    var n := |trail|;
    assert path[0] == trail[n - 1];
    forall j | 0 < j < n
      ensures Adjacent(path[j - 1], path[j]) && IsWalkable(m, path[j].x, path[j].y)
    {
      var t := n - 1 - j;
      assert path[j] == trail[t] && path[j - 1] == trail[t + 1];
      if t > 0 {
        assert NodeOk(m, start, target, closed, closed[trail[t]]);
      }
    }
    if n > 1 {
      assert NodeOk(m, start, target, closed, closed[trail[n - 1]]);
    }
  }

  /** The cells behind an unclosed node are distinct: the first is not
      closed and the others carry strictly decreasing G-costs. */
  lemma TrailDistinct(closed: map<Point, Node>, u: Node)
    requires ChainedMap(closed) && Chained(closed, u) && u.point !in closed
    ensures Distinct(Collect(closed, u))
  {
    var trail := Collect(closed, u);
    forall i, j | 0 <= i < j < |trail|
      ensures trail[i] != trail[j]
    {
      if i > 0 {
        assert closed[trail[i]].gCost != closed[trail[j]].gCost;
      }
    }
  }

  lemma ReverseDistinct(s: seq<Point>)
    requires Distinct(s)
    ensures Distinct(Reverse(s))
  {
    var r := Reverse(s);
    forall i, j | 0 <= i < j < |r|
      ensures r[i] != r[j]
    {
      assert r[i] == s[|s| - 1 - i] && r[j] == s[|s| - 1 - j];
    }
  }

  /** One round that does not find the target keeps the invariant. */
  lemma StepKeeps(m: Map, start: Point, target: Point, open: Queue, closed: map<Point, Node>, rest: Queue, u: Node)
    requires Inv(m, start, target, open, closed) && |open| > 0 && (rest, u) == HeapPop(open) && u.point != target
    ensures Inv(m, start, target, Expand(m, target, u, rest, closed[u.point := u], 0), closed[u.point := u])
    ensures Unclosed(m, closed[u.point := u]) < Unclosed(m, closed)
  {
    var closed' := closed[u.point := u];
    PopFacts(m, start, target, open, closed);
    PoppedSettled(m, start, target, open, closed);
    DirectionsAreSteps(u.point, u.point);
    ClosedGrows(m, start, target, closed, u);
    assert Estimated(rest, target);
    var r := Expand(m, target, u, rest, closed', 0);
    assert IsHeap(r) && Indexed(r) && DistinctCells(r);
    OpenAfter(m, start, target, closed, u, rest, r);
    FrontierAfter(m, start, target, open, closed, u, rest, r);
    SettledAfter(m, start, closed, u);
    UnclosedShrinks(m, closed, u);
    assert StartSeen(start, closed', r);
  }

  /** Closing a node whose G-cost is a shortest walk length keeps every
      closed G-cost shortest. */
  lemma SettledAfter(m: Map, start: Point, closed: map<Point, Node>, u: Node)
    requires Valid(m) && Settled(m, start, closed) && NoShorter(m, start, u.point, u.gCost + 1)
    ensures Settled(m, start, closed[u.point := u])
  {
  }

  lemma ClosedGrows(m: Map, start: Point, target: Point, closed: map<Point, Node>, u: Node)
    requires Valid(m) && ClosedOk(m, start, target, closed) && Good(m, start, target, closed, u)
    ensures ClosedOk(m, start, target, closed[u.point := u])
  {
    forall p | p in closed
      ensures NodeOk(m, start, target, closed[u.point := u], closed[p])
    {
      NodeOkGrows(m, start, target, closed, u, closed[p]);
    }
    NodeOkGrows(m, start, target, closed, u, u);
  }

  lemma OpenAfter(m: Map, start: Point, target: Point, closed: map<Point, Node>, u: Node, rest: Queue, r: Queue)
    requires Valid(m) && Good(m, start, target, closed, u)
    requires forall x | x in multiset(Strip(rest)) :: Good(m, start, target, closed, x) && x.point != u.point
    requires forall x | x in multiset(Strip(r)) :: x in multiset(Strip(rest)) || Fresh(m, u, closed[u.point := u], x)
    requires Estimated(r, target)
    ensures forall x | x in multiset(Strip(r)) :: Good(m, start, target, closed[u.point := u], x)
  {
    forall x | x in multiset(Strip(r))
      ensures Good(m, start, target, closed[u.point := u], x)
    {
      if x in multiset(Strip(rest)) {
        NodeOkGrows(m, start, target, closed, u, x);
      }
    }
  }

  lemma FrontierAfter(m: Map, start: Point, target: Point, open: Queue, closed: map<Point, Node>,
                      u: Node, rest: Queue, r: Queue)
    requires Valid(m) && u.point !in closed && Frontier(m, closed, open)
    requires forall x | x in multiset(Strip(open)) :: x in multiset(Strip(rest)) || x.point == u.point
    requires forall p, b :: Covers(rest, p, b) ==> Covers(r, p, b)
    requires forall i :: 0 <= i < |Directions| ==>
               var n := Neighbour(u.point, Directions[i]);
               IsWalkable(m, n.x, n.y) && n !in closed[u.point := u] ==> Covers(r, n, u.gCost + 1)
    ensures Frontier(m, closed[u.point := u], r)
  {
    var closed' := closed[u.point := u];
    forall c, i | c in closed' && 0 <= i < |Directions|
      ensures Covered(m, closed', r, c, Directions[i])
    {
      if c != u.point {
        assert Covered(m, closed, open, c, Directions[i]);
        var n := Neighbour(c, Directions[i]);
        if IsWalkable(m, n.x, n.y) && n !in closed' {
          var x :| x in multiset(Strip(open)) && x.point == n && x.gCost <= closed[c].gCost + 1;
          assert Covers(rest, n, closed[c].gCost + 1);
        }
      }
    }
  }
}
