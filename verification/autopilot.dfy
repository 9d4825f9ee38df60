/** The autopilot (internal/systems/autopilot.go): every entity that has
    both a PlayerControl and a Position, with its autopilot switched on,
    either plans a route to the centre of a random room or walks one step of
    the route it already has.

    The function reads the components from per-entity arrays with a
    component mask per entity. That array-backed registry is not part of
    this model, so each array index becomes one `Slot`. */
module Autopilot {
  import opened Points
  import opened Rects
  import opened Grid
  import opened Components
  import opened AStar
  import Facility

  /** One index of the registry's arrays: the entity's mask and the two
      components the autopilot reads and writes. */
  datatype Slot = Slot(mask: ComponentMask, control: PlayerControl, position: Position)

  /** The components a slot needs for the autopilot to look at it. */
  const TargetMask: ComponentMask := MaskPlayerControl | MaskPosition

  function PointOf(p: Position): Point {
    Point(p.x, p.y)
  }

  /** The slot has both components and its autopilot is on. */
  predicate Active(s: Slot) {
    HasAll(s.mask, TargetMask) && s.control.autopilot
  }

  /** The slot will plan a new route this tick. */
  predicate NeedsRoute(s: Slot) {
    Active(s) && |s.control.currentPath| == 0
  }

  /** What planning needs: Go's `rand.Intn` panics on an empty room list,
      and the search starts from a cell on the map. */
  predicate CanStep(m: Map, s: Slot)
    requires Valid(m)
  {
    NeedsRoute(s) ==> |m.rooms| > 0 && InBounds(m, s.position.x, s.position.y)
  }

  /** The room centre a planning tick heads for: the draw picks the room. */
  function RoomTarget(m: Map, rng: Facility.Rng): (t: Point)
    requires |m.rooms| > 0
    ensures exists k :: 0 <= k < |m.rooms| && t == Center(m.rooms[k])
  {
    var k := Facility.IntN(rng, |m.rooms|).0;
    Center(m.rooms[k])
  }

  /** The route still to walk always continues from where the slot stands:
      it is empty, or the current cell followed by the route is a walk. */
  predicate OnTrack(m: Map, s: Slot)
    requires Valid(m)
  {
    s.control.currentPath == [] || IsWalk(m, [PointOf(s.position)] + s.control.currentPath)
  }

  /** What a search from `start` to `target` leaves as the route to walk: a
      shortest walk to the target without its first cell, empty exactly when
      `start` is already the target or the target cannot be reached. */
  ghost predicate PlannedTo(m: Map, start: Point, target: Point, path: seq<Point>)
    requires Valid(m)
  {
    (path != [] ==> WalkBetween(m, [start] + path, start, target) && NoShorter(m, start, target, |path| + 1)) &&
    (path == [] <==> start == target || !Reachable(m, start, target))
  }

  /** Step 1 of the loop body: search from the slot's cell to a random
      room's centre and keep the route without its first cell (the cell the
      slot stands on). A route of one cell or none becomes nil. */
  function Replan(m: Map, s: Slot, rng: Facility.Rng): (r: (Slot, Facility.Rng))
    requires Valid(m) && |m.rooms| > 0 && InBounds(m, s.position.x, s.position.y)
    ensures r.0.mask == s.mask && r.0.position == s.position
    ensures r.0.control.autopilot == s.control.autopilot && r.0.control.status == s.control.status
    ensures r.1.pos == rng.pos + 1
    ensures var start, target, path := PointOf(s.position), RoomTarget(m, rng), r.0.control.currentPath;
            (path != [] ==> WalkBetween(m, [start] + path, start, target) && NoShorter(m, start, target, |path| + 1)) &&
            (path == [] <==> start == target || !Reachable(m, start, target))
  {
    var (k, rng') := Facility.IntN(rng, |m.rooms|);
    var start, target := PointOf(s.position), Center(m.rooms[k]);
    RouteOfSearch(m, start, target);
    (s.(control := s.control.(currentPath := Route(FindPath(m, start, target)))), rng')
  }

  /** The search's answer less the cell it starts on; nil when that leaves
      nothing. */
  function Route(found: seq<Point>): (path: seq<Point>)
    ensures |found| > 1 ==> [found[0]] + path == found
    ensures |found| <= 1 ==> path == []
  {
    if |found| > 1 then found[1..] else []
  }

  /** The route kept after a search is a shortest walk to the target minus
      its first cell, and it is empty exactly when the slot already stands
      on the target or the target cannot be reached. */
  lemma RouteOfSearch(m: Map, start: Point, target: Point)
    requires Valid(m) && InBounds(m, start.x, start.y)
    ensures var path := Route(FindPath(m, start, target));
            (path != [] ==> WalkBetween(m, [start] + path, start, target) && NoShorter(m, start, target, |path| + 1)) &&
            (path == [] <==> start == target || !Reachable(m, start, target))
  {
    assert WalkBetween(m, [start], start, start);
  }

  /** Step 2 and 3 of the loop body: move onto the route's next cell when it
      is walkable and drop it from the route; otherwise stay and clear the
      route so the next tick plans again. */
  function Advance(m: Map, s: Slot): (r: Slot)
    requires Valid(m) && s.control.currentPath != []
    ensures r.mask == s.mask && r.control.autopilot == s.control.autopilot && r.control.status == s.control.status
    ensures var next := s.control.currentPath[0];
            if IsWalkable(m, next.x, next.y)
            then PointOf(r.position) == next && r.control.currentPath == s.control.currentPath[1..]
            else r.position == s.position && r.control.currentPath == []
  {
    var next := s.control.currentPath[0];
    if IsWalkable(m, next.x, next.y) then
      Slot(s.mask, s.control.(currentPath := s.control.currentPath[1..]), Position(next.x, next.y))
    else
      s.(control := s.control.(currentPath := []))
  }

  /** One slot's turn of `ProcessAutopilot`. A slot the mask or the switch
      rules out is left alone and draws nothing. */
  function Step(m: Map, s: Slot, rng: Facility.Rng): (r: (Slot, Facility.Rng))
    requires Valid(m) && CanStep(m, s)
    ensures !Active(s) ==> r == (s, rng)
    ensures r.0.mask == s.mask && r.0.control.autopilot == s.control.autopilot
    ensures r.0.control.status == s.control.status
    ensures r.1.pos == rng.pos + (if NeedsRoute(s) then 1 else 0)
  {
    if !Active(s) then (s, rng)
    else if |s.control.currentPath| == 0 then Replan(m, s, rng)
    else (Advance(m, s), rng)
  }

  /** A walk with its first cell dropped is still a walk. */
  lemma WalkTail(m: Map, path: seq<Point>)
    requires Valid(m) && IsWalk(m, path) && |path| > 1
    ensures IsWalk(m, path[1..])
  {
    forall i | 0 < i < |path| - 1
      ensures Adjacent(path[1..][i - 1], path[1..][i]) && IsWalkable(m, path[1..][i].x, path[1..][i].y)
    {
      assert path[1..][i - 1] == path[i] && path[1..][i] == path[i + 1];
    }
  }

  /** Every turn keeps the slot on track, and when the slot moves it moves
      to an orthogonal neighbour it may stand on. */
  lemma StepKeepsTrack(m: Map, s: Slot, rng: Facility.Rng)
    requires Valid(m) && CanStep(m, s) && OnTrack(m, s)
    ensures var r := Step(m, s, rng).0;
            OnTrack(m, r) &&
            (r.position == s.position ||
             (Adjacent(PointOf(s.position), PointOf(r.position)) && IsWalkable(m, r.position.x, r.position.y)))
  {
    var r := Step(m, s, rng).0;
    if Active(s) && s.control.currentPath != [] {
      var walk := [PointOf(s.position)] + s.control.currentPath;
      var next := s.control.currentPath[0];
      assert walk[0] == PointOf(s.position) && walk[1] == next;
      assert Adjacent(walk[0], walk[1]);
      if IsWalkable(m, next.x, next.y) && |s.control.currentPath| > 1 {
        WalkTail(m, walk);
        assert walk[1..] == [PointOf(r.position)] + r.control.currentPath;
      }
    }
  }

  /** Up to `n` ticks of the autopilot on one slot, walking the route it
      already has. It stops early once the route is used up (or the slot is
      not active), where a real tick would plan a new route instead. */
  function Run(m: Map, s: Slot, rng: Facility.Rng, n: nat): (r: Slot)
    requires Valid(m)
    decreases n
  {
    if n == 0 || !Active(s) || s.control.currentPath == [] then s
    else
      var s' := Step(m, s, rng).0;
      Run(m, s', rng, n - 1)
  }

  /** A route whose cells all stay walkable is walked to its end, one cell
      per tick: after as many ticks as it has cells, the slot stands on its
      last cell with nothing left to walk. */
  lemma {:induction false} RunFollowsRoute(m: Map, s: Slot, rng: Facility.Rng)
    requires Valid(m) && Active(s) && s.control.currentPath != []
    requires forall i :: 0 <= i < |s.control.currentPath| ==>
               IsWalkable(m, s.control.currentPath[i].x, s.control.currentPath[i].y)
    ensures var path := s.control.currentPath;
            var r := Run(m, s, rng, |path|);
            PointOf(r.position) == path[|path| - 1] && r.control.currentPath == []
    decreases |s.control.currentPath|
  {
    var path := s.control.currentPath;
    var s' := Step(m, s, rng).0;
    assert s' == Advance(m, s);
    if |path| > 1 {
      assert s'.control.currentPath == path[1..];
      forall i | 0 <= i < |s'.control.currentPath|
        ensures IsWalkable(m, s'.control.currentPath[i].x, s'.control.currentPath[i].y)
      {
        assert s'.control.currentPath[i] == path[i + 1];
      }
      RunFollowsRoute(m, s', rng);
    }
  }

  /** What a turn promises about a slot, whatever the draw: mask, switch
      and status stay; a slot the autopilot ignores is unchanged; a slot
      that must plan stays where it is and gets a route planned to the
      centre of one of the map's rooms; a slot with a route advances along
      it; a slot on track stays on track and moves at most one cell, onto a
      walkable one. */
  ghost predicate Follows(m: Map, s: Slot, s': Slot)
    requires Valid(m)
  {
    s'.mask == s.mask && s'.control.autopilot == s.control.autopilot && s'.control.status == s.control.status &&
    (!Active(s) ==> s' == s) &&
    (NeedsRoute(s) ==>
       s'.position == s.position &&
       exists k :: 0 <= k < |m.rooms| &&
         PlannedTo(m, PointOf(s.position), Center(m.rooms[k]), s'.control.currentPath)) &&
    (Active(s) && s.control.currentPath != [] ==> s' == Advance(m, s)) &&
    (OnTrack(m, s) ==>
       OnTrack(m, s') &&
       (s'.position == s.position ||
        (Adjacent(PointOf(s.position), PointOf(s'.position)) && IsWalkable(m, s'.position.x, s'.position.y))))
  }

  lemma StepFollows(m: Map, s: Slot, rng: Facility.Rng)
    requires Valid(m) && CanStep(m, s)
    ensures Follows(m, s, Step(m, s, rng).0)
  {
    if OnTrack(m, s) {
      StepKeepsTrack(m, s, rng);
    }
    if NeedsRoute(s) {
      var k :| 0 <= k < |m.rooms| && RoomTarget(m, rng) == Center(m.rooms[k]);
      assert PlannedTo(m, PointOf(s.position), Center(m.rooms[k]), Step(m, s, rng).0.control.currentPath);
    }
  }

  /** `ProcessAutopilot`: every slot takes its turn in index order, the
      room draws coming one after another from the same generator. */
  function ProcessAutopilot(m: Map, slots: seq<Slot>, rng: Facility.Rng): (r: (seq<Slot>, Facility.Rng))
    requires Valid(m)
    requires forall i :: 0 <= i < |slots| ==> CanStep(m, slots[i])
    ensures |r.0| == |slots|
    ensures forall i :: 0 <= i < |slots| ==> Follows(m, slots[i], r.0[i])
    decreases |slots|
  {
    if |slots| == 0 then ([], rng)
    else
      var (s0, rng1) := Step(m, slots[0], rng);
      var (rest, rng2) := ProcessAutopilot(m, slots[1..], rng1);
      StepFollows(m, slots[0], rng);
      ([s0] + rest, rng2)
  }
}
