/** Perimeter-ray field of view (`ComputeFOV` and `castRay` in
    internal/world/map.go). */
module Fov {
  import opened Points
  import opened Tiles
  import opened Grid
  import opened Line
  import opened Borders

  /** What a ray does to a tile it reaches. */
  function Lit(t: Tile): Tile {
    t.(visible := true, explored := true)
  }

  predicate OnMap(p: Point, w: int, h: int) {
    0 <= p.x < w && 0 <= p.y < h
  }

  /** How many leading points of a ray get lit: the walk stops before the
      first point off the map, and right after the first point that blocks
      light (that point itself is lit). */
  function RayExtent(pts: seq<Point>, w: int, h: int, blocks: (int, int) -> bool): (n: nat)
    ensures n <= |pts|
    ensures forall k :: 0 <= k < n ==> OnMap(pts[k], w, h)
    ensures forall k :: 0 <= k < n - 1 ==> !blocks(pts[k].x, pts[k].y)
    ensures n < |pts| ==> !OnMap(pts[n], w, h) || (n > 0 && blocks(pts[n - 1].x, pts[n - 1].y))
    decreases |pts|
  {
    if |pts| == 0 || !OnMap(pts[0], w, h) then 0
    else if blocks(pts[0].x, pts[0].y) then 1
    else 1 + RayExtent(pts[1..], w, h, blocks)
  }

  /** Flat indices of the first `n` points. */
  function Indices(pts: seq<Point>, n: nat, w: int): set<int>
    requires n <= |pts|
  {
    set k | 0 <= k < n :: pts[k].x + pts[k].y * w
  }

  /** Lights every tile whose index is in `cells`, leaves the rest alone. */
  function LightAll(tiles: seq<Tile>, cells: set<int>): (r: seq<Tile>)
    ensures |r| == |tiles|
  {
    seq(|tiles|, i requires 0 <= i < |tiles| => if i in cells then Lit(tiles[i]) else tiles[i])
  }

  /** The callback body of `castRay`, applied point by point. */
  function MarkRay(tiles: seq<Tile>, w: int, h: int, pts: seq<Point>, blocks: (int, int) -> bool): (r: seq<Tile>)
    requires w >= 0 && h >= 0 && |tiles| == w * h
    ensures r == LightAll(tiles, Indices(pts, RayExtent(pts, w, h, blocks), w))
    decreases |pts|
  {
    if |pts| == 0 || !OnMap(pts[0], w, h) then
      LightAllNone(tiles);
      tiles
    else
      var p := pts[0];
      var i := p.x + p.y * w;
      IndexInRange(w, h, p.x, p.y);
      var tiles' := tiles[i := Lit(tiles[i])];
      if blocks(p.x, p.y) then
        IndicesCons(pts, 0, w);
        LightOne(tiles, i, {});
        LightAllNone(tiles');
        tiles'
      else
        IndicesCons(pts, RayExtent(pts[1..], w, h, blocks), w);
        LightOne(tiles, i, Indices(pts[1..], RayExtent(pts[1..], w, h, blocks), w));
        MarkRay(tiles', w, h, pts[1..], blocks)
  }

  /** Lighting one tile, then a set of cells, is lighting both. */
  lemma LightOne(tiles: seq<Tile>, i: int, cells: set<int>)
    requires 0 <= i < |tiles|
    ensures LightAll(tiles[i := Lit(tiles[i])], cells) == LightAll(tiles, {i} + cells)
  {
  }

  lemma IndicesCons(pts: seq<Point>, n: nat, w: int)
    requires 1 <= |pts| && n + 1 <= |pts|
    ensures Indices(pts, n + 1, w) == {pts[0].x + pts[0].y * w} + Indices(pts[1..], n, w)
  {
    var a := Indices(pts, n + 1, w);
    var b := {pts[0].x + pts[0].y * w} + Indices(pts[1..], n, w);
    forall i | i in a ensures i in b {
      var k :| 0 <= k < n + 1 && i == pts[k].x + pts[k].y * w;
      if k > 0 {
        assert pts[1..][k - 1] == pts[k];
      }
    }
    forall i | i in b ensures i in a {
      if i != pts[0].x + pts[0].y * w {
        var k :| 0 <= k < n && i == pts[1..][k].x + pts[1..][k].y * w;
        assert pts[1..][k] == pts[k + 1];
      }
    }
  }

  /** The flat indices one ray from `o` toward `t` lights. */
  function RayCells(w: int, h: int, o: Point, t: Point, blocks: (int, int) -> bool): set<int> {
    var pts := GetLine(o.x, o.y, t.x, t.y);
    Indices(pts, RayExtent(pts, w, h, blocks), w)
  }

  /** Casts one ray: walks the Bresenham line from (x1, y1) to (x2, y2). */
  function CastRay(m: Map, x1: int, y1: int, x2: int, y2: int, blocks: (int, int) -> bool): (r: Map)
    requires Valid(m)
    ensures Valid(r) && r.width == m.width && r.height == m.height && r.rooms == m.rooms && r.doors == m.doors
    ensures r.tiles == LightAll(m.tiles, RayCells(m.width, m.height, Point(x1, y1), Point(x2, y2), blocks))
  {
    m.(tiles := MarkRay(m.tiles, m.width, m.height, GetLine(x1, y1, x2, y2), blocks))
  }

  /** Lighting a set of cells and then another is lighting their union:
      lighting a tile twice is the same as lighting it once. */
  lemma LightAllTwice(tiles: seq<Tile>, a: set<int>, b: set<int>)
    ensures LightAll(LightAll(tiles, a), b) == LightAll(tiles, a + b)
  {
  }

  lemma LightAllNone(tiles: seq<Tile>)
    ensures LightAll(tiles, {}) == tiles
  {
  }

  /** The cells lit by rays from `o` toward each of `targets`. */
  function RaysCells(w: int, h: int, o: Point, targets: seq<Point>, blocks: (int, int) -> bool): set<int>
    decreases |targets|
  {
    if |targets| == 0 then {}
    else RayCells(w, h, o, targets[0], blocks) + RaysCells(w, h, o, targets[1..], blocks)
  }

  /** A cell is lit by a batch of rays exactly when one of them lights it. */
  lemma {:induction false} RaysCellsMembers(w: int, h: int, o: Point, targets: seq<Point>, blocks: (int, int) -> bool, i: int)
    ensures i in RaysCells(w, h, o, targets, blocks) <==> exists t :: t in targets && i in RayCells(w, h, o, t, blocks)
    decreases |targets|
  {
    if |targets| > 0 {
      RaysCellsMembers(w, h, o, targets[1..], blocks, i);
      if i in RaysCells(w, h, o, targets[1..], blocks) {
        var t :| t in targets[1..] && i in RayCells(w, h, o, t, blocks);
        assert t in targets;
      }
      forall t | t in targets && i in RayCells(w, h, o, t, blocks)
        ensures i in RaysCells(w, h, o, targets, blocks)
      {
        if t != targets[0] {
          assert t in targets[1..];
        }
      }
    }
  }

  /** Casts one ray toward each target in turn. */
  function CastRays(m: Map, o: Point, targets: seq<Point>, blocks: (int, int) -> bool): (r: Map)
    requires Valid(m)
    ensures Valid(r) && r.width == m.width && r.height == m.height && r.rooms == m.rooms && r.doors == m.doors
    ensures r.tiles == LightAll(m.tiles, RaysCells(m.width, m.height, o, targets, blocks))
    decreases |targets|
  {
    if |targets| == 0 then
      LightAllNone(m.tiles);
      m
    else
      var t := targets[0];
      var m' := CastRay(m, o.x, o.y, t.x, t.y, blocks);
      LightAllTwice(m.tiles, RayCells(m.width, m.height, o, t, blocks), RaysCells(m.width, m.height, o, targets[1..], blocks));
      CastRays(m', o, targets[1..], blocks)
  }

  /** The clamped square around the viewer. */
  datatype Square = Square(minX: int, maxX: int, minY: int, maxY: int)

  function FovSquare(w: int, h: int, px: int, py: int, radius: int): Square {
    Square(Max(0, px - radius), Min(w - 1, px + radius), Max(0, py - radius), Min(h - 1, py + radius))
  }

  /** Every ray target, in the order the rays are cast. */
  function Perimeter(s: Square): seq<Point> {
    TopBottom(s.minX, s.maxX, s.minY, s.maxY) + LeftRight(s.minY, s.maxY, s.minX, s.maxX)
  }

  /** The rays go to exactly the cells on the border of the square: the top
      and bottom rows and the left and right columns. */
  lemma PerimeterMembers(s: Square, t: Point)
    ensures t in Perimeter(s) <==>
      || (s.minX <= t.x <= s.maxX && (t.y == s.minY || t.y == s.maxY))
      || (s.minY <= t.y <= s.maxY && (t.x == s.minX || t.x == s.maxX))
  {
    TopBottomMembers(s.minX, s.maxX, s.minY, s.maxY, t);
    LeftRightMembers(s.minY, s.maxY, s.minX, s.maxX, t);
  }

  /** The cells some ray of a field-of-view pass lights. */
  function FovCells(w: int, h: int, px: int, py: int, radius: int, blocks: (int, int) -> bool): set<int> {
    RaysCells(w, h, Point(px, py), Perimeter(FovSquare(w, h, px, py, radius)), blocks)
  }

  /** A tile with its two visibility flags cleared: what a field-of-view
      pass must leave alone. */
  function Plain(t: Tile): Tile {
    t.(visible := false, explored := false)
  }

  function ClearVisible(tiles: seq<Tile>): (r: seq<Tile>)
    ensures |r| == |tiles|
    ensures forall i :: 0 <= i < |r| ==> r[i] == tiles[i].(visible := false)
  {
    seq(|tiles|, i requires 0 <= i < |tiles| => tiles[i].(visible := false))
  }

  /** Recomputes visibility from (px, py): clears every Visible flag, casts
      rays to the border of the clamped square, then marks the viewer's own
      tile visible. The last write is unchecked in the source, so the
      viewer's flat index must lie in the tile array. */
  function ComputeFov(m: Map, px: int, py: int, radius: int, blocks: (int, int) -> bool): (r: Map)
    requires Valid(m) && 0 <= px + py * m.width < |m.tiles|
    ensures Valid(r) && r.width == m.width && r.height == m.height && r.rooms == m.rooms && r.doors == m.doors
    ensures r.tiles == Relit(m.tiles, px + py * m.width, FovCells(m.width, m.height, px, py, radius, blocks))
  {
    var cleared := m.(tiles := ClearVisible(m.tiles));
    var lit := CastRays(cleared, Point(px, py), Perimeter(FovSquare(m.width, m.height, px, py, radius)), blocks);
    var o := px + py * m.width;
    lit.(tiles := lit.tiles[o := lit.tiles[o].(visible := true)])
  }

  /** What a field-of-view pass makes of the tiles, given the cells its rays
      light and the viewer's index o: a tile is visible exactly when it is
      o or lit; explored when it was explored before or is lit; and
      otherwise as it was. When o itself is lit, every visible tile is
      explored. */
  function Relit(tiles: seq<Tile>, o: int, cells: set<int>): (r: seq<Tile>)
    requires 0 <= o < |tiles|
    ensures |r| == |tiles|
    ensures r[o].visible
    ensures forall i :: 0 <= i < |r| && i != o ==> (r[i].visible <==> i in cells)
    ensures forall i :: 0 <= i < |r| ==> (r[i].explored <==> tiles[i].explored || i in cells)
    ensures forall i :: 0 <= i < |r| ==> Plain(r[i]) == Plain(tiles[i])
    ensures o in cells ==> forall i :: 0 <= i < |r| && r[i].visible ==> r[i].explored
  {
    var lit := LightAll(ClearVisible(tiles), cells);
    lit[o := lit[o].(visible := true)]
  }

  /** Along one ray, a cell of the map is lit exactly when it comes no later
      than where the ray stops; a cell that blocks light is the last one lit. */
  lemma RayLightsPrefix(w: int, h: int, o: Point, t: Point, blocks: (int, int) -> bool, k: int)
    requires var pts := GetLine(o.x, o.y, t.x, t.y); 0 <= k < |pts| && OnMap(pts[k], w, h)
    ensures var pts := GetLine(o.x, o.y, t.x, t.y);
      var n := RayExtent(pts, w, h, blocks);
      && (pts[k].x + pts[k].y * w in RayCells(w, h, o, t, blocks) <==> k < n)
      && (k < n && blocks(pts[k].x, pts[k].y) ==> k == n - 1)
  {
    var pts := GetLine(o.x, o.y, t.x, t.y);
    GetLineDistinct(o.x, o.y, t.x, t.y);
    IndicesMember(pts, RayExtent(pts, w, h, blocks), w, h, k);
  }

  /** On a line with no repeated point, the flat index of a map cell is
      among the first n indices exactly when the cell is among the first n
      points. */
  lemma IndicesMember(pts: seq<Point>, n: nat, w: int, h: int, k: int)
    requires n <= |pts| && 0 <= k < |pts| && OnMap(pts[k], w, h)
    requires forall j :: 0 <= j < n ==> OnMap(pts[j], w, h)
    requires forall i, j :: 0 <= i < j < |pts| ==> pts[i] != pts[j]
    ensures pts[k].x + pts[k].y * w in Indices(pts, n, w) <==> k < n
  {
    if pts[k].x + pts[k].y * w in Indices(pts, n, w) {
      var k' :| 0 <= k' < n && pts[k].x + pts[k].y * w == pts[k'].x + pts[k'].y * w;
      IndexInjective(w, pts[k].x, pts[k].y, pts[k'].x, pts[k'].y);
      assert pts[k] == pts[k'];
    }
  }

  /** Once a ray reaches a cell that blocks light, no cell after it on that
      ray is lit by it. */
  lemma RayStopsAtBlocker(w: int, h: int, o: Point, t: Point, blocks: (int, int) -> bool, k: int, j: int)
    requires var pts := GetLine(o.x, o.y, t.x, t.y);
      && 0 <= k < j < |pts| && OnMap(pts[k], w, h) && OnMap(pts[j], w, h)
      && pts[k].x + pts[k].y * w in RayCells(w, h, o, t, blocks) && blocks(pts[k].x, pts[k].y)
    ensures var pts := GetLine(o.x, o.y, t.x, t.y);
      pts[j].x + pts[j].y * w !in RayCells(w, h, o, t, blocks)
  {
    RayLightsPrefix(w, h, o, t, blocks, k);
    RayLightsPrefix(w, h, o, t, blocks, j);
  }

  predicate InSquare(p: Point, s: Square) {
    s.minX <= p.x <= s.maxX && s.minY <= p.y <= s.maxY
  }

  /** A ray between two cells of a square lights only cells of that square. */
  lemma RayCellsInSquare(w: int, h: int, o: Point, t: Point, blocks: (int, int) -> bool, s: Square, i: int)
    requires InSquare(o, s) && InSquare(t, s)
    requires i in RayCells(w, h, o, t, blocks)
    ensures w > 0 && 0 <= i < w * h && InSquare(Point(i % w, i / w), s)
  {
    var pts := GetLine(o.x, o.y, t.x, t.y);
    var k :| 0 <= k < RayExtent(pts, w, h, blocks) && i == pts[k].x + pts[k].y * w;
    var p := pts[k];
    assert OnMap(p, w, h) && InBox(p, o.x, o.y, t.x, t.y);
    IndexInRange(w, h, p.x, p.y);
    IndexDecode(w, p.x, p.y);
  }

  /** With the viewer on the map and a non-negative radius, every tile left
      visible lies inside the clamped square around the viewer. */
  lemma FovVisibleInSquare(m: Map, px: int, py: int, radius: int, blocks: (int, int) -> bool)
    requires Valid(m) && InBounds(m, px, py) && radius >= 0
    ensures 0 <= px + py * m.width < |m.tiles|
    ensures var r := ComputeFov(m, px, py, radius, blocks);
      var s := FovSquare(m.width, m.height, px, py, radius);
      forall i :: 0 <= i < |r.tiles| && r.tiles[i].visible ==> InSquare(Point(i % m.width, i / m.width), s)
  {
    IndexInRange(m.width, m.height, px, py);
    forall i | 0 <= i < |m.tiles| && ComputeFov(m, px, py, radius, blocks).tiles[i].visible
      ensures InSquare(Point(i % m.width, i / m.width), FovSquare(m.width, m.height, px, py, radius))
    {
      VisibleCell(m, px, py, radius, blocks, i);
      LitCellInSquare(m, px, py, radius, blocks, i);
    }
  }

  /** The viewer's own cell and every cell a ray lights lie in the square. */
  lemma LitCellInSquare(m: Map, px: int, py: int, radius: int, blocks: (int, int) -> bool, i: int)
    requires Valid(m) && InBounds(m, px, py) && radius >= 0
    requires i == px + py * m.width || i in FovCells(m.width, m.height, px, py, radius, blocks)
    ensures InSquare(Point(i % m.width, i / m.width), FovSquare(m.width, m.height, px, py, radius))
  {
    if i == px + py * m.width {
      ViewerInSquare(m, px, py, radius);
    } else {
      FovCellsInSquare(m.width, m.height, px, py, radius, blocks, i);
    }
  }

  /** A tile is visible after the pass only if it is the viewer's own or some
      ray lit it. */
  lemma VisibleCell(m: Map, px: int, py: int, radius: int, blocks: (int, int) -> bool, i: int)
    requires Valid(m) && 0 <= px + py * m.width < |m.tiles|
    requires 0 <= i < |m.tiles|
    ensures ComputeFov(m, px, py, radius, blocks).tiles[i].visible ==>
      i == px + py * m.width || i in FovCells(m.width, m.height, px, py, radius, blocks)
  {
  }

  lemma ViewerInSquare(m: Map, px: int, py: int, radius: int)
    requires Valid(m) && InBounds(m, px, py) && radius >= 0
    ensures InSquare(Point((px + py * m.width) % m.width, (px + py * m.width) / m.width), FovSquare(m.width, m.height, px, py, radius))
  {
    IndexDecode(m.width, px, py);
  }

  lemma FovCellsInSquare(w: int, h: int, px: int, py: int, radius: int, blocks: (int, int) -> bool, i: int)
    requires 0 <= px < w && 0 <= py < h && radius >= 0
    requires i in FovCells(w, h, px, py, radius, blocks)
    ensures InSquare(Point(i % w, i / w), FovSquare(w, h, px, py, radius))
  {
    var s := FovSquare(w, h, px, py, radius);
    var o := Point(px, py);
    RaysCellsMembers(w, h, o, Perimeter(s), blocks, i);
    var t :| t in Perimeter(s) && i in RayCells(w, h, o, t, blocks);
    PerimeterMembers(s, t);
    RayCellsInSquare(w, h, o, t, blocks, s, i);
  }

  /** With the viewer on the map and a non-negative radius, every visible
      tile is also explored: the viewer's own tile is the first cell of
      every ray. */
  lemma FovVisibleExplored(m: Map, px: int, py: int, radius: int, blocks: (int, int) -> bool)
    requires Valid(m) && InBounds(m, px, py) && radius >= 0
    ensures 0 <= px + py * m.width < |m.tiles|
    ensures var r := ComputeFov(m, px, py, radius, blocks);
      forall i :: 0 <= i < |r.tiles| && r.tiles[i].visible ==> r.tiles[i].explored
  {
    IndexInRange(m.width, m.height, px, py);
    ViewerLit(m.width, m.height, px, py, radius, blocks);
  }

  /** Some ray lights the viewer's own cell: the first point of every ray. */
  lemma ViewerLit(w: int, h: int, px: int, py: int, radius: int, blocks: (int, int) -> bool)
    requires 0 <= px < w && 0 <= py < h && radius >= 0
    ensures px + py * w in FovCells(w, h, px, py, radius, blocks)
  {
    var s := FovSquare(w, h, px, py, radius);
    var o := Point(px, py);
    var t := Point(s.minX, s.minY);
    PerimeterMembers(s, t);
    var pts := GetLine(o.x, o.y, t.x, t.y);
    assert pts[0] == o && OnMap(o, w, h);
    assert 0 < RayExtent(pts, w, h, blocks);
    assert px + py * w in RayCells(w, h, o, t, blocks);
    RaysCellsMembers(w, h, o, Perimeter(s), blocks, px + py * w);
  }

  /** The light blocker the repository's callers pass: a cell blocks light
      when it is not walkable (off-map cells count as blocking). */
  function BlocksUnwalkable(m: Map): (int, int) -> bool {
    (x, y) => !(Valid(m) && IsWalkable(m, x, y))
  }

  /** A 7 by 5 floor with a single wall at (3, 2). */
  function WallTestMap(): (m: Map)
    ensures Valid(m) && m.width == 7 && m.height == 5
    ensures forall i :: 0 <= i < |m.tiles| ==> !m.tiles[i].visible && (m.tiles[i].walkable <==> i != 17)
  {
    var tiles := seq(35, i => if i == 17 then WallTile else FloorTile(0));
    assert forall i :: 0 <= i < 35 ==> tiles[i] == if i == 17 then WallTile else FloorTile(0);
    Map(tiles, [], [], 7, 5)
  }

  lemma WallTestBlocks()
    ensures var b := BlocksUnwalkable(WallTestMap());
      !b(0, 2) && !b(1, 2) && !b(2, 2) && b(3, 2)
  {
    var m := WallTestMap();
    assert TileAt(m, 0, 2) == TileAt(m, 1, 2) == TileAt(m, 2, 2) == FloorTile(0);
    assert TileAt(m, 3, 2) == WallTile;
  }

  lemma WallTestExtent()
    ensures RayExtent(GetLine(0, 2, 6, 2), 7, 5, BlocksUnwalkable(WallTestMap())) == 4
  {
    var b := BlocksUnwalkable(WallTestMap());
    WallTestBlocks();
    var tail := [Point(4, 2), Point(5, 2), Point(6, 2)];
    var p3 := [Point(3, 2)] + tail;
    var p2 := [Point(2, 2)] + p3;
    var p1 := [Point(1, 2)] + p2;
    var p0 := [Point(0, 2)] + p1;
    assert RayExtent(p3, 7, 5, b) == 1;
    assert p2[1..] == p3;
    assert RayExtent(p2, 7, 5, b) == 2;
    assert p1[1..] == p2;
    assert RayExtent(p1, 7, 5, b) == 3;
    assert p0[1..] == p1;
    assert RayExtent(p0, 7, 5, b) == 4;
    GetLineHorizontalExample();
    assert GetLine(0, 2, 6, 2) == p0;
  }

  lemma WallTestCells()
    ensures var cells := RayCells(7, 5, Point(0, 2), Point(6, 2), BlocksUnwalkable(WallTestMap()));
      14 in cells && 17 in cells && 18 !in cells
  {
    var b := BlocksUnwalkable(WallTestMap());
    GetLineHorizontalExample();
    WallTestExtent();
    RayLightsPrefix(7, 5, Point(0, 2), Point(6, 2), b, 0);
    RayLightsPrefix(7, 5, Point(0, 2), Point(6, 2), b, 3);
    RayLightsPrefix(7, 5, Point(0, 2), Point(6, 2), b, 4);
  }

  /** A ray along row 2 from (0, 2) toward (6, 2) lights its start and the
      wall at (3, 2), and not the cell (4, 2) behind the wall. */
  lemma CastRayWallExample()
    ensures var m := WallTestMap();
      var r := CastRay(m, 0, 2, 6, 2, BlocksUnwalkable(m));
      r.tiles[0 + 2 * 7].visible && r.tiles[3 + 2 * 7].visible && !r.tiles[4 + 2 * 7].visible
  {
    WallTestCells();
  }
}
