/** Procedural facility generation (internal/world/facility.go): rooms of
    random size and position carved out of solid wall, joined by L-shaped
    corridors, then wall auto-tiling and doorway detection. */
module Facility {
  import opened Points
  import opened Rects
  import opened Tiles
  import opened Grid
  import opened Borders
  import opened Wrappers
  import opened Seqs

  const MaxRooms := 50
  const RoomMinSize := 4
  const RoomMaxSize := 10

  /** The random source: an endless stream of draws read from `pos` on. The
      generator relies only on each bounded draw landing in its range, so
      the stream itself is left abstract. */
  datatype Rng = Rng(draw: nat -> nat, pos: nat)

  /** `b` is the same stream as `a`, read no earlier: Go's generator holds a
      pointer to one `rand.Rand`, so every draw moves the shared stream on. */
  ghost predicate Continues(a: Rng, b: Rng) {
    b.draw == a.draw && a.pos <= b.pos
  }

  /** `rng.IntN(n)`: one draw in [0, n). Go panics when `n <= 0`. */
  function IntN(rng: Rng, n: int): (r: (int, Rng))
    requires n > 0
    ensures 0 <= r.0 < n
    ensures r.1.pos == rng.pos + 1 && r.1.draw == rng.draw
  {
    (rng.draw(rng.pos) % n, Rng(rng.draw, rng.pos + 1))
  }

  /** `randomBetween`: a draw in [lo, hi], both ends included. */
  function RandomBetween(rng: Rng, lo: int, hi: int): (r: (int, Rng))
    requires lo <= hi
    ensures lo <= r.0 <= hi
    ensures r.1.pos == rng.pos + 1 && r.1.draw == rng.draw
  {
    var (v, rng') := IntN(rng, hi - lo + 1);
    (v + lo, rng')
  }

  /** Every value of the range is reachable: the draw `v - lo` yields `v`. */
  lemma RandomBetweenReaches(rng: Rng, lo: int, hi: int, v: int)
    requires lo <= v <= hi && rng.draw(rng.pos) == v - lo
    ensures RandomBetween(rng, lo, hi).0 == v
  {
    assert (v - lo) % (hi - lo + 1) == v - lo;
  }

  /** A tile `carveFloor` writes: walkable floor with texture 0 to 4. */
  predicate Carved(t: Tile) {
    t == FloorTile(t.variant) && t.variant <= 4
  }

  /** The same map apart from its tiles. */
  predicate SameShape(m: Map, r: Map) {
    Valid(m) && Valid(r) && r.width == m.width && r.height == m.height && r.rooms == m.rooms && r.doors == m.doors
  }

  /** `carveFloor`: one draw decides between the plain floor (8 in 10) and a
      second draw picking texture 1 to 4. The write is `SetTile`, unchecked,
      so only the flat index must be in range. */
  function CarveFloor(m: Map, rng: Rng, x: int, y: int): (r: (Map, Rng))
    requires Valid(m) && 0 <= x + y * m.width < |m.tiles|
    ensures SameShape(m, r.0)
    ensures Carved(r.0.tiles[x + y * m.width])
    ensures forall i :: 0 <= i < |m.tiles| && i != x + y * m.width ==> r.0.tiles[i] == m.tiles[i]
    ensures rng.pos < r.1.pos && r.1.draw == rng.draw
  {
    var (roll, rng1) := IntN(rng, 10);
    if roll < 2 then
      var (v, rng2) := IntN(rng1, 4);
      (SetTile(m, x, y, FloorTile(v + 1)), rng2)
    else
      (SetTile(m, x, y, FloorTile(0)), rng1)
  }

  /** The plain floor comes exactly from a first draw of 2 or more. */
  lemma CarveFloorPlain(m: Map, rng: Rng, x: int, y: int)
    requires Valid(m) && 0 <= x + y * m.width < |m.tiles|
    ensures CarveFloor(m, rng, x, y).0.tiles[x + y * m.width].variant == 0 <==> rng.draw(rng.pos) % 10 >= 2
  {
  }

  /** Coordinate form of `CarveFloor` on an in-bounds cell. */
  lemma CarveFloorAt(m: Map, rng: Rng, x: int, y: int)
    requires Valid(m) && InBounds(m, x, y)
    ensures 0 <= x + y * m.width < |m.tiles|
    ensures var r := CarveFloor(m, rng, x, y).0;
      && Carved(TileAt(r, x, y))
      && forall cx, cy :: InBounds(m, cx, cy) && (cx != x || cy != y) ==> TileAt(r, cx, cy) == TileAt(m, cx, cy)
  {
    IndexInRange(m.width, m.height, x, y);
    var r := CarveFloor(m, rng, x, y).0;
    forall cx, cy | InBounds(m, cx, cy) && (cx != x || cy != y)
      ensures TileAt(r, cx, cy) == TileAt(m, cx, cy)
    {
      IndexInRange(m.width, m.height, cx, cy);
      if cx + cy * m.width == x + y * m.width {
        IndexInjective(m.width, cx, cy, x, y);
      }
    }
  }

  /** Carves row `y` from column `x` to column `x2`, left to right. */
  function CarveRow(m: Map, rng: Rng, x: int, x2: int, y: int): (r: (Map, Rng))
    requires Valid(m) && 0 <= y < m.height && (x <= x2 ==> 0 <= x && x2 < m.width)
    ensures SameShape(m, r.0)
    ensures forall cx :: x <= cx <= x2 ==> Carved(TileAt(r.0, cx, y))
    ensures forall cx, cy :: InBounds(m, cx, cy) && (cy != y || cx < x || x2 < cx) ==> TileAt(r.0, cx, cy) == TileAt(m, cx, cy)
    ensures Continues(rng, r.1)
    decreases x2 - x
  {
    if x > x2 then (m, rng)
    else
      CarveFloorAt(m, rng, x, y);
      var (m1, rng1) := CarveFloor(m, rng, x, y);
      CarveRow(m1, rng1, x + 1, x2, y)
  }

  /** Carves column `x` from row `y` to row `y2`, top to bottom. */
  function CarveColumn(m: Map, rng: Rng, y: int, y2: int, x: int): (r: (Map, Rng))
    requires Valid(m) && 0 <= x < m.width && (y <= y2 ==> 0 <= y && y2 < m.height)
    ensures SameShape(m, r.0)
    ensures forall cy :: y <= cy <= y2 ==> Carved(TileAt(r.0, x, cy))
    ensures forall cx, cy :: InBounds(m, cx, cy) && (cx != x || cy < y || y2 < cy) ==> TileAt(r.0, cx, cy) == TileAt(m, cx, cy)
    ensures Continues(rng, r.1)
    decreases y2 - y
  {
    if y > y2 then (m, rng)
    else
      CarveFloorAt(m, rng, x, y);
      var (m1, rng1) := CarveFloor(m, rng, x, y);
      CarveColumn(m1, rng1, y + 1, y2, x)
  }

  /** `createHorizontalCorridor`: carves row `y` between columns `x1` and
      `x2`, whichever order they come in. */
  function HorizontalCorridor(m: Map, rng: Rng, x1: int, x2: int, y: int): (r: (Map, Rng))
    requires Valid(m) && 0 <= x1 < m.width && 0 <= x2 < m.width && 0 <= y < m.height
    ensures SameShape(m, r.0)
    ensures forall cx :: Min(x1, x2) <= cx <= Max(x1, x2) ==> Carved(TileAt(r.0, cx, y))
    ensures forall cx, cy :: InBounds(m, cx, cy) && (cy != y || cx < Min(x1, x2) || Max(x1, x2) < cx) ==>
      TileAt(r.0, cx, cy) == TileAt(m, cx, cy)
    ensures Continues(rng, r.1)
  {
    if x1 > x2 then CarveRow(m, rng, x2, x1, y) else CarveRow(m, rng, x1, x2, y)
  }

  /** `createVerticalCorridor`: carves column `x` between rows `y1` and `y2`. */
  function VerticalCorridor(m: Map, rng: Rng, y1: int, y2: int, x: int): (r: (Map, Rng))
    requires Valid(m) && 0 <= y1 < m.height && 0 <= y2 < m.height && 0 <= x < m.width
    ensures SameShape(m, r.0)
    ensures forall cy :: Min(y1, y2) <= cy <= Max(y1, y2) ==> Carved(TileAt(r.0, x, cy))
    ensures forall cx, cy :: InBounds(m, cx, cy) && (cx != x || cy < Min(y1, y2) || Max(y1, y2) < cy) ==>
      TileAt(r.0, cx, cy) == TileAt(m, cx, cy)
    ensures Continues(rng, r.1)
  {
    if y1 > y2 then CarveColumn(m, rng, y2, y1, x) else CarveColumn(m, rng, y1, y2, x)
  }

  /** Carves the columns `rx` to `room.x2` of a room, each top to bottom:
      the nested loop of `Generate` that carves a new room. */
  function CarveRoomFrom(m: Map, rng: Rng, rx: int, room: Rect): (r: (Map, Rng))
    requires Valid(m) && Fits(room, m.width, m.height) && room.x1 <= rx
    ensures SameShape(m, r.0)
    ensures forall x, y :: rx <= x <= room.x2 && room.y1 <= y <= room.y2 ==> Carved(TileAt(r.0, x, y))
    ensures forall x, y :: InBounds(m, x, y) && !(rx <= x <= room.x2 && room.y1 <= y <= room.y2) ==>
      TileAt(r.0, x, y) == TileAt(m, x, y)
    ensures Continues(rng, r.1)
    decreases room.x2 - rx
  {
    if rx > room.x2 then (m, rng)
    else
      var (m1, rng1) := CarveColumn(m, rng, room.y1, room.y2, rx);
      CarveRoomFrom(m1, rng1, rx + 1, room)
  }

  /** Carves every cell of a room, column by column. */
  function CarveRoom(m: Map, rng: Rng, room: Rect): (r: (Map, Rng))
    requires Valid(m) && Fits(room, m.width, m.height)
    ensures OnlyCarves(m, r.0) && RoomCarved(r.0, room)
    ensures forall x, y :: InBounds(m, x, y) && !(room.x1 <= x <= room.x2 && room.y1 <= y <= room.y2) ==>
      TileAt(r.0, x, y) == TileAt(m, x, y)
    ensures Continues(rng, r.1)
  {
    CarveRoomFrom(m, rng, room.x1, room)
  }

  /** A room lies on the map with its size in the generator's range. */
  predicate Fits(room: Rect, w: int, h: int) {
    && 0 <= room.x1 && room.x2 <= w - 1 && 0 <= room.y1 && room.y2 <= h - 1
    && RoomMinSize <= Width(room) <= RoomMaxSize && RoomMinSize <= Height(room) <= RoomMaxSize
  }

  /** Every cell of the room, borders included, is carved floor. */
  predicate RoomCarved(m: Map, room: Rect)
    requires Valid(m)
  {
    forall x, y :: room.x1 <= x <= room.x2 && room.y1 <= y <= room.y2 ==> InBounds(m, x, y) && Carved(TileAt(m, x, y))
  }

  /** Every cell of row `y` between columns `x1` and `x2` is carved floor. */
  predicate RowCarved(m: Map, x1: int, x2: int, y: int)
    requires Valid(m)
  {
    forall x :: Min(x1, x2) <= x <= Max(x1, x2) ==> InBounds(m, x, y) && Carved(TileAt(m, x, y))
  }

  /** Every cell of column `x` between rows `y1` and `y2` is carved floor. */
  predicate ColumnCarved(m: Map, y1: int, y2: int, x: int)
    requires Valid(m)
  {
    forall y :: Min(y1, y2) <= y <= Max(y1, y2) ==> InBounds(m, x, y) && Carved(TileAt(m, x, y))
  }

  /** `a` and `b` are joined by a carved L: along a's row then b's column,
      or along a's column then b's row. */
  predicate Joined(m: Map, a: Point, b: Point)
    requires Valid(m)
  {
    || (RowCarved(m, a.x, b.x, a.y) && ColumnCarved(m, a.y, b.y, b.x))
    || (ColumnCarved(m, a.y, b.y, a.x) && RowCarved(m, a.x, b.x, b.y))
  }

  /** `r` differs from `m` only by cells that are now carved floor. */
  ghost predicate OnlyCarves(m: Map, r: Map) {
    SameShape(m, r) && forall x, y :: InBounds(m, x, y) ==> TileAt(r, x, y) == TileAt(m, x, y) || Carved(TileAt(r, x, y))
  }

  /** Every carved cell of `m` is still carved in `r`. */
  ghost predicate KeepsCarved(m: Map, r: Map) {
    && Valid(m) && Valid(r) && r.width == m.width && r.height == m.height
    && forall x, y :: InBounds(m, x, y) && Carved(TileAt(m, x, y)) ==> Carved(TileAt(r, x, y))
  }

  /** Carving never undoes carving, and leaves the rest solid wall. */
  lemma OnlyCarvesKeeps(m: Map, r: Map)
    requires OnlyCarves(m, r)
    ensures KeepsCarved(m, r)
    ensures WallOrCarved(m) ==> WallOrCarved(r)
  {
    if WallOrCarved(m) {
      forall x, y | InBounds(r, x, y) ensures TileAt(r, x, y) == WallTile || Carved(TileAt(r, x, y)) {
        assert TileAt(m, x, y) == WallTile || Carved(TileAt(m, x, y));
      }
    }
  }

  /** Rooms and corridors once carved stay carved. */
  lemma CarvedStays(m: Map, r: Map, a: Point, b: Point, room: Rect)
    requires KeepsCarved(m, r)
    ensures Joined(m, a, b) ==> Joined(r, a, b)
    ensures RoomCarved(m, room) ==> RoomCarved(r, room)
  {
    if RoomCarved(m, room) {
      forall x, y | room.x1 <= x <= room.x2 && room.y1 <= y <= room.y2
        ensures InBounds(r, x, y) && Carved(TileAt(r, x, y))
      {
        assert Carved(TileAt(m, x, y));
      }
    }
    if Joined(m, a, b) {
      CarvedStaysLine(m, r, a, b);
    }
  }

  lemma CarvedStaysLine(m: Map, r: Map, a: Point, b: Point)
    requires KeepsCarved(m, r)
    ensures RowCarved(m, a.x, b.x, a.y) ==> RowCarved(r, a.x, b.x, a.y)
    ensures ColumnCarved(m, a.y, b.y, b.x) ==> ColumnCarved(r, a.y, b.y, b.x)
    ensures ColumnCarved(m, a.y, b.y, a.x) ==> ColumnCarved(r, a.y, b.y, a.x)
    ensures RowCarved(m, a.x, b.x, b.y) ==> RowCarved(r, a.x, b.x, b.y)
  {
    if RowCarved(m, a.x, b.x, a.y) {
      forall x | Min(a.x, b.x) <= x <= Max(a.x, b.x) ensures InBounds(r, x, a.y) && Carved(TileAt(r, x, a.y)) {
        assert Carved(TileAt(m, x, a.y));
      }
    }
    if RowCarved(m, a.x, b.x, b.y) {
      forall x | Min(a.x, b.x) <= x <= Max(a.x, b.x) ensures InBounds(r, x, b.y) && Carved(TileAt(r, x, b.y)) {
        assert Carved(TileAt(m, x, b.y));
      }
    }
    if ColumnCarved(m, a.y, b.y, a.x) {
      forall y | Min(a.y, b.y) <= y <= Max(a.y, b.y) ensures InBounds(r, a.x, y) && Carved(TileAt(r, a.x, y)) {
        assert Carved(TileAt(m, a.x, y));
      }
    }
    if ColumnCarved(m, a.y, b.y, b.x) {
      forall y | Min(a.y, b.y) <= y <= Max(a.y, b.y) ensures InBounds(r, b.x, y) && Carved(TileAt(r, b.x, y)) {
        assert Carved(TileAt(m, b.x, y));
      }
    }
  }

  lemma OnlyCarvesTrans(m1: Map, m2: Map, m3: Map)
    requires OnlyCarves(m1, m2) && OnlyCarves(m2, m3)
    ensures OnlyCarves(m1, m3)
  {
  }

  /** Joins the centres of the previous room and the new one with an L of
      corridor; one draw picks horizontal-first (1) or vertical-first (0). */
  function Link(m: Map, rng: Rng, prev: Rect, next: Rect): (r: (Map, Rng))
    requires Valid(m) && Fits(prev, m.width, m.height) && Fits(next, m.width, m.height)
    ensures OnlyCarves(m, r.0)
    ensures Joined(r.0, Center(prev), Center(next))
    ensures Continues(rng, r.1)
  {
    var a, b := Center(prev), Center(next);
    var (coin, rng1) := IntN(rng, 2);
    if coin == 1 then
      var (m1, rng2) := HorizontalCorridor(m, rng1, a.x, b.x, a.y);
      var (m2, rng3) := VerticalCorridor(m1, rng2, a.y, b.y, b.x);
      RowThenColumn(m, rng1, a, b);
      (m2, rng3)
    else
      var (m1, rng2) := VerticalCorridor(m, rng1, a.y, b.y, a.x);
      var (m2, rng3) := HorizontalCorridor(m1, rng2, a.x, b.x, b.y);
      ColumnThenRow(m, rng1, a, b);
      (m2, rng3)
  }

  /** Horizontal first: a's row, then b's column. */
  lemma RowThenColumn(m: Map, rng: Rng, a: Point, b: Point)
    requires Valid(m) && InBounds(m, a.x, a.y) && InBounds(m, b.x, b.y)
    ensures var (m1, rng1) := HorizontalCorridor(m, rng, a.x, b.x, a.y);
            var m2 := VerticalCorridor(m1, rng1, a.y, b.y, b.x).0;
            OnlyCarves(m, m2) && RowCarved(m2, a.x, b.x, a.y) && ColumnCarved(m2, a.y, b.y, b.x)
  {
    var (m1, rng1) := HorizontalCorridor(m, rng, a.x, b.x, a.y);
    var m2 := VerticalCorridor(m1, rng1, a.y, b.y, b.x).0;
    forall x | Min(a.x, b.x) <= x <= Max(a.x, b.x)
      ensures InBounds(m2, x, a.y) && Carved(TileAt(m2, x, a.y))
    {
      assert Carved(TileAt(m1, x, a.y));
    }
    OnlyCarvesTrans(m, m1, m2);
  }

  /** Vertical first: a's column, then b's row. */
  lemma ColumnThenRow(m: Map, rng: Rng, a: Point, b: Point)
    requires Valid(m) && InBounds(m, a.x, a.y) && InBounds(m, b.x, b.y)
    ensures var (m1, rng1) := VerticalCorridor(m, rng, a.y, b.y, a.x);
            var m2 := HorizontalCorridor(m1, rng1, a.x, b.x, b.y).0;
            OnlyCarves(m, m2) && ColumnCarved(m2, a.y, b.y, a.x) && RowCarved(m2, a.x, b.x, b.y)
  {
    var (m1, rng1) := VerticalCorridor(m, rng, a.y, b.y, a.x);
    var m2 := HorizontalCorridor(m1, rng1, a.x, b.x, b.y).0;
    forall y | Min(a.y, b.y) <= y <= Max(a.y, b.y)
      ensures InBounds(m2, a.x, y) && Carved(TileAt(m2, a.x, y))
    {
      assert Carved(TileAt(m1, a.x, y));
    }
    OnlyCarvesTrans(m, m1, m2);
  }

  /** Every cell is still solid wall or has been carved. */
  ghost predicate WallOrCarved(m: Map)
    requires Valid(m)
  {
    forall x, y :: InBounds(m, x, y) ==> TileAt(m, x, y) == WallTile || Carved(TileAt(m, x, y))
  }

  /** `Rect.Intersects` against each accepted room in turn. */
  function AnyIntersects(room: Rect, rooms: seq<Rect>): (overlaps: bool)
    ensures overlaps <==> exists k :: 0 <= k < |rooms| && Intersects(room, rooms[k])
  {
    if |rooms| == 0 then false
    else Intersects(room, rooms[0]) || AnyIntersects(room, rooms[1..])
  }

  /** The generator's state between placement attempts. */
  datatype GenState = GenState(m: Map, rooms: seq<Rect>, player: Point, rng: Rng)

  /** What holds after every placement attempt: the map is solid wall apart
      from carved floor, each accepted room fits the map and is carved,
      consecutive rooms are joined by an L of corridor, and the player
      starts at the first room's centre, or the map's centre while there is
      no room. */
  ghost predicate GenInv(st: GenState, w: int, h: int) {
    && Valid(st.m) && st.m.width == w && st.m.height == h && st.m.rooms == [] && st.m.doors == []
    && WallOrCarved(st.m)
    && (forall k :: 0 <= k < |st.rooms| ==> Fits(st.rooms[k], w, h) && RoomCarved(st.m, st.rooms[k]))
    && (forall k :: 0 < k < |st.rooms| ==> Joined(st.m, Center(st.rooms[k - 1]), Center(st.rooms[k])))
    && st.player == (if |st.rooms| == 0 then Point(w / 2, h / 2) else Center(st.rooms[0]))
  }

  /** Carving more floor keeps the invariant. */
  lemma CarvingKeepsInv(st: GenState, m': Map, w: int, h: int)
    requires GenInv(st, w, h) && OnlyCarves(st.m, m')
    ensures GenInv(st.(m := m'), w, h)
  {
    OnlyCarvesKeeps(st.m, m');
    forall k | 0 <= k < |st.rooms| ensures RoomCarved(m', st.rooms[k]) {
      CarvedStays(st.m, m', Point(0, 0), Point(0, 0), st.rooms[k]);
    }
    forall k | 0 < k < |st.rooms| ensures Joined(m', Center(st.rooms[k - 1]), Center(st.rooms[k])) {
      CarvedStays(st.m, m', Center(st.rooms[k - 1]), Center(st.rooms[k]), st.rooms[k]);
    }
  }

  /** Appending a carved room joined to the last one keeps the invariant; the
      first room decides the player's start. */
  lemma AppendKeepsInv(st: GenState, room: Rect, w: int, h: int)
    requires GenInv(st, w, h) && Fits(room, w, h) && RoomCarved(st.m, room)
    requires |st.rooms| > 0 ==> Joined(st.m, Center(st.rooms[|st.rooms| - 1]), Center(room))
    ensures GenInv(st.(rooms := st.rooms + [room], player := if |st.rooms| == 0 then Center(room) else st.player), w, h)
  {
    var r := st.(rooms := st.rooms + [room], player := if |st.rooms| == 0 then Center(room) else st.player);
    forall k | 0 <= k < |r.rooms|
      ensures Fits(r.rooms[k], w, h) && RoomCarved(r.m, r.rooms[k])
    {
      if k < |st.rooms| {
        assert r.rooms[k] == st.rooms[k];
      }
    }
    forall k | 0 < k < |r.rooms|
      ensures Joined(r.m, Center(r.rooms[k - 1]), Center(r.rooms[k]))
    {
      assert r.rooms[k - 1] == st.rooms[k - 1];
      if k < |st.rooms| {
        assert r.rooms[k] == st.rooms[k];
      }
    }
  }

  /** Carves a newly accepted room and, unless it is the first, joins it to
      the room accepted before it. */
  function AcceptRoom(st: GenState, room: Rect): (r: GenState)
    requires GenInv(st, st.m.width, st.m.height) && Fits(room, st.m.width, st.m.height)
    ensures GenInv(r, st.m.width, st.m.height)
    ensures r.rooms == st.rooms + [room]
    ensures Continues(st.rng, r.rng)
  {
    var w, h := st.m.width, st.m.height;
    var (m1, rng1) := CarveRoom(st.m, st.rng, room);
    CarvingKeepsInv(st, m1, w, h);
    var st1 := st.(m := m1, rng := rng1);
    if |st.rooms| == 0 then
      AppendKeepsInv(st1, room, w, h);
      st1.(rooms := [room], player := Center(room))
    else
      var prev := st.rooms[|st.rooms| - 1];
      var (m2, rng2) := Link(m1, rng1, prev, room);
      CarvingKeepsInv(st1, m2, w, h);
      OnlyCarvesKeeps(m1, m2);
      CarvedStays(m1, m2, Point(0, 0), Point(0, 0), room);
      var st2 := st1.(m := m2, rng := rng2);
      AppendKeepsInv(st2, room, w, h);
      st2.(rooms := st.rooms + [room])
  }

  /** One of the `MaxRooms` placement attempts: draw a size, give up when it
      cannot fit, otherwise draw a position and accept the room unless it
      overlaps an earlier one. */
  function Attempt(st: GenState): (r: GenState)
    requires GenInv(st, st.m.width, st.m.height)
    ensures GenInv(r, st.m.width, st.m.height)
    ensures r.rooms == st.rooms || (|r.rooms| == |st.rooms| + 1 && r.rooms[..|st.rooms|] == st.rooms)
    ensures Continues(st.rng, r.rng) && r.rng.pos >= st.rng.pos + 2
  {
    var (rw, rng1) := RandomBetween(st.rng, RoomMinSize, RoomMaxSize);
    var (rh, rng2) := RandomBetween(rng1, RoomMinSize, RoomMaxSize);
    var maxX := st.m.width - rw - 1;
    var maxY := st.m.height - rh - 1;
    if maxX < 0 || maxY < 0 then st.(rng := rng2)
    else
      var (x, rng3) := RandomBetween(rng2, 0, maxX);
      var (y, rng4) := RandomBetween(rng3, 0, maxY);
      var room := Rect(x, y, x + rw, y + rh);
      if AnyIntersects(room, st.rooms) then st.(rng := rng4)
      else AcceptRoom(st.(rng := rng4), room)
  }

  /** Attempts `i` up to `MaxRooms - 1`. */
  function Attempts(st: GenState, i: nat): (r: GenState)
    requires GenInv(st, st.m.width, st.m.height)
    ensures GenInv(r, st.m.width, st.m.height)
    ensures |st.rooms| <= |r.rooms| <= |st.rooms| + (if i < MaxRooms then MaxRooms - i else 0)
    ensures r.rooms[..|st.rooms|] == st.rooms
    ensures Continues(st.rng, r.rng) && r.rng.pos >= st.rng.pos + 2 * (MaxRooms - i)
    decreases MaxRooms - i
  {
    if i >= MaxRooms then st
    else
      var st' := Attempt(st);
      var r := Attempts(st', i + 1);
      PrefixOfPrefix(st.rooms, st'.rooms, r.rooms);
      r
  }

  /** The cell exists and is a wall (of either kind of wall tile). */
  predicate WallAt(m: Map, x: int, y: int)
    requires Valid(m)
  {
    var t := GetTile(m, x, y);
    t.Some? && t.value.ttype == Wall
  }

  /** The auto-tiling mask of a wall: bit 1 north, 2 east, 4 south, 8 west,
      each set when that neighbour is a wall on the map. */
  function WallMask(m: Map, x: int, y: int): (mask: bv8)
    requires Valid(m)
  {
    (if WallAt(m, x, y - 1) then 1 else 0)
    | (if WallAt(m, x + 1, y) then 2 else 0)
    | (if WallAt(m, x, y + 1) then 4 else 0)
    | (if WallAt(m, x - 1, y) then 8 else 0)
  }

  /** Reading the mask back: each bit is set exactly when its neighbour is a
      wall, and no bit above the fourth is ever set. */
  lemma WallMaskBits(m: Map, x: int, y: int)
    requires Valid(m)
    ensures var mask := WallMask(m, x, y);
      && (mask & 1 != 0 <==> WallAt(m, x, y - 1))
      && (mask & 2 != 0 <==> WallAt(m, x + 1, y))
      && (mask & 4 != 0 <==> WallAt(m, x, y + 1))
      && (mask & 8 != 0 <==> WallAt(m, x - 1, y))
      && mask < 16
  {
  }

  /** A wall tile takes its auto-tiling mask; every other tile is left alone. */
  function WithMask(m: Map, x: int, y: int, t: Tile): Tile
    requires Valid(m)
  {
    if t.ttype == Wall then t.(bitmask := WallMask(m, x, y) as int) else t
  }

  /** `calculateWallBitmasks`. The masks read only tile types, which the
      pass never changes, so the order of the row-by-row sweep does not
      matter and every tile can be computed from the map as it was. */
  function CalculateWallBitmasks(m: Map): (r: Map)
    requires Valid(m)
    ensures SameShape(m, r)
    ensures forall x, y :: InBounds(m, x, y) ==> TileAt(r, x, y) == WithMask(m, x, y, TileAt(m, x, y))
  {
    if m.width == 0 then m
    else
      var r := m.(tiles := seq(|m.tiles|, i requires 0 <= i < |m.tiles| => WithMask(m, i % m.width, i / m.width, m.tiles[i])));
      assert forall x, y :: InBounds(m, x, y) ==> TileAt(r, x, y) == WithMask(m, x, y, TileAt(m, x, y)) by {
        forall x, y | InBounds(m, x, y) ensures TileAt(r, x, y) == WithMask(m, x, y, TileAt(m, x, y)) {
          IndexInRange(m.width, m.height, x, y);
          IndexDecode(m.width, x, y);
        }
      }
      r
  }

  /** The pass changes only bitmasks, so walls stay walls, floor stays
      floor, and the masks it wrote agree with the map it returns. */
  lemma BitmasksKeepWalls(m: Map, x: int, y: int)
    requires Valid(m)
    ensures var r := CalculateWallBitmasks(m);
      && (WallAt(r, x, y) <==> WallAt(m, x, y))
      && WallMask(r, x, y) == WallMask(m, x, y)
  {
    var r := CalculateWallBitmasks(m);
    forall cx, cy ensures WallAt(r, cx, cy) <==> WallAt(m, cx, cy) {
      if InBounds(m, cx, cy) {
        assert TileAt(r, cx, cy).ttype == TileAt(m, cx, cy).ttype;
      }
    }
  }

  /** The doorway candidates of a room in the order `findDoorways` visits
      them: one tile outside the top and bottom edges column by column, then
      outside the left and right edges row by row. */
  function RoomRing(room: Rect): seq<Point> {
    TopBottom(room.x1, room.x2, room.y1 - 1, room.y2 + 1) + LeftRight(room.y1, room.y2, room.x1 - 1, room.x2 + 1)
  }

  /** `p` lies one tile outside an edge of the room (corners excluded). */
  predicate OutsideEdge(p: Point, room: Rect) {
    || (room.x1 <= p.x <= room.x2 && (p.y == room.y1 - 1 || p.y == room.y2 + 1))
    || (room.y1 <= p.y <= room.y2 && (p.x == room.x1 - 1 || p.x == room.x2 + 1))
  }

  lemma RoomRingMembers(room: Rect, p: Point)
    ensures p in RoomRing(room) <==> OutsideEdge(p, room)
  {
    TopBottomMembers(room.x1, room.x2, room.y1 - 1, room.y2 + 1, p);
    LeftRightMembers(room.y1, room.y2, room.x1 - 1, room.x2 + 1, p);
  }

  /** Scans candidates in order, appending each walkable one not found
      before. The source's `seen` set holds exactly the doors found so far,
      so it is membership in `doors` here. */
  function AddDoors(m: Map, doors: seq<Point>, cands: seq<Point>): (r: seq<Point>)
    requires Valid(m)
    ensures |doors| <= |r| && r[..|doors|] == doors
    ensures Distinct(doors) ==> Distinct(r)
    ensures forall p :: p in r <==> p in doors || (p in cands && IsWalkable(m, p.x, p.y))
    decreases |cands|
  {
    if |cands| == 0 then doors
    else
      var p := cands[0];
      var doors' := if IsWalkable(m, p.x, p.y) && p !in doors then doors + [p] else doors;
      var r := AddDoors(m, doors', cands[1..]);
      assert r[..|doors|] == r[..|doors'|][..|doors|];
      assert forall q :: q in cands <==> q == p || q in cands[1..];
      r
  }

  /** Adds the doors of each room in turn. */
  function DoorsOfRooms(m: Map, doors: seq<Point>, rooms: seq<Rect>): (r: seq<Point>)
    requires Valid(m)
    ensures Distinct(doors) ==> Distinct(r)
    ensures forall p :: p in r <==> p in doors || (IsWalkable(m, p.x, p.y) && InSomeRing(p, rooms))
    decreases |rooms|
  {
    if |rooms| == 0 then doors
    else
      var r := DoorsOfRooms(m, AddDoors(m, doors, RoomRing(rooms[0])), rooms[1..]);
      InSomeRingFirst(rooms);
      r
  }

  /** p lies on the ring around one of the rooms. */
  ghost predicate InSomeRing(p: Point, rooms: seq<Rect>) {
    exists k :: 0 <= k < |rooms| && p in RoomRing(rooms[k])
  }

  lemma InSomeRingFirst(rooms: seq<Rect>)
    requires |rooms| > 0
    ensures forall p :: InSomeRing(p, rooms) <==> p in RoomRing(rooms[0]) || InSomeRing(p, rooms[1..])
  {
    forall p | InSomeRing(p, rooms)
      ensures p in RoomRing(rooms[0]) || InSomeRing(p, rooms[1..])
    {
      var k :| 0 <= k < |rooms| && p in RoomRing(rooms[k]);
      if k > 0 {
        assert rooms[1..][k - 1] == rooms[k];
      }
    }
    forall p | InSomeRing(p, rooms[1..])
      ensures InSomeRing(p, rooms)
    {
      var k :| 0 <= k < |rooms[1..]| && p in RoomRing(rooms[1..][k]);
      assert rooms[k + 1] == rooms[1..][k];
    }
  }

  /** `findDoorways`: the walkable cells one tile outside an edge of some
      room, each listed once. */
  function FindDoorways(m: Map): (doors: seq<Point>)
    requires Valid(m)
    ensures Distinct(doors)
    ensures forall p :: p in doors <==> IsWalkable(m, p.x, p.y) && exists k :: 0 <= k < |m.rooms| && OutsideEdge(p, m.rooms[k])
  {
    var doors := DoorsOfRooms(m, [], m.rooms);
    assert forall p, k :: 0 <= k < |m.rooms| ==> (p in RoomRing(m.rooms[k]) <==> OutsideEdge(p, m.rooms[k])) by {
      forall p, k | 0 <= k < |m.rooms| ensures p in RoomRing(m.rooms[k]) <==> OutsideEdge(p, m.rooms[k]) {
        RoomRingMembers(m.rooms[k], p);
      }
    }
    doors
  }

  /** What `Generate` promises about a map it returns. */
  ghost predicate Generated(m: Map, w: int, h: int, player: Point) {
    && Valid(m) && m.width == w && m.height == h
    && |m.rooms| <= MaxRooms
    && (forall k :: 0 <= k < |m.rooms| ==> Fits(m.rooms[k], w, h) && RoomCarved(m, m.rooms[k]))
    && (forall k :: 0 < k < |m.rooms| ==> Joined(m, Center(m.rooms[k - 1]), Center(m.rooms[k])))
    && player == (if |m.rooms| == 0 then Point(w / 2, h / 2) else Center(m.rooms[0]))
    && (forall x, y :: InBounds(m, x, y) ==>
          Carved(TileAt(m, x, y)) || TileAt(m, x, y) == WallTile.(bitmask := WallMask(m, x, y) as int))
    && Distinct(m.doors)
    && (forall p :: p in m.doors <==> IsWalkable(m, p.x, p.y) && exists k :: 0 <= k < |m.rooms| && OutsideEdge(p, m.rooms[k]))
  }

  /** The map filled with solid wall. */
  function SolidMap(width: int, height: int): (m: Map)
    requires width >= 0 && height >= 0
    ensures Valid(m) && m.width == width && m.height == height && m.rooms == [] && m.doors == []
    ensures forall x, y :: InBounds(m, x, y) ==> TileAt(m, x, y) == WallTile
  {
    NonNegProduct(width, height);
    var m := NewMap(width, height);
    m.(tiles := seq(|m.tiles|, i => WallTile))
  }

  lemma NonNegProduct(a: int, b: int)
    requires a >= 0 && b >= 0
    ensures a * b >= 0
  {
  }

  /** `Generate`: nothing for a map smaller than the smallest room;
      otherwise the carved map and the player's start. The fourth component
      is the generator's stream after the call: a refused size draws
      nothing, and a generated map uses at least the two size draws of
      every one of the `MaxRooms` attempts, so a second call on the same
      generator carries on where the first one stopped. */
  function Generate(rng: Rng, width: int, height: int): (r: (Option<Map>, int, int, Rng))
    ensures r.0.None? <==> width < RoomMinSize || height < RoomMinSize
    ensures r.0.None? ==> r.1 == 0 && r.2 == 0 && r.3 == rng
    ensures r.0.Some? ==> Generated(r.0.value, width, height, Point(r.1, r.2))
    ensures r.0.Some? ==> Continues(rng, r.3) && r.3.pos >= rng.pos + 2 * MaxRooms
  {
    if width < RoomMinSize || height < RoomMinSize then (None, 0, 0, rng)
    else
      var m0 := SolidMap(width, height);
      var st := Attempts(GenState(m0, [], Point(width / 2, height / 2), rng), 0);
      var m1 := CalculateWallBitmasks(st.m);
      var m2 := m1.(rooms := st.rooms);
      var m3 := m2.(doors := FindDoorways(m2));
      BitmasksKeepCarving(st, m3, width, height);
      (Some(m3), st.player.x, st.player.y, st.rng)
  }

  /** The last two steps of `Generate` keep everything the attempts built. */
  lemma BitmasksKeepCarving(st: GenState, m3: Map, w: int, h: int)
    requires GenInv(st, w, h) && |st.rooms| <= MaxRooms
    requires var m1 := CalculateWallBitmasks(st.m);
      var m2 := m1.(rooms := st.rooms);
      m3 == m2.(doors := FindDoorways(m2))
    ensures Generated(m3, w, h, st.player)
  {
    var m1 := CalculateWallBitmasks(st.m);
    var m2 := m1.(rooms := st.rooms);
    BitmasksKeepRooms(st, m3);
    BitmasksKeepMasks(st, m3);
    forall p: Point ensures IsWalkable(m3, p.x, p.y) == IsWalkable(m2, p.x, p.y) {
      SameTiles(m2, m3, p);
    }
  }

  /** The rooms and their corridors survive the wall masks. */
  lemma BitmasksKeepRooms(st: GenState, m3: Map)
    requires Valid(st.m) && WallOrCarved(st.m)
    requires forall k :: 0 <= k < |st.rooms| ==> RoomCarved(st.m, st.rooms[k])
    requires forall k :: 0 < k < |st.rooms| ==> Joined(st.m, Center(st.rooms[k - 1]), Center(st.rooms[k]))
    requires var m1 := CalculateWallBitmasks(st.m);
      m3.tiles == m1.tiles && m3.width == m1.width && m3.height == m1.height
    ensures Valid(m3)
    ensures forall k :: 0 <= k < |st.rooms| ==> RoomCarved(m3, st.rooms[k])
    ensures forall k :: 0 < k < |st.rooms| ==> Joined(m3, Center(st.rooms[k - 1]), Center(st.rooms[k]))
  {
    var m1 := CalculateWallBitmasks(st.m);
    BitmasksKeepCarved(st.m);
    SameTiles(m1, m3, Point(0, 0));
    forall k | 0 <= k < |st.rooms| ensures RoomCarved(m3, st.rooms[k]) {
      CarvedStays(st.m, m1, Point(0, 0), Point(0, 0), st.rooms[k]);
      CarvedStays(m1, m3, Point(0, 0), Point(0, 0), st.rooms[k]);
    }
    forall k | 0 < k < |st.rooms| ensures Joined(m3, Center(st.rooms[k - 1]), Center(st.rooms[k])) {
      CarvedStays(st.m, m1, Center(st.rooms[k - 1]), Center(st.rooms[k]), st.rooms[k]);
      CarvedStays(m1, m3, Center(st.rooms[k - 1]), Center(st.rooms[k]), st.rooms[k]);
    }
  }

  /** After the masks, every cell is carved floor or a wall carrying the
      mask of its neighbours. */
  lemma BitmasksKeepMasks(st: GenState, m3: Map)
    requires Valid(st.m) && WallOrCarved(st.m)
    requires var m1 := CalculateWallBitmasks(st.m);
      m3.tiles == m1.tiles && m3.width == m1.width && m3.height == m1.height
    ensures Valid(m3)
    ensures forall x, y :: InBounds(m3, x, y) ==>
              Carved(TileAt(m3, x, y)) || TileAt(m3, x, y) == WallTile.(bitmask := WallMask(m3, x, y) as int)
  {
    var m1 := CalculateWallBitmasks(st.m);
    SameTiles(m1, m3, Point(0, 0));
    forall x, y | InBounds(m3, x, y)
      ensures Carved(TileAt(m3, x, y)) || TileAt(m3, x, y) == WallTile.(bitmask := WallMask(m3, x, y) as int)
    {
      BitmasksKeepWalls(st.m, x, y);
      SameTiles(m1, m3, Point(x, y));
      assert TileAt(st.m, x, y) == WallTile || Carved(TileAt(st.m, x, y));
    }
  }

  /** Wall masks change only wall tiles, so carved floor stays carved. */
  lemma BitmasksKeepCarved(m: Map)
    requires Valid(m)
    ensures KeepsCarved(m, CalculateWallBitmasks(m))
  {
    var r := CalculateWallBitmasks(m);
    forall x, y | InBounds(m, x, y) && Carved(TileAt(m, x, y)) ensures Carved(TileAt(r, x, y)) {
      assert TileAt(r, x, y) == WithMask(m, x, y, TileAt(m, x, y));
    }
  }

  /** Two maps with the same tiles and size agree on every tile query. */
  lemma SameTiles(m: Map, r: Map, a: Point)
    requires Valid(m) && r.tiles == m.tiles && r.width == m.width && r.height == m.height
    ensures Valid(r)
    ensures InBounds(m, a.x, a.y) ==> TileAt(r, a.x, a.y) == TileAt(m, a.x, a.y)
    ensures WallMask(r, a.x, a.y) == WallMask(m, a.x, a.y)
    ensures IsWalkable(r, a.x, a.y) == IsWalkable(m, a.x, a.y)
    ensures KeepsCarved(m, r)
  {
    assert forall x, y :: InBounds(m, x, y) ==> TileAt(r, x, y) == TileAt(m, x, y);
    assert WallAt(r, a.x, a.y - 1) == WallAt(m, a.x, a.y - 1);
    assert WallAt(r, a.x + 1, a.y) == WallAt(m, a.x + 1, a.y);
    assert WallAt(r, a.x, a.y + 1) == WallAt(m, a.x, a.y + 1);
    assert WallAt(r, a.x - 1, a.y) == WallAt(m, a.x - 1, a.y);
  }

  /** The tally the repository's generator test takes: a non-walkable wall
      counts as a wall, otherwise a walkable tile counts as walkable. */
  function TileCounts(tiles: seq<Tile>): (counts: (nat, nat))
    ensures counts.0 + counts.1 <= |tiles|
  {
    if |tiles| == 0 then (0, 0)
    else
      var (walls, walkable) := TileCounts(tiles[1..]);
      var t := tiles[0];
      if t.ttype == Wall && !t.walkable then (walls + 1, walkable)
      else if t.walkable then (walls, walkable + 1)
      else (walls, walkable)
  }

  /** When each tile is a non-walkable wall or walkable, the two tallies add
      up to the whole map. */
  lemma {:induction false} TileCountsCover(tiles: seq<Tile>)
    requires forall i :: 0 <= i < |tiles| ==> (tiles[i].ttype == Wall && !tiles[i].walkable) || tiles[i].walkable
    ensures TileCounts(tiles).0 + TileCounts(tiles).1 == |tiles|
  {
    if |tiles| > 0 {
      TileCountsCover(tiles[1..]);
    }
  }

  /** Every generated map tallies to width times height walls and walkable
      tiles together. */
  lemma GeneratedTileCount(m: Map, w: int, h: int, player: Point)
    requires Generated(m, w, h, player)
    ensures TileCounts(m.tiles).0 + TileCounts(m.tiles).1 == w * h
  {
    TilesClassified(m);
    TileCountsCover(m.tiles);
  }

  /** A map whose cells are all carved floor or masked wall has only
      walkable tiles and non-walkable walls. */
  lemma TilesClassified(m: Map)
    requires Valid(m)
    requires forall x, y :: InBounds(m, x, y) ==>
               Carved(TileAt(m, x, y)) || TileAt(m, x, y) == WallTile.(bitmask := WallMask(m, x, y) as int)
    ensures forall i :: 0 <= i < |m.tiles| ==> (m.tiles[i].ttype == Wall && !m.tiles[i].walkable) || m.tiles[i].walkable
  {
    forall i | 0 <= i < |m.tiles|
      ensures (m.tiles[i].ttype == Wall && !m.tiles[i].walkable) || m.tiles[i].walkable
    {
      CellOfIndex(m, i);
      var x, y := i % m.width, i / m.width;
      assert TileAt(m, x, y) == m.tiles[i];
    }
  }

  /** Every room centre of a generated map is walkable floor, and so is the
      player's start when there is a room. */
  lemma GeneratedCentresWalkable(m: Map, w: int, h: int, player: Point)
    requires Generated(m, w, h, player)
    ensures forall k :: 0 <= k < |m.rooms| ==> IsWalkable(m, Center(m.rooms[k]).x, Center(m.rooms[k]).y)
    ensures |m.rooms| > 0 ==> IsWalkable(m, player.x, player.y)
  {
    forall k | 0 <= k < |m.rooms| ensures IsWalkable(m, Center(m.rooms[k]).x, Center(m.rooms[k]).y) {
      var c := Center(m.rooms[k]);
      assert RoomCarved(m, m.rooms[k]);
      assert Carved(TileAt(m, c.x, c.y));
    }
  }
}
