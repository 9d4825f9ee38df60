/** The facility map: a flat tile array indexed `x + y*Width`, plus the room
    list and the doorway list the generator attaches (internal/world/map.go). */
module Grid {
  import opened Points
  import opened Rects
  import opened Tiles
  import opened Wrappers

  /** `world.Map`. The repository's struct lacks `Doors`, yet the generator
      assigns `m.Doors`; the field is added here. */
  datatype Map = Map(tiles: seq<Tile>, rooms: seq<Rect>, doors: seq<Point>, width: int, height: int)

  /** The shape every map built by `NewMap` has. */
  predicate Valid(m: Map) {
    m.width >= 0 && m.height >= 0 && |m.tiles| == m.width * m.height
  }

  predicate InBounds(m: Map, x: int, y: int) {
    0 <= x < m.width && 0 <= y < m.height
  }

  /** Flat index arithmetic: an in-bounds cell lands inside the array, and
      distinct in-bounds cells land on distinct indices. */
  lemma IndexInRange(w: int, h: int, x: int, y: int)
    requires 0 <= x < w && 0 <= y < h
    ensures 0 <= x + y * w < w * h
  {
    assert y * w <= (h - 1) * w;
  }

  lemma IndexInjective(w: int, x: int, y: int, x': int, y': int)
    requires 0 <= x < w && 0 <= x' < w
    requires x + y * w == x' + y' * w
    ensures x == x' && y == y'
  {
    assert (y - y') * w == x' - x;
    MulAwayFromZero(y - y', w);
  }

  lemma MulAwayFromZero(d: int, w: int)
    requires w > 0
    ensures d == 0 || d * w >= w || d * w <= -w
  {
    if d > 0 {
      MulAtLeast(d, w);
    } else if d < 0 {
      MulAtLeast(-d, w);
      assert d * w == -((-d) * w);
    }
  }

  lemma {:induction false} MulAtLeast(d: int, w: int)
    requires d >= 1 && w >= 0
    ensures d * w >= w
  {
    if d > 1 {
      MulAtLeast(d - 1, w);
      assert d * w == (d - 1) * w + w;
    }
  }

  function NewMap(width: int, height: int): (m: Map)
    requires width * height >= 0
    ensures m.width == width && m.height == height
    ensures |m.tiles| == width * height
    ensures forall i :: 0 <= i < |m.tiles| ==> m.tiles[i] == ZeroTile
    ensures m.rooms == [] && m.doors == []
  {
    Map(seq(width * height, _ => ZeroTile), [], [], width, height)
  }

  /** Converts 2D coordinates into the flat index. */
  function GetIndex(m: Map, x: int, y: int): int {
    y * m.width + x
  }

  function GetIndexFromPoint(m: Map, p: Point): int {
    p.y * m.width + p.x
  }

  /** The flat index of an in-bounds cell decodes back to its coordinates,
      and the point form agrees with the coordinate form. */
  lemma IndexRoundTrip(m: Map, x: int, y: int)
    requires Valid(m) && InBounds(m, x, y)
    ensures GetIndexFromPoint(m, Point(x, y)) == GetIndex(m, x, y)
    ensures 0 <= GetIndex(m, x, y) < |m.tiles|
    ensures GetIndex(m, x, y) % m.width == x && GetIndex(m, x, y) / m.width == y
  {
    IndexInRange(m.width, m.height, x, y);
    var i := GetIndex(m, x, y);
    var q, r := i / m.width, i % m.width;
    assert i == q * m.width + r && 0 <= r < m.width;
    IndexInjective(m.width, x, y, r, q);
  }

  /** A flat index decodes back to its column and row. */
  lemma IndexDecode(w: int, x: int, y: int)
    requires 0 <= x < w
    ensures (x + y * w) % w == x && (x + y * w) / w == y
  {
    var i := x + y * w;
    var q, r := i / w, i % w;
    assert i == q * w + r && 0 <= r < w;
    IndexInjective(w, x, y, r, q);
  }

  /** Every flat index of a map is the index of an in-bounds cell. */
  lemma CellOfIndex(m: Map, i: int)
    requires Valid(m) && 0 <= i < |m.tiles|
    ensures m.width > 0 && InBounds(m, i % m.width, i / m.width)
    ensures i == i % m.width + (i / m.width) * m.width
  {
    assert m.width != 0;
    var q, r := i / m.width, i % m.width;
    assert i == q * m.width + r;
    assert (m.height - q) * m.width == m.width * m.height - q * m.width;
    PositiveFactor(m.height - q, m.width);
  }

  lemma PositiveFactor(d: int, w: int)
    requires w > 0 && d * w > 0
    ensures d > 0
  {
    MulAwayFromZero(d, w);
  }

  /** The tile stored for an in-bounds cell. */
  function TileAt(m: Map, x: int, y: int): (t: Tile)
    requires Valid(m) && InBounds(m, x, y)
    ensures 0 <= x + y * m.width < |m.tiles| && t == m.tiles[x + y * m.width]
  {
    IndexInRange(m.width, m.height, x, y);
    m.tiles[x + y * m.width]
  }

  /** The tile at (x, y), or None outside the map. */
  function GetTile(m: Map, x: int, y: int): (t: Option<Tile>)
    requires Valid(m)
    ensures t.None? <==> !InBounds(m, x, y)
    ensures t.Some? ==> 0 <= x + y * m.width < |m.tiles| && t.value == m.tiles[x + y * m.width]
  {
    if x < 0 || x >= m.width || y < 0 || y >= m.height then None
    else Some(TileAt(m, x, y))
  }

  /** False outside the map; otherwise the tile's own walkability. */
  function IsWalkable(m: Map, x: int, y: int): (b: bool)
    requires Valid(m)
    ensures b <==> InBounds(m, x, y) && TileAt(m, x, y).walkable
  {
    var t := GetTile(m, x, y);
    if t.None? then false else t.value.walkable
  }

  /** Overwrites one tile. There is no bounds check: only the flat index has
      to fall inside the array. */
  function SetTile(m: Map, x: int, y: int, tile: Tile): (r: Map)
    requires 0 <= x + y * m.width < |m.tiles|
    ensures r.width == m.width && r.height == m.height && r.rooms == m.rooms && r.doors == m.doors
    ensures |r.tiles| == |m.tiles| && r.tiles[x + y * m.width] == tile
    ensures forall i :: 0 <= i < |m.tiles| && i != x + y * m.width ==> r.tiles[i] == m.tiles[i]
  {
    m.(tiles := m.tiles[x + y * m.width := tile])
  }

  /** Reading back after a write: the written cell holds the new tile and
      every other cell reads as before. */
  lemma GetAfterSet(m: Map, x: int, y: int, tile: Tile, x': int, y': int)
    requires Valid(m) && InBounds(m, x, y)
    ensures 0 <= x + y * m.width < |m.tiles|
    ensures GetTile(SetTile(m, x, y, tile), x', y')
         == if x' == x && y' == y then Some(tile) else GetTile(m, x', y')
  {
    IndexInRange(m.width, m.height, x, y);
    if InBounds(m, x', y') && (x' != x || y' != y) {
      IndexInRange(m.width, m.height, x', y');
      if x' + y' * m.width == x + y * m.width {
        IndexInjective(m.width, x, y, x', y');
      }
    }
  }
}
