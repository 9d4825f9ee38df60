/** The terminal engine's input handling (internal/engine/engine.go): a key
    either moves the player one cell, stops the loop, or does nothing. */
module GameEngine {
  import opened Points
  import opened Grid
  import opened Input

  /** `entity.Actor`. */
  datatype Actor = Actor(x: int, y: int, glyph: char)

  /** `Engine`, without the terminal handle and the screen buffer, which
      belong to the render path. `theme` is the tile variant and
      `tickerRate` the frame period in milliseconds. */
  datatype Engine = Engine(grid: Map, player: Actor, theme: int, running: bool, tickerRate: int)

  function PlayerCell(e: Engine): Point {
    Point(e.player.x, e.player.y)
  }

  /** The movement keys of `handleInput`. */
  predicate IsMoveKey(key: char) {
    key == KeyW || key == KeyS || key == KeyA || key == KeyD
  }

  /** The delta `handleInput` gives a key: W up, S down, A left, D right. */
  function KeyDelta(key: char): (d: Point)
    ensures IsMoveKey(key) <==> d != Point(0, 0)
    ensures d != Point(0, 0) ==> ManhattanDistance(Point(0, 0), d) == 1
  {
    if key == KeyW then Point(0, -1)
    else if key == KeyS then Point(0, 1)
    else if key == KeyA then Point(-1, 0)
    else if key == KeyD then Point(1, 0)
    else Point(0, 0)
  }

  /** `movePlayer`: step by (dx, dy) when the target is on the map and its
      tile is walkable; otherwise nothing changes. Only the player's
      coordinates are ever written. */
  function MovePlayer(e: Engine, dx: int, dy: int): (r: Engine)
    requires Valid(e.grid)
    ensures r == e.(player := r.player) && r.player.glyph == e.player.glyph
    ensures var nx, ny := e.player.x + dx, e.player.y + dy;
            if IsWalkable(e.grid, nx, ny) then r.player.x == nx && r.player.y == ny else r == e
  {
    var newX, newY := e.player.x + dx, e.player.y + dy;
    if newX < 0 || newX >= e.grid.width || newY < 0 || newY >= e.grid.height then e
    else
      var tile := GetTile(e.grid, newX, newY);
      if tile.Some? && tile.value.walkable then e.(player := e.player.(x := newX, y := newY))
      else e
  }

  /** `handleInput`. */
  function HandleInput(e: Engine, key: char): (r: Engine)
    requires Valid(e.grid)
    ensures r.grid == e.grid && r.theme == e.theme && r.tickerRate == e.tickerRate
    ensures r.player.glyph == e.player.glyph
    ensures r.running <==> e.running && key != KeyQ
    ensures !IsMoveKey(key) ==> r.player == e.player
    ensures IsMoveKey(key) ==> r == MovePlayer(e, KeyDelta(key).x, KeyDelta(key).y)
  {
    var d := KeyDelta(key);
    var e1 := if key == KeyQ then e.(running := false) else e;
    if d.x != 0 || d.y != 0 then MovePlayer(e1, d.x, d.y) else e1
  }

  /** One key moves the player at most one orthogonal cell, and only onto a
      walkable cell of the map. */
  lemma OneStep(e: Engine, key: char)
    requires Valid(e.grid)
    ensures var r := HandleInput(e, key);
            r.player == e.player ||
            (Adjacent(PlayerCell(e), PlayerCell(r)) && IsWalkable(e.grid, r.player.x, r.player.y))
  {
  }

  /** A move that happens can be undone: the opposite delta brings the
      player back, provided the cell it left is walkable. */
  lemma MoveUndo(e: Engine, dx: int, dy: int)
    requires Valid(e.grid) && IsWalkable(e.grid, e.player.x, e.player.y)
    requires IsWalkable(e.grid, e.player.x + dx, e.player.y + dy)
    ensures MovePlayer(MovePlayer(e, dx, dy), -dx, -dy).player == e.player
  {
  }

  /** Handling a batch of keys one after another. */
  function HandleAll(e: Engine, keys: seq<char>): (r: Engine)
    requires Valid(e.grid)
    ensures r.grid == e.grid && r.player.glyph == e.player.glyph
    decreases |keys|
  {
    if |keys| == 0 then e else HandleAll(HandleInput(e, keys[0]), keys[1..])
  }

  /** Nothing restarts the loop: the engine keeps running exactly when it
      was running and no key of the batch was Q. */
  lemma {:induction false} RunningUntilQuit(e: Engine, keys: seq<char>)
    requires Valid(e.grid)
    ensures HandleAll(e, keys).running <==> e.running && KeyQ !in keys
    decreases |keys|
  {
    if |keys| > 0 {
      RunningUntilQuit(HandleInput(e, keys[0]), keys[1..]);
      assert keys == [keys[0]] + keys[1..];
    }
  }

  /** A player standing on a walkable cell never leaves the walkable cells,
      whatever the keys. */
  lemma {:induction false} StaysWalkable(e: Engine, keys: seq<char>)
    requires Valid(e.grid) && IsWalkable(e.grid, e.player.x, e.player.y)
    ensures var r := HandleAll(e, keys);
            IsWalkable(r.grid, r.player.x, r.player.y)
    decreases |keys|
  {
    if |keys| > 0 {
      StaysWalkable(HandleInput(e, keys[0]), keys[1..]);
    }
  }

  /** The keys' net displacement, counting only those that move: a batch
      over an all-floor region moves the player by the sum of its deltas. */
  function Displacement(keys: seq<char>): (d: Point)
    decreases |keys|
  {
    if |keys| == 0 then Point(0, 0)
    else
      var first, rest := KeyDelta(keys[0]), Displacement(keys[1..]);
      Point(first.x + rest.x, first.y + rest.y)
  }

  /** On a map where every cell is walkable, a batch that never steps off the
      map moves the player by exactly the keys' displacement. */
  lemma {:induction false} OpenFloor(e: Engine, keys: seq<char>)
    requires Valid(e.grid)
    requires forall x, y :: InBounds(e.grid, x, y) ==> TileAt(e.grid, x, y).walkable
    requires forall k :: 0 <= k <= |keys| ==>
               InBounds(e.grid, e.player.x + Displacement(keys[..k]).x, e.player.y + Displacement(keys[..k]).y)
    ensures var r := HandleAll(e, keys);
            r.player.x == e.player.x + Displacement(keys).x && r.player.y == e.player.y + Displacement(keys).y
    decreases |keys|
  {
    if |keys| > 0 {
      var e1 := HandleInput(e, keys[0]);
      var d := KeyDelta(keys[0]);
      assert keys[..1] == [keys[0]];
      assert Displacement([keys[0]]) == d by {
        assert [keys[0]][1..] == [];
      }
      OpenStep(e, keys[0]);
      forall k | 0 <= k <= |keys[1..]|
        ensures InBounds(e1.grid, e1.player.x + Displacement(keys[1..][..k]).x, e1.player.y + Displacement(keys[1..][..k]).y)
      {
        PrefixDisplacement(keys, k);
        assert InBounds(e.grid, e.player.x + Displacement(keys[..k + 1]).x, e.player.y + Displacement(keys[..k + 1]).y);
      }
      OpenFloor(e1, keys[1..]);
    }
  }

  /** On open floor, a key whose target is on the map moves the player by
      its delta. */
  lemma OpenStep(e: Engine, key: char)
    requires Valid(e.grid)
    requires forall x, y :: InBounds(e.grid, x, y) ==> TileAt(e.grid, x, y).walkable
    requires InBounds(e.grid, e.player.x + KeyDelta(key).x, e.player.y + KeyDelta(key).y)
    ensures HandleInput(e, key).player.x == e.player.x + KeyDelta(key).x
    ensures HandleInput(e, key).player.y == e.player.y + KeyDelta(key).y
  {
    var d := KeyDelta(key);
    assert TileAt(e.grid, e.player.x + d.x, e.player.y + d.y).walkable;
    if IsMoveKey(key) {
      assert IsWalkable(e.grid, e.player.x + d.x, e.player.y + d.y);
    }
  }

  /** The displacement of a prefix of length k+1 is the first key's delta
      plus that of the next k keys. */
  lemma PrefixDisplacement(keys: seq<char>, k: nat)
    requires k + 1 <= |keys|
    ensures Displacement(keys[..k + 1]) ==
            Point(KeyDelta(keys[0]).x + Displacement(keys[1..][..k]).x, KeyDelta(keys[0]).y + Displacement(keys[1..][..k]).y)
  {
    assert keys[..k + 1][0] == keys[0];
    assert keys[..k + 1][1..] == keys[1..][..k];
  }
}
