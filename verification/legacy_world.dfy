/** The early grid of internal/world/world.go: a row-major slice of rows
    whose tiles only record whether they are walls. Its `Tile` is a
    different type from the map's tile of internal/world/tile.go. */
module LegacyWorld {

  /** The world.go `Tile`. */
  datatype GridTile = GridTile(isWall: bool)

  datatype World = World(width: int, height: int, grid: seq<seq<GridTile>>)

  /** The zero-valued tile Go's `make` fills the rows with. */
  const OpenTile := GridTile(false)

  /** A width-long row of open tiles. */
  function Row(width: nat): (row: seq<GridTile>)
    ensures |row| == width && forall x :: 0 <= x < width ==> row[x] == OpenTile
  {
    seq(width, _ => OpenTile)
  }

  /** `New`: `height` rows of `width` open tiles, with the dimensions
      recorded. Go's `make` panics on a negative length: on a negative
      height always, on a negative width only when there is a row to make,
      so a zero height records any width over an empty grid. */
  function New(width: int, height: int): (w: World)
    requires height >= 0 && (height > 0 ==> width >= 0)
    ensures w.width == width && w.height == height && |w.grid| == height
    ensures forall y :: 0 <= y < height ==> |w.grid[y]| == width
    ensures forall y, x :: 0 <= y < height && 0 <= x < width ==> !w.grid[y][x].isWall
  {
    if height == 0 then World(width, 0, []) else World(width, height, seq(height, _ => Row(width)))
  }

  /** The shape every `New` world has: as many rows as the height, each as
      long as the width. The width can only be negative with no rows. */
  predicate WellShaped(w: World) {
    w.height >= 0 && (w.height > 0 ==> w.width >= 0) && |w.grid| == w.height &&
    forall y :: 0 <= y < |w.grid| ==> |w.grid[y]| == w.width
  }

  /** Counts the walls of a grid. */
  function Walls(grid: seq<seq<GridTile>>): (n: nat)
    decreases |grid|
  {
    if |grid| == 0 then 0 else RowWalls(grid[0]) + Walls(grid[1..])
  }

  function RowWalls(row: seq<GridTile>): (n: nat)
    ensures n <= |row|
    decreases |row|
  {
    if |row| == 0 then 0 else (if row[0].isWall then 1 else 0) + RowWalls(row[1..])
  }

  /** A new world is well shaped and has no walls at all. */
  lemma NewIsOpen(width: int, height: int)
    requires height >= 0 && (height > 0 ==> width >= 0)
    ensures WellShaped(New(width, height)) && Walls(New(width, height).grid) == 0
  {
    var g := New(width, height).grid;
    NoWalls(g);
  }

  lemma {:induction false} NoWalls(grid: seq<seq<GridTile>>)
    requires forall y, x :: 0 <= y < |grid| && 0 <= x < |grid[y]| ==> !grid[y][x].isWall
    ensures Walls(grid) == 0
    decreases |grid|
  {
    if |grid| > 0 {
      NoRowWalls(grid[0]);
      assert forall y, x :: 0 <= y < |grid[1..]| && 0 <= x < |grid[1..][y]| ==> grid[1..][y][x] == grid[y + 1][x];
      NoWalls(grid[1..]);
    }
  }

  lemma {:induction false} NoRowWalls(row: seq<GridTile>)
    requires forall x :: 0 <= x < |row| ==> !row[x].isWall
    ensures RowWalls(row) == 0
    decreases |row|
  {
    if |row| > 0 {
      assert forall x :: 0 <= x < |row[1..]| ==> row[1..][x] == row[x + 1];
      NoRowWalls(row[1..]);
    }
  }
}
