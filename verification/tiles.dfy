/** One grid cell's state (`world.Tile` in internal/world/tile.go). */
module Tiles {

  type uint8 = b: int | 0 <= b < 256

  /** `TileType`: Empty = 0, Wall = 1, Floor = 2, in declaration order. */
  datatype TileType = Empty | Wall | Floor

  /** `variant` is the floor texture (0 plain, 1..4 noise); `bitmask` is the
      4-bit wall-neighbour mask used for auto-tiling; `distance` is the
      depth-shading value, which nothing in the core writes. */
  datatype Tile = Tile(
    ttype: TileType,
    walkable: bool,
    visible: bool,
    explored: bool,
    variant: uint8,
    distance: int,
    bitmask: uint8)

  /** Go's zero value `Tile{}`. */
  const ZeroTile := Tile(Empty, false, false, false, 0, 0, 0)

  /** The tile the generator fills the map with before carving. */
  const WallTile := Tile(Wall, false, false, false, 0, 0, 0)

  /** A carved floor tile with the given texture variant. */
  function FloorTile(variant: uint8): Tile {
    Tile(Floor, true, false, false, variant, 0, 0)
  }
}
