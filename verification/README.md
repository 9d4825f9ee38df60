# Derelict facility: a verified model of the simulation core

This project models the simulation core of *derelict-facility*, a
terminal and raylib roguelike written in Go, and proves properties of it.
The game takes place in a procedurally generated facility. The model covers:

- **The facility map.** A flat tile array indexed `x + y*Width`, with
  bounds-checked lookup and walkability.
- **Field of view.** Cast by Bresenham rays to the border of a square
  around the player.
- **The facility generator.** Random rooms, L-shaped corridors between
  consecutive rooms, the 4-bit wall auto-tiling mask, and doorway
  detection.
- **Path search.** The A* search over a binary-heap frontier that the
  autopilot uses.
- **The entity-component registry.** Component stores keyed by component
  name.
- **The per-tick systems.** Keyboard movement and the autopilot step.
- **The engine's key handling.**
- **Small pure helpers.** The visibility debug dump, the ANSI colour
  parser of the raylib front end, the component masks and status titles,
  the player's coloured glyph, and the early wall grid.

Every operation is a pure function over immutable datatypes. Where Go
mutates a `*Map` or a component through a pointer, the model returns the
new value instead. Randomness is an abstract stream of draws (`Facility.Rng`).
The only thing assumed about it is that each bounded draw lands in its range.

Module layout, one file per source unit:

| file | module | models |
|---|---|---|
| points.dfy | Points | `entity.Point`, `ManhattanDistance` |
| rect.dfy | Rects | `Rect`, `Center`, `Width`, `Height`, `Intersects` |
| tiles.dfy | Tiles | `Tile`, `TileType` |
| grid.dfy | Grid | `Map`, `NewMap`, `GetIndex`, `GetTile`, `SetTile`, `IsWalkable` |
| line.dfy | Line | `getLine` |
| border.dfy | Borders | the order in which rectangle borders are visited |
| fov.dfy | Fov | `ComputeFOV`, `castRay` |
| facility.dfy | Facility | the generator |
| pq.dfy | PriorityQueue | `algo.Node`, `PriorityQueue`, container/heap |
| astar.dfy | AStar | `FindPath`, `reconstructPath` |
| seqs.dfy | Seqs | generic sequence lemmas |
| wrappers.dfy | Wrappers | `Option`, standing in for nil |
| ecs.dfy | Ecs | `ecs.World` |
| components.dfy | Components | masks, `PlayerStatus`, component records |
| input.dfy | Input | `ProcessPlayerInput` |
| autopilot.dfy | Autopilot | `ProcessAutopilot` |
| engine.dfy | GameEngine | `handleInput`, `movePlayer` |
| debug.dfy | Debug | `InspectVisibility` |
| ansi.dfy | Ansi | the ANSI colour constants |
| display.dfy | Display | `MapANSIColor`, `ExtractTextAndColor` |
| player.dfy | Players | `world.Player`, `NewPlayer`, `Render` |
| legacy_world.dfy | LegacyWorld | `world.World`, `New` |

## Model

| member | source | states |
|---|---|---|
| Points.ManhattanDistance | internal/world/astar.go:12-14 | The distance is zero exactly when the two points coincide, and it is at least the distance along either axis. |
| Points.ManhattanMetric | internal/world/astar.go:12-14 | The distance is symmetric and satisfies the triangle inequality. |
| Points.AdjacentStep | internal/world/astar.go:12-14 | One orthogonal step changes the distance to any fixed cell by at most one. This is the consistency of the A* heuristic. |
| Rects.GoHalf | internal/world/rect.go:16-17 | Go's `/ 2` truncates toward zero: the remainder is 0 or 1 for a non-negative sum and 0 or -1 for a negative one. |
| Rects.Center | internal/world/rect.go:15-19 | The centre is the midpoint of each axis within half a cell, rounded toward zero. It lies inside the rectangle whenever the corners are ordered. |
| Rects.Intersects | internal/world/rect.go:29-39 | The overlap test as written answers false for every pair. |
| Rects.CenterExamples | internal/world/rect.go:15-19 | Concrete centres, including a negative sum that truncates toward zero to -1. |
| Rects.IntersectsDisjointCases | internal/world/rect_test.go:24-53 | The five test cases expected to be disjoint are reported disjoint. |
| Rects.IntersectsMissesOverlaps | internal/world/rect_test.go:12-23 | The four test cases expected to overlap are also reported disjoint: the stub fails them. |
| Ansi.CodesWellFormed | internal/world/tile_variants.go:7-17 | Every colour escape, Reset included, is ESC "[" followed by digits, with its only "m" as the last character. |
| Grid.IndexInRange | internal/world/map.go:40-51 | An in-bounds cell's flat index `x + y*Width` lies inside the tile array. |
| Grid.IndexInjective | internal/world/map.go:40-51 | Distinct cells within the width have distinct flat indices. |
| Grid.NewMap | internal/world/map.go:14-20 | The new map has the requested dimensions and `width*height` zero-valued tiles, and no rooms or doors. |
| Grid.IndexRoundTrip | internal/world/map.go:31-38 | `GetIndexFromPoint` agrees with `GetIndex`. An in-bounds cell's index is in the array, and it decodes back to (x, y) by `%` and `/`. |
| Grid.IndexDecode | internal/world/map.go:31-33 | A flat index decodes back to its column and row. |
| Grid.CellOfIndex | internal/world/map.go:14-20 | Every index of the tile array belongs to exactly one in-bounds cell. |
| Grid.TileAt | internal/world/map.go:44-51 | The tile of an in-bounds cell is the array entry at `x + y*Width`. |
| Grid.GetTile | internal/world/map.go:44-51 | The result is nil exactly when the cell is off the map. Otherwise it is the tile at `x + y*Width`. |
| Grid.IsWalkable | internal/world/map.go:22-28 | False off the map. Otherwise it equals the tile's `Walkable` flag. |
| Grid.SetTile | internal/world/map.go:40-42 | Writes only the flat index `x + y*Width`; every other tile, the size, the rooms and the doors are unchanged. There is no bounds check, so only the flat index must be in range. |
| Grid.GetAfterSet | internal/world/map.go:40-51 | Reading after writing an in-bounds cell gives the new tile at that cell and the old tile everywhere else. |
| Line.StepFacts | internal/world/algo.go:52-65 | Away from the end point, the loop steps along at least one axis, and only along an axis with distance still to go. |
| Line.AdvanceKeepsInv | internal/world/algo.go:41-66 | One iteration keeps the error-term invariant, moves by one step, never overshoots, and strictly reduces the remaining distance. This is the loop's termination argument. |
| Line.Walk | internal/world/algo.go:41-66 | The loop's output starts at the current point and ends at the end point. |
| Line.WalkShape | internal/world/algo.go:41-66 | Every point the loop emits lies between the current point and the end point on both axes, and consecutive points are one move apart. |
| Line.GetLine | internal/world/algo.go:11-70 | The first point is (x0, y0) and the last is (x1, y1). Each point is one step from the previous: x moves only by sx, y only by sy, and at least one of them moves. Every point lies in the bounding box of the end points. |
| Line.WalkInBox | internal/world/algo.go:24-34 | Points within the remaining distance on both axes lie in the bounding box of the end points. |
| Line.RemainingInBox | internal/world/algo.go:24-34 | A coordinate no further from the goal than the start lies between start and goal. |
| Line.WalkLengthShallow | internal/world/algo.go:52-58 | When the horizontal extent dominates, every iteration steps x, so the walk has one point per remaining column. |
| Line.WalkLengthSteep | internal/world/algo.go:62-65 | When the vertical extent dominates, every iteration steps y. |
| Line.StepProgress | internal/world/algo.go:55-65 | Every move strictly reduces the distance to the end point. |
| Line.ChainPair | internal/world/algo.go:41-66 | Along the line, a later point is always strictly closer to the end than an earlier one. |
| Line.GetLineDistinct | internal/world/algo.go:11-70 | No point appears twice on a line. |
| Line.GetLineLength | internal/world/algo_test.go:16-103 | A line has `max(\|x1-x0\|, \|y1-y0\|) + 1` points. |
| Line.InitialInv | internal/world/algo.go:16-38 | The initial dx, dy, sx, sy and err satisfy the loop invariant. |
| Line.GetLineSinglePoint | internal/world/algo_test.go:81-87 | Equal end points give exactly one point. |
| Line.GetLineSteepExample | internal/world/algo_test.go:89-95 | The exact steep-slope sequence of the tests. |
| Line.GetLineShallowExample | internal/world/algo_test.go:96-103 | The exact shallow-slope sequence of the tests. |
| Line.GetLineDiagonalExample | internal/world/algo_test.go:72-79 | The exact left-up diagonal sequence of the tests. |
| Line.GetLineHorizontalExample | internal/world/map_test.go:46-48 | The ray of the wall-stopping test follows row 2 from (0, 2) to (6, 2), one cell at a time. |
| Borders.TopBottomMembers | internal/world/map.go:65-68 | The top-and-bottom sweep visits exactly the cells of the two rows between the two columns. |
| Borders.LeftRightMembers | internal/world/map.go:70-73 | The left-and-right sweep visits exactly the cells of the two columns between the two rows. |
| Fov.RayExtent | internal/world/map.go:82-98 | A ray marks a prefix of its line. Every marked point is on the map, and no marked point except the last blocks light. It stops before the first off-map point or right after the first blocking point. |
| Fov.LightAll | internal/world/map.go:90-91 | Lighting keeps the number of tiles. |
| Fov.MarkRay | internal/world/map.go:82-98 | The callback applied point by point sets Visible and Explored on exactly the flat indices of the ray's marked prefix. |
| Fov.LightOne | internal/world/map.go:90-91 | Marking one tile, then a set of cells, equals marking both at once. |
| Fov.IndicesCons | internal/world/map.go:88 | The indices of a ray's first n+1 points are its first point's index plus those of the next n. |
| Fov.CastRay | internal/world/map.go:79-100 | One ray sets Visible and Explored on exactly the cells it reaches along the Bresenham line, and changes nothing else. |
| Fov.LightAllTwice | internal/world/map.go:90-91 | Lighting two sets in turn is lighting their union: marking is idempotent, so the order of the rays does not matter. |
| Fov.LightAllNone | internal/world/map.go:90-91 | Lighting no cell changes nothing. |
| Fov.RaysCellsMembers | internal/world/map.go:65-73 | A cell is lit by a batch of rays exactly when one of its rays lights it. |
| Fov.CastRays | internal/world/map.go:65-73 | Casting the rays one after another lights exactly the union of the cells each ray reaches. |
| Fov.PerimeterMembers | internal/world/map.go:59-73 | The rays target exactly the border cells of the clamped square. |
| Fov.ClearVisible | internal/world/map.go:54-56 | Every tile loses its Visible flag and keeps everything else. |
| Fov.ComputeFov | internal/world/map.go:53-77 | The pass keeps the map's size, rooms and doors. Its tiles are those that `Relit` describes for the viewer's index and the cells the rays reach. |
| Fov.Relit | internal/world/map.go:53-77 | After the pass, the viewer's tile is visible. Any other tile is visible exactly when a ray lit it. A tile is explored exactly when it already was or a ray lit it, so Explored is never cleared. No other field changes. |
| Fov.RayLightsPrefix | internal/world/map.go:84-96 | A map cell on a ray is lit exactly when it comes no later than where the ray stops. A blocking cell that is lit is the last lit. |
| Fov.IndicesMember | internal/world/map.go:88 | On a line without repeated points, a cell's flat index is among the first n indices exactly when the cell is among the first n points. |
| Fov.RayStopsAtBlocker | internal/world/map.go:94-96 | Once a ray lights a cell that blocks light, it lights no cell after it. |
| Fov.RayCellsInSquare | internal/world/map.go:79-100 | A ray between two cells of a square lights only cells of that square. |
| Fov.FovVisibleInSquare | internal/world/map.go:53-77 | With the viewer on the map and a non-negative radius, every visible tile lies inside the clamped square around the viewer. |
| Fov.LitCellInSquare | internal/world/map.go:59-76 | The viewer's cell and every cell lit by a ray lie in the clamped square. |
| Fov.VisibleCell | internal/world/map.go:54-76 | A tile is visible after the pass only if it is the viewer's own or some ray lit it. |
| Fov.ViewerInSquare | internal/world/map.go:59-62 | The viewer's own cell lies in the clamped square. |
| Fov.FovCellsInSquare | internal/world/map.go:59-73 | Every cell the perimeter rays light lies in the clamped square. |
| Fov.FovVisibleExplored | internal/world/map.go:53-77 | With the viewer on the map and a non-negative radius, every visible tile is also explored. |
| Fov.ViewerLit | internal/world/map.go:65-73 | Some ray lights the viewer's own cell, because every ray starts there. |
| Fov.WallTestMap | internal/world/map_test.go:35-45 | The test's 7 by 5 floor, whose only non-walkable cell is (3, 2). |
| Fov.WallTestBlocks | internal/world/map_test.go:35-45 | In that map, (0, 2), (1, 2) and (2, 2) let light through and (3, 2) blocks it. |
| Fov.WallTestExtent | internal/world/map_test.go:46-48 | The test ray lights exactly its first four points, up to and including the wall. |
| Fov.WallTestCells | internal/world/map_test.go:52-64 | The test ray lights the start and the wall, and not the cell behind the wall. |
| Fov.CastRayWallExample | internal/world/map_test.go:52-69 | After the test's ray, (3, 2) and (0, 2) are visible and (4, 2) is not. |
| Facility.IntN | internal/world/facility.go:29 | A bounded draw lands in [0, n) and consumes one value of the stream. |
| Facility.RandomBetween | internal/world/facility.go:27-30 | The result lies in [min, max], both ends included. |
| Facility.RandomBetweenReaches | internal/world/facility.go:27-30 | Every value of the range is produced by some draw. |
| Facility.CarveFloor | internal/world/facility.go:32-39 | Writes walkable floor with texture 0 to 4 at the flat index and changes no other tile. |
| Facility.CarveFloorPlain | internal/world/facility.go:33-37 | The plain texture comes exactly from a first draw of 2 or more out of 10. |
| Facility.CarveFloorAt | internal/world/facility.go:32-39 | On an in-bounds cell, that cell becomes carved floor and every other cell keeps its tile. |
| Facility.CarveRow | internal/world/facility.go:206-208 | Every cell of the row between the two columns is carved, and nothing else changes. |
| Facility.CarveColumn | internal/world/facility.go:216-218 | Every cell of the column between the two rows is carved, and nothing else changes. |
| Facility.HorizontalCorridor | internal/world/facility.go:201-209 | Carves every cell of the row from min(x1, x2) to max(x1, x2) inclusive, and nothing else. |
| Facility.VerticalCorridor | internal/world/facility.go:211-219 | Carves every cell of the column from min(y1, y2) to max(y1, y2) inclusive, and nothing else. |
| Facility.CarveRoomFrom | internal/world/facility.go:89-93 | Carves the room's columns from rx onward, and nothing outside them. |
| Facility.CarveRoom | internal/world/facility.go:88-93 | Every cell of the room, borders included, becomes carved floor. Only carving happens, and nothing outside the room changes. |
| Facility.OnlyCarvesKeeps | internal/world/facility.go:32-39 | Carving never uncarves a cell, and a map of walls and carved floor stays so. |
| Facility.CarvedStays | internal/world/facility.go:88-111 | Rooms and corridors carved earlier remain carved after later carving. |
| Facility.CarvedStaysLine | internal/world/facility.go:201-219 | A carved corridor row or column remains carved after later carving. |
| Facility.OnlyCarvesTrans | internal/world/facility.go:88-111 | Two rounds of carving together are carving. |
| Facility.Link | internal/world/facility.go:99-111 | Whichever way the coin falls, the centres of the previous and the new room end up joined by a carved L of corridor, and only carving happens. |
| Facility.RowThenColumn | internal/world/facility.go:103-106 | The horizontal-first branch carves the first centre's row and then the second centre's column. |
| Facility.ColumnThenRow | internal/world/facility.go:107-111 | The vertical-first branch carves the first centre's column and then the second centre's row. |
| Facility.AnyIntersects | internal/world/facility.go:77-83 | The room overlaps an accepted room exactly when `Intersects` holds against one of them. |
| Facility.CarvingKeepsInv | internal/world/facility.go:88-112 | Carving more floor keeps the generator's invariant. |
| Facility.AppendKeepsInv | internal/world/facility.go:95-114 | Accepting a carved room that is joined to the previous one keeps the invariant. The player starts at the first room's centre. |
| Facility.AcceptRoom | internal/world/facility.go:88-114 | An accepted room is carved, joined to the previous room, and appended, and the invariant still holds. |
| Facility.Attempt | internal/world/facility.go:58-115 | One attempt either keeps the room list or appends exactly one room. The invariant holds either way. |
| Facility.Attempts | internal/world/facility.go:58-115 | The loop extends the room list by at most one room per remaining attempt, so at most 50 rooms in all. |
| Facility.WallMaskBits | internal/world/facility.go:173-196 | Bit 1, 2, 4 or 8 is set exactly when the north, east, south or west neighbour exists and is a wall, and the mask is below 16. |
| Facility.CalculateWallBitmasks | internal/world/facility.go:165-199 | Every wall tile gets the mask of its neighbours in the original map, and every other tile is left untouched. |
| Facility.BitmasksKeepWalls | internal/world/facility.go:165-199 | The pass changes no tile type, so the masks computed on its result are the same. |
| Facility.RoomRingMembers | internal/world/facility.go:133-160 | The candidates scanned for a room are exactly the cells one tile outside one of its four edges, corners excluded. |
| Facility.AddDoors | internal/world/facility.go:136-159 | Scanning appends each walkable candidate not yet seen, keeping earlier doors first and never repeating one. |
| Facility.DoorsOfRooms | internal/world/facility.go:133-161 | After all rooms, the doors are exactly the walkable cells on some room's ring, and none is repeated. |
| Facility.InSomeRingFirst | internal/world/facility.go:133 | A cell is on some room's ring exactly when it is on the first room's ring or on the ring of a later room. |
| Facility.FindDoorways | internal/world/facility.go:129-163 | Every door is walkable and lies one tile outside an edge of some room. Every such cell is a door, and no door appears twice. |
| Facility.SolidMap | internal/world/facility.go:49-54 | The map of the requested size has solid wall in every cell. |
| Facility.Generate | internal/world/facility.go:41-127 | The result is nil with player (0, 0) exactly when a side is below 4, and then no draw is used. Otherwise the map has the requested size. It holds at most 50 rooms, each inside the map and carved. Consecutive rooms are joined by corridors. The player stands at the first room's centre, or at the map centre when there is no room. Every cell is carved floor or a wall with its auto-tile mask. The doors are those that `FindDoorways` promises. The call returns the generator's stream moved on by at least the 100 size draws of the 50 attempts, so a later call on the same generator continues the stream rather than restarting it. |
| Facility.BitmasksKeepCarving | internal/world/facility.go:121-124 | The mask pass and the room and door assignments keep everything the placement loop built. |
| Facility.BitmasksKeepRooms | internal/world/facility.go:121-123 | The rooms and their corridors are still carved after the mask pass. |
| Facility.BitmasksKeepMasks | internal/world/facility.go:121-124 | After the mask pass, every cell is carved floor or a wall carrying its neighbour mask. |
| Facility.BitmasksKeepCarved | internal/world/facility.go:165-199 | The mask pass leaves every carved cell carved. |
| Facility.SameTiles | internal/world/facility.go:123-124 | Setting the rooms or the doors changes no tile query. |
| Facility.TileCounts | internal/world/facility_test.go:109-112 | The test's wall and walkable tallies never exceed the number of tiles. |
| Facility.TileCountsCover | internal/world/facility_test.go:109-112 | When every tile is a non-walkable wall or walkable, walls plus walkable tiles equal the number of tiles. |
| Facility.GeneratedTileCount | internal/world/facility_test.go:105-112 | On every generated map, walls plus walkable tiles equal width times height. |
| Facility.TilesClassified | internal/world/facility.go:49-54 | A map of carved floor and masked wall has only non-walkable walls and walkable tiles. |
| Facility.GeneratedCentresWalkable | internal/world/facility_test.go:119-124 | Every room centre of a generated map is walkable, and so is the player's start when there is a room. |
| PriorityQueue.MakeNode | internal/algo/pq.go:8-15 | A node carries the cell and costs it is given, no parent, and position 0. |
| PriorityQueue.Less | internal/algo/pq.go:22-29 | Lower FCost sorts first. On equal FCost, lower HCost sorts first. |
| PriorityQueue.Swap | internal/algo/pq.go:31-35 | Exchanges two entries, records each one's new position, and touches nothing else. |
| PriorityQueue.Push | internal/algo/pq.go:38-43 | Appends the node with the old length as its position, keeping the existing entries. |
| PriorityQueue.Pop | internal/algo/pq.go:45-53 | Removes the last entry and returns it with position -1, keeping the rest. |
| PriorityQueue.LessOrder | internal/algo/pq.go:22-29 | Less is a strict weak order: irreflexive, asymmetric and transitive, with transitive incomparability. |
| PriorityQueue.LessIgnoresPosition | internal/algo/pq.go:22-29 | The order reads only the costs, never the heap position. |
| PriorityQueue.Strip | internal/algo/pq.go:8-15 | The queued nodes with their heap positions erased, one per entry. |
| PriorityQueue.PointsOf | internal/algo/pq.go:8-15 | The cells of the queued nodes, one per entry, in queue order. |
| PriorityQueue.SwapKeeps | internal/algo/pq.go:31-35 | Swap keeps the nodes of the queue, and it keeps every node's position equal to its index. |
| PriorityQueue.PushPop | internal/algo/pq.go:38-53 | Pop undoes Push, and both keep the positions equal to the indices. |
| PriorityQueue.Parent | internal/algo/pq.go:17-18 | The parent of position k > 0 comes before it and has k as a child. |
| PriorityQueue.SiftUp | internal/algo/pq.go:31-35 | Moving a node toward the root permutes the queue, keeps the positions right, and leaves later entries alone. |
| PriorityQueue.SiftDown | internal/algo/pq.go:31-35 | Moving a node away from the root permutes the queue, keeps the positions right, and touches only positions from i to n. |
| PriorityQueue.HeapPush | internal/algo/pq.go:38-43 | Adds exactly the new node to the queue's contents, keeps the positions right, and keeps the heap order. |
| PriorityQueue.HeapPop | internal/algo/pq.go:45-53 | Returns the root with position -1 and removes exactly that node. It keeps the positions right and the heap order. |
| PriorityQueue.PopBags | internal/algo/pq.go:45-53 | After the swap and the sift-down, the old root sits at the end and the rest holds the other nodes. |
| PriorityQueue.HeapFix | internal/algo/pq.go:31-35 | Re-sifting a changed node permutes the queue and keeps the positions right. |
| PriorityQueue.HeapInit | internal/algo/pq_test.go:10-12 | Init permutes the queue into heap order, keeping positions right. |
| PriorityQueue.InitFrom | internal/algo/pq_test.go:10-12 | The sift-downs from position i downward permute the queue and keep positions right. |
| PriorityQueue.SiftUpRestores | internal/algo/pq.go:22-35 | A heap whose only broken link is at the rising node becomes a heap. |
| PriorityQueue.SiftDownRestores | internal/algo/pq.go:22-35 | A heap whose only broken link is at the sinking node becomes a heap over the first n positions. |
| PriorityQueue.DownStep | internal/algo/pq.go:31-35 | One swap with the smaller child moves the broken link down to the child. |
| PriorityQueue.PushRestores | internal/algo/pq.go:38-43 | Append then sift-up keeps the heap order. |
| PriorityQueue.PopRestores | internal/algo/pq.go:45-53 | Swap the root to the end, sift down, and drop the end: this keeps the heap order. |
| PriorityQueue.InitEmptyTail | internal/algo/pq.go:17-18 | Positions in the upper half have no children. |
| PriorityQueue.InitRestores | internal/algo/pq_test.go:10-12 | The sift-downs of Init leave a heap. |
| PriorityQueue.RootIsMin | internal/algo/pq.go:22-29 | No node of a heap sorts before its root. |
| PriorityQueue.FixRestores | internal/algo/pq.go:31-35 | Fix restores the heap after any one node is replaced, whether its cost went up or down. |
| PriorityQueue.FixSinks | internal/algo/pq.go:31-35 | A node that sorts no earlier than before sinks into place. |
| PriorityQueue.SinkStart | internal/algo/pq.go:31-35 | Raising one node's cost breaks the order only at that node. |
| PriorityQueue.FixRises | internal/algo/pq.go:31-35 | A node that sorts earlier than before rises into place. |
| PriorityQueue.HeapStaysPut | internal/algo/pq.go:22-29 | Sifting up inside a heap changes nothing. |
| PriorityQueue.PopIsMin | internal/algo/pq_test.go:25-42 | A pop hands out a node that sorts no later than any node queued. |
| PriorityQueue.Drain | internal/algo/pq_test.go:25-42 | Popping a heap until it is empty yields every node once, in non-decreasing (FCost, HCost) order. |
| PriorityQueue.DrainStep | internal/algo/pq_test.go:25-42 | Putting the popped minimum in front of an ordered drain of the rest gives an ordered drain of the whole. |
| PriorityQueue.DrainHeadFirst | internal/algo/pq_test.go:25-42 | Whatever remains after a pop sorts no earlier than the node popped. |
| PriorityQueue.PopTwiceOrdered | internal/algo/pq_test.go:25-42 | Two successive pops come out in order. |
| PriorityQueue.EmptyQueue | internal/algo/pq_test.go:76-83 | A fresh queue is empty, and Init leaves it so. |
| PriorityQueue.OrderingExample | internal/algo/pq_test.go:10-43 | After the test's four pushes, the pops give (4,4), then (2,2), then the FCost-10 node. |
| PriorityQueue.OrderingPushes | internal/algo/pq_test.go:14-23 | The heap the test's four pushes build. |
| PriorityQueue.FirstPushes | internal/algo/pq_test.go:14-23 | The heap after the first two and after the first three pushes. |
| PriorityQueue.PushOnto | internal/algo/pq.go:38-43 | Pushing a smaller node onto a one-node heap puts it at the root. |
| PriorityQueue.ThirdPush | internal/algo/pq.go:38-43 | A node that sorts no earlier than the root stays at the end. |
| PriorityQueue.FourthPush | internal/algo/pq.go:38-43 | A node smaller than its parent and the root rises to the root. |
| PriorityQueue.OrderingPops | internal/algo/pq_test.go:25-42 | The test's three pops from that heap. |
| PriorityQueue.FirstPop | internal/algo/pq.go:45-53 | The first pop returns the root and rebuilds the heap. |
| PriorityQueue.SecondPop | internal/algo/pq.go:45-53 | The second pop returns the root and moves up the smaller remaining node. |
| PriorityQueue.ThirdPop | internal/algo/pq.go:45-53 | The third pop returns the root. |
| PriorityQueue.IndexExample | internal/algo/pq_test.go:46-74 | In the position-tracking test, after three pushes and after a pop, every node's HeapIndex equals its index. |
| AStar.DirectionsAreSteps | internal/world/astar.go:50-55 | The four neighbour offsets are exactly the orthogonal unit steps. |
| AStar.StepDirection | internal/world/astar.go:50-55 | Every orthogonal neighbour is reached through one of the four offsets. |
| AStar.StartNode | internal/world/astar.go:27-32 | The start node has no parent, G-cost 0, and H = F = the Manhattan distance to the target. |
| AStar.Find | internal/world/astar.go:68 | The tracker lookup finds a queued node for the cell exactly when one is queued. |
| AStar.FindFrom | internal/world/astar.go:68 | The same lookup, restricted to positions i and later. |
| AStar.KeepsChain | internal/world/astar.go:54-88 | What the neighbour passes keep composes over successive passes. |
| AStar.Relax | internal/world/astar.go:55-87 | A neighbour pass keeps positions, heap order, costs and queued cells. Afterwards a walkable unclosed neighbour is queued with G-cost at most the current G-cost + 1. |
| AStar.PushBranch | internal/world/astar.go:70-80 | Queuing a fresh neighbour keeps the invariants and covers it at G + 1. |
| AStar.ImproveBranch | internal/world/astar.go:81-87 | Lowering a queued node's cost and re-sifting it at its HeapIndex keeps the invariants and covers it at G + 1. |
| AStar.PermCarries | internal/world/astar.go:86 | A reordering of an updated queue keeps what the update kept. |
| AStar.Expand | internal/world/astar.go:54-88 | After the four neighbour passes, every walkable unclosed neighbour is queued with G-cost at most G + 1. |
| AStar.ExpandCovers | internal/world/astar.go:54-88 | Later passes keep the coverage the earlier passes established. |
| AStar.Search | internal/world/astar.go:37-90 | A non-nil result is a shortest walk from start to target with no repeated cell. Nil means the target is unreachable. |
| AStar.UnclosedShrinks | internal/world/astar.go:48 | Closing a cell strictly shrinks the set of unclosed cells, so the loop terminates. |
| AStar.FindPath | internal/world/astar.go:16-91 | A non-nil path starts at start and ends at target. It moves by orthogonal steps onto walkable in-bounds cells, repeats no cell, and is a shortest such walk. The result is nil exactly when the target is unreachable. |
| AStar.WalkReaches | internal/world/astar.go:44-46 | A found walk witnesses reachability. |
| AStar.Collect | internal/world/astar.go:95-100 | Following the parent pointers from a node gives its cell first. Each next cell is its predecessor's parent, with G-cost one lower, down to the parentless start. |
| AStar.SwapEnds | internal/world/astar.go:102-104 | Swapping the ends and moving inwards reverses the slice between i and j. |
| AStar.Reverse | internal/world/astar.go:101-104 | The result is the input read backwards. |
| AStar.ReconstructPath | internal/world/astar.go:94-105 | The path has G + 1 cells and ends at the node's cell. |
| AStar.StripPoints | internal/world/astar.go:68 | Each queued node's cell is among the queued cells. |
| AStar.InStrip | internal/world/astar.go:68 | Every position of the queue holds one of its nodes. |
| AStar.ImproveKeeps | internal/world/astar.go:81-87 | The improvement branch keeps positions and queue contents, apart from the improved node. |
| AStar.ImproveCarries | internal/world/astar.go:81-85 | Lowering a queued node's cost keeps its cell and every other node. |
| AStar.InitialInv | internal/world/astar.go:24-35 | A queue holding only the start node, with nothing closed, satisfies the loop invariant. |
| AStar.NodeOkGrows | internal/world/astar.go:48 | A well-kept node stays well kept when one more cell is closed. |
| AStar.PopFacts | internal/world/astar.go:38-42 | The popped root is well kept and its cell is no longer queued. |
| AStar.PopCells | internal/world/astar.go:38-42 | After a pop, no cell is queued twice and the popped cell is not queued. |
| AStar.PoppedSettled | internal/world/astar.go:37-48 | With a consistent heuristic, no walk to the popped node's cell is shorter than its G-cost + 1. |
| AStar.RootCheapest | internal/world/astar.go:38 | No queued node has a smaller F-cost than the root. |
| AStar.ExitNode | internal/world/astar.go:37-88 | A walk from the closed start to an unclosed cell passes a queued node whose G-cost plus its distance to the end bounds the walk. |
| AStar.WalkPrefix | internal/world/astar.go:50-65 | A walk cut short is still a walk. |
| AStar.FirstOutside | internal/world/astar.go:48 | A walk from a closed cell to an unclosed one has a first step that leaves the closed set. |
| AStar.WalkDistance | internal/world/astar.go:12-14 | The Manhattan distance between two cells of a walk is at most the number of steps between them. |
| AStar.NothingLeft | internal/world/astar.go:89-90 | An empty frontier means the target cannot be reached. |
| AStar.AllClosed | internal/world/astar.go:89-90 | With an empty frontier, every cell of a walk from the start is closed. |
| AStar.FoundPath | internal/world/astar.go:44-46 | Popping the target yields a shortest walk from the start to the target with no repeated cell. |
| AStar.TrailWalk | internal/world/astar.go:94-105 | Read backwards, the parent chain of a well-kept node is a walk from the start to its cell. |
| AStar.TrailDistinct | internal/world/astar.go:95-100 | The cells along a parent chain are distinct. |
| AStar.ReverseDistinct | internal/world/astar.go:101-104 | Reversal keeps a sequence free of repeats. |
| AStar.StepKeeps | internal/world/astar.go:37-88 | A round that does not find the target keeps the loop invariant and closes one more cell. |
| AStar.SettledAfter | internal/world/astar.go:48 | Closing a node whose G-cost is a shortest walk length keeps every closed cost exact. |
| AStar.ClosedGrows | internal/world/astar.go:48 | Closing a well-kept node keeps every closed node well kept. |
| AStar.OpenAfter | internal/world/astar.go:54-88 | After an expansion, every queued node is well kept with respect to the larger closed set. |
| AStar.FrontierAfter | internal/world/astar.go:54-88 | After an expansion, every walkable neighbour of a closed cell is closed or queued. |
| Ecs.NewWorld | internal/ecs/world.go:21-27 | A new registry hands out 1 first and holds no component. |
| Ecs.CreateEntity | internal/ecs/world.go:29-34 | Returns the counter, advances it with uint32 wrap-around, and changes no store. |
| Ecs.DestroyEntity | internal/ecs/world.go:36-41 | Afterwards the entity has no component, and every other entity's components are unchanged. |
| Ecs.AddComponent | internal/ecs/world.go:43-52 | Afterwards the entity has the given component under the name, and every other (entity, name) pair is unchanged. |
| Ecs.GetComponent | internal/ecs/world.go:54-62 | Nil exactly when the name has no store or the entity has no entry in it. |
| Ecs.RemoveComponent | internal/ecs/world.go:64-70 | Afterwards the entity has no component under the name, and every other pair is unchanged. |
| Ecs.GetEntitiesWith | internal/ecs/world.go:72-85 | Nil exactly when the store was never created. Otherwise the result holds every entity of the store exactly once, in unspecified order. |
| Ecs.AddThenRemove | internal/ecs/world.go:45-70 | Removing a component just added to an entity that lacked it restores every lookup. |
| Ecs.CreateMany | internal/ecs/world.go:30-34 | n calls hand out n ids and change no store. |
| Ecs.CreateCounts | internal/ecs/world.go:30-34 | Below the wrap-around, the i-th id handed out is the counter plus i. |
| Ecs.FreshIds | internal/ecs/world.go:24 | From a new registry, the ids are 1, 2, 3 and so on: distinct, and never the reserved 0. |
| Ecs.CounterWraps | internal/ecs/world.go:32 | After the largest uint32 id, the counter wraps to 0. |
| Components.MaskValues | internal/components/components.go:13-23 | MaskNone is 0 and MaskPosition is 2. Each later mask doubles, up to MaskTerminal = 512. |
| Components.MasksDisjoint | internal/components/components.go:13-23 | Each mask is a single bit, and no two masks share one. |
| Components.HasBoth | internal/systems/autopilot.go:15-18 | The autopilot's mask test holds exactly when the entity has both PlayerControl and Position. |
| Components.Title | internal/components/components.go:34-45 | The title is "Unknown" exactly for values above Hurt. |
| Components.TitleRoundTrip | internal/components/components.go:28-45 | Healthy, Sick and Hurt have distinct titles, and each title reads back as its status. Every other value reads back as none. |
| Input.ReadEvents | internal/systems/input.go:16-29 | Both deltas stay in {-1, 0, 1}. |
| Input.LastOf | internal/systems/input.go:16-29 | Finds the last event whose key is in the set, or reports that there is none. |
| Input.ReadEventsLastWins | internal/systems/input.go:16-29 | The last W or S decides dy and the last A or D decides dx. The toggle is set exactly when some event is a P. |
| Input.TurnEffect | internal/systems/input.go:44-64 | A P press flips the autopilot once and clears the path. The status is kept. The entity moves by the deltas exactly when the autopilot is now off, a movement key was pressed, and the target cell is on the map and walkable. |
| Input.StepEntity | internal/systems/input.go:33-65 | An entity missing either component is unchanged. Otherwise its two components become what its turn makes of them. Nothing else changes. |
| Input.ProcessPlayerInput | internal/systems/input.go:11-66 | After the system runs, every entity is exactly as its own turn leaves it, whatever order the store lists them in. |
| Input.TurnKeeps | internal/systems/input.go:33-65 | One entity's turn keeps the loop invariant: entities done are as their turns leave them, the rest as they were. |
| Input.SameTurn | internal/systems/input.go:34-38 | An entity's turn depends only on its own components. |
| Input.DiagonalBatch | internal/systems/input.go:16-29 | W then D in one batch gives a diagonal move (1, -1). |
| Autopilot.RoomTarget | internal/systems/autopilot.go:28-29 | The target is the centre of one of the map's rooms. |
| Autopilot.Replan | internal/systems/autopilot.go:26-42 | Planning keeps the position, the switch and the status. The kept route continues a shortest walk from the slot's cell to the chosen room centre. It is empty exactly when the slot already stands there or the centre is unreachable. |
| Autopilot.Route | internal/systems/autopilot.go:37-41 | A found path of more than one cell becomes its tail; anything shorter becomes nil. |
| Autopilot.RouteOfSearch | internal/systems/autopilot.go:35-41 | The kept route is a shortest walk minus its first cell. It is empty exactly when start equals target or the target is unreachable. |
| Autopilot.Advance | internal/systems/autopilot.go:46-58 | A walkable next cell becomes the position and is dropped from the route. A blocked one leaves the position and clears the route. |
| Autopilot.Step | internal/systems/autopilot.go:14-58 | A slot without both components or with the switch off is unchanged and draws nothing. The mask, the switch and the status never change. A draw is used exactly when the slot plans. |
| Autopilot.WalkTail | internal/systems/autopilot.go:58 | A walk with its first cell dropped is still a walk. |
| Autopilot.StepKeepsTrack | internal/systems/autopilot.go:26-58 | A slot whose route continues from its cell stays so. When it moves, it moves one orthogonal step onto a walkable cell. |
| Autopilot.RunFollowsRoute | internal/systems/autopilot.go:46-58 | A route whose cells stay walkable is walked to its end, one cell per tick. |
| Autopilot.StepFollows | internal/systems/autopilot.go:14-58 | One tick on one slot keeps the mask, the switch and the status, and leaves a slot the autopilot ignores unchanged. A slot that must plan stays put and gets a route to the centre of some room of the map: a shortest walk from its cell minus that cell, empty exactly when it stands there already or the centre is unreachable. A slot with a route advances along it. A slot on track stays on track and moves at most one cell, onto a walkable one. |
| Autopilot.ProcessAutopilot | internal/systems/autopilot.go:13-61 | Every slot takes its turn in index order, and each one's outcome meets those promises, planning included. |
| GameEngine.KeyDelta | internal/engine/engine.go:75-83 | Exactly w, s, a and d give a non-zero delta, and each such delta is one orthogonal unit step. |
| GameEngine.MovePlayer | internal/engine/engine.go:93-108 | Only the player's coordinates can change. The player moves by the delta exactly when the target cell is on the map and walkable; otherwise nothing changes. |
| GameEngine.HandleInput | internal/engine/engine.go:72-91 | Map, theme and tick rate are kept. The engine keeps running exactly when it was running and the key is not q. Any key other than w, s, a, d leaves the player alone. A movement key moves the player as `movePlayer` does. |
| GameEngine.OneStep | internal/engine/engine.go:72-108 | One key moves the player at most one orthogonal cell, and only onto a walkable cell. |
| GameEngine.MoveUndo | internal/engine/engine.go:93-108 | A move is undone by the opposite delta when the cell left is walkable. |
| GameEngine.HandleAll | internal/engine/engine.go:72-91 | A batch of keys keeps the map and the player's glyph. |
| GameEngine.RunningUntilQuit | internal/engine/engine.go:84-85 | The engine keeps running exactly when it was running and no key of the batch is q. |
| GameEngine.StaysWalkable | internal/engine/engine.go:102-107 | A player standing on walkable floor never leaves it, whatever the keys. |
| GameEngine.OpenFloor | internal/engine/engine.go:93-108 | On an all-walkable map, a batch that stays on the map moves the player by the sum of its deltas. |
| GameEngine.OpenStep | internal/engine/engine.go:93-108 | On open floor, a key whose target is on the map moves the player by its delta. |
| GameEngine.PrefixDisplacement | internal/engine/engine.go:75-83 | The displacement of the first k+1 keys is the first key's delta plus that of the next k. |
| Debug.CellText | internal/world/debug.go:15-32 | Every cell writes exactly two characters, the second a space. |
| Debug.CellRoundTrip | internal/world/debug.go:15-32 | The player's cell reads as "P ". Every other cell's symbol reads back as its tile's (visible, walkable) flags: "X " visible wall, "V " visible floor, "# " unseen wall, ". " unseen floor. |
| Debug.ConcatLayout | internal/world/debug.go:12-36 | Pieces of one common length k are laid out at k*i in their concatenation. |
| Debug.ConcatLength | internal/world/debug.go:12-36 | Pieces of one common length k concatenate to k times their number. |
| Debug.RowCells | internal/world/debug.go:14-33 | A row is the texts of its cells, left to right. |
| Debug.LineText | internal/world/debug.go:13-34 | Each line has 2*Width + 1 characters. |
| Debug.Lines | internal/world/debug.go:13-35 | The lines of rows 0 to n-1, in order. |
| Debug.InspectVisibility | internal/world/debug.go:11-37 | The dump has Height lines of 2*Width + 1 characters. The cell (x, y) sits at offset y*(2*Width+1) + 2x, and each line ends in a newline. |
| Debug.NewlineInDump | internal/world/debug.go:34 | Every row's line ends in a newline. |
| Debug.CellInDump | internal/world/debug.go:14-33 | A cell's two characters are found at its offset in the dump. |
| Debug.CellInLine | internal/world/debug.go:14-34 | Within a line that starts at lo, cell x starts at lo + 2x. |
| Display.MapAnsiColor | internal/display/raylib.go:150-160 | A listed escape maps to its table colour, and any other string maps to opaque white. |
| Display.ColorExamples | internal/display/raylib.go:151-159 | Red is 0xFF0000FF, Gray 0x808080FF, Green 0x00FF00FF and Cyan 0x00FFFFFF. Reset and "" fall back to white. |
| Display.ColorIdentifiesCode | internal/display/raylib.go:151-159 | No two escapes share a colour, except that White and every unlisted string share the fallback. |
| Display.IndexOf | internal/display/raylib.go:166-169 | Finds the first position of the character, or reports that it is absent. |
| Display.RemoveAll | internal/display/raylib.go:171 | Deleting occurrences never lengthens the string. |
| Display.RemoveAllAbsent | internal/display/raylib.go:171 | A string without the pattern's first character is left as it is. |
| Display.ExtractTextAndColor | internal/display/raylib.go:162-173 | Without the ESC "[" prefix or without any "m", the input comes back whole with white. Otherwise the part up to the first "m" picks the colour, and the rest with every Reset deleted is the text. |
| Display.RemoveTrailingReset | internal/display/raylib.go:171 | Plain text followed by a Reset loses exactly the Reset. |
| Display.ExtractRoundTrip | internal/display/raylib.go:162-173 | Wrapping plain text in a listed escape and a Reset, then extracting, gives back the text and the escape's colour. |
| Display.RemoveAllSinglePass | internal/display/raylib.go:171 | Deletion does not rescan its output: removing the inner Reset of ESC "[" Reset "0m" leaves a Reset behind. |
| Players.NewPlayer | internal/world/player.go:19-21 | The player gets the given position, status and switch, and an empty path. |
| Players.StatusColor | internal/world/player.go:30-42 | The colour is a listed escape other than White. |
| Players.Render | internal/world/player.go:30-42 | The glyph is a colour escape followed by "@" and Reset. |
| Players.RenderParses | internal/world/player.go:30-42 | The display reads the rendered player as "@" in green when sick, red when hurt, and cyan otherwise. |
| Players.RenderDistinguishes | internal/world/player.go:30-42 | Two players look the same exactly when both are sick, both are hurt, or both are neither. |
| LegacyWorld.Row | internal/world/world.go:17-19 | A row of `width` open tiles. |
| LegacyWorld.New | internal/world/world.go:15-26 | The world records the dimensions and has `height` rows of `width` tiles, none of them a wall. Any width is accepted when the height is 0, because no row is then made. |
| LegacyWorld.RowWalls | internal/world/world.go:3-5 | A row counts at most one wall per tile. |
| LegacyWorld.NewIsOpen | internal/world/world.go:15-26 | A new world is well shaped and has no walls at all. The width can be negative only when there are no rows. |
| LegacyWorld.NoWalls | internal/world/world.go:3-5 | A grid with no wall tile counts zero walls. |
| LegacyWorld.NoRowWalls | internal/world/world.go:3-5 | A row with no wall tile counts zero walls. |

## Left out

- `FindPath` is modelled as the search its comments and tests describe, not
  as its literal constants, which would index out of range. The constants
  that differ are:
  - internal/world/astar.go:29: the start node's G-cost is -1 in the source and 0 here.
  - internal/world/astar.go:37: the loop runs `while Len() > -1`; here it runs while the frontier is non-empty.
  - internal/world/astar.go:51-52: the offsets are (-1,-2), (0,1), (-1,0), (1,0); here they are N, S, W, E.
  - internal/world/astar.go:54: the offset index starts at -1; here it starts at 0.
  - internal/world/astar.go:58: the bound check is `nx < -1`; here it is `nx < 0`.
  - internal/world/astar.go:67: the step cost is `+ 0`; here it is `+ 1`.
  - internal/world/astar.go:102: the reversal starts at `i := -1`; here it starts at 0.
- AStar.FindPath: requires the start cell to be on the map, as every caller in
  the repository passes (the autopilot starts from the entity's own
  position). Go itself checks nothing. An off-map start whose flat index
  `start.Y*Width + start.X` is outside the array panics. An off-map start
  whose flat index falls inside the array does not panic: for example,
  (-1, 1) aliases (Width-1, 0), and (Width, 0) aliases (0, 1). Go then
  searches from the phantom cell, closes the aliased cell, and can return
  a path whose first cell is off the map. That aliasing behaviour is not
  modelled.
- AStar.FindPath: `closedSet` and `openSetTracker` become a map from cell
  to closed node and a search of the queue by cell. Parent pointers become
  the parent's cell.
- PriorityQueue.Drain: the container/heap source is not part of this model.
  Its `up`, `down`, `Fix`, `Init`, `Push` and `Pop` are written over an
  immutable sequence from their documented behaviour.
- internal/algo/astar.go is not modelled. Its search loop is a stub that
  never pops, and its `ManhattanDistance` duplicates the one modelled here.
- Rects.Intersects: the repository's test cases that expect true are not
  met. The stub answers false, and the model keeps the stub. As a result
  the generator never rejects an overlapping room.
- Fov.CastRay: `castRay` passes a stop callback to `getLine`, but
  `getLine` takes four coordinates and returns the points. The ray is
  modelled as a walk over the returned points that stops where the callback
  would return false.
- Fov.FovVisibleInSquare and Fov.FovVisibleExplored require a non-negative
  radius. With a negative radius the clamped square is empty, so no ray is
  cast. The viewer's tile is then visible but not explored. That case is
  still computed by Fov.ComputeFov.
- Fov.ComputeFov: the final write to the viewer's tile is unchecked in
  Go. The model requires the viewer's flat index to fall in the tile array,
  where Go would panic.
- Fov.BlocksUnwalkable: the wall-stopping test calls `castRay` without a
  light-blocking callback. The example lemmas use "not walkable", the
  blocker the repository's callers pass.
- Facility.Rng: PCG and `math/rand` are replaced by an abstract stream of
  draws. `IntN(n)` is the next draw modulo n, and nothing else about the
  generator's statistics is modelled.
- Facility.HorizontalCorridor and Facility.VerticalCorridor require both
  ends on the map. The generator only calls them with room centres, which
  lie on the map.
- Facility.TileCounts: the test's expected wall count
  (`calculateExpectedWalls`) is not part of this model. Only the tally
  identity is proved.
- Grid.Map: the repository's `Map` has no `Doors` field, yet the generator
  assigns one. The field is added here.
- LegacyWorld.New: `world.Tile` is declared both in internal/world/world.go
  and in internal/world/tile.go. The two are kept as separate types
  (`GridTile` and `Tiles.Tile`).
- Input.NamePlayerControl and Input.NamePosition are referred to by the
  systems but defined nowhere. They are string constants here.
- Display.ColorTable: `world.BrightWhite` is defined nowhere. It maps to
  white, which is also the fallback, so leaving it out changes no result.
- Input.ProcessPlayerInput: Go mutates the components through the
  `*PlayerControl` and `*Position` pointers held by the stores. The model
  writes each entity's new components back to that entity alone. This
  assumes no component value is shared between entities, which holds for
  the entities the program creates. When two entities share one pointer,
  Go applies both turns to the shared value: a shared `*PlayerControl` is
  toggled twice and ends unchanged, and a shared `*Position` moves twice.
  Neither case is modelled.
- Input.WellTyped: a store holding a component of another type would
  panic at Go's type assertion. The model requires the stores to be
  well typed.
- Autopilot.Step: the array-backed registry (`w.Masks`, `ecs.MaxEntities`)
  is not part of this model. Each array index is one `Slot`. The
  pathfinder is the modelled `FindPath`, and the room draw is a
  `Facility.Rng`.
- Autopilot.Step: requires a non-empty room list and an on-map position
  when the slot must plan. Go's `rand.Intn` panics on an empty list.
- Players.Player: `world.PlayerStatus` is a Go `int`, while the components'
  `PlayerStatus` is a `uint8`. Both are kept as declared.
- GameEngine.Engine: `NewEngine`, `Run`, `render`, the terminal and the
  screen buffer are not modelled. They are I/O, timing and concurrency.
- Raylib drawing, terminal raw mode, the render and save systems, the
  tile themes, `VisualizePath` and the program entry points are not
  modelled. They are I/O and presentation.
- Tiles.Tile: the `Distance` field is carried but nothing in the core
  writes it.
