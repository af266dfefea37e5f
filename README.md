# Dungeon and cave terrain generation, modelled in Dafny

This project models the terrain generators of a small grid-based roguelike
(`procgen.py`) and the tile catalog they write (`tile_types.py`).

- **Tile catalog** (`tiles.dfy`, module `Tiles`). A tile has a walkable flag,
  a transparent flag and a "dark" appearance: a glyph held in a signed 32-bit
  field, plus foreground and background colours held as three unsigned bytes
  each. `NewTile` stores its arguments. A value too wide for its field is
  assumed to keep only its low bits (see "Left out"). The constants `Floor`
  and `Wall` are the two canonical tiles.
- **Rooms** (`rooms.dfy`, module `Rooms`). A rectangular room is built from a
  top-left point and a size. Its centre is the midpoint rounded toward zero.
  Its inner area leaves out the outer ring. Its overlap test counts rooms that
  only share an edge or a corner as intersecting.
- **Tunnels** (`tunnels.dfy`, module `Tunnels`). An L-shaped tunnel runs from
  one centre to another through one of two elbows, chosen by a coin flip. It is
  made of two straight runs, and the elbow appears in both.
- **Dungeon generator** (`dungeon.dfy`, module `Dungeon`). `GenerateDungeon`
  makes up to `maxRooms` attempts and drops every candidate that intersects an
  accepted room. For each accepted room it carves the inner area, and from the
  second room on it carves the tunnel from the previous room's centre. It then
  moves the player to the first accepted centre and the npc to the last. The
  attempt loop itself is `RunAttempts`. `Place`/`Layout` give the same outcome
  as a function. The method is proved to
  build exactly the map that `Layout` and the predicate `Carved` describe.
- **Cave generator** (`cave.dfy`, module `Cave`). `InitializeCave` seeds a
  height-by-width grid of WALL (0) and FLOOR (1) from noise. It then runs six
  generations of the neighbour-count rule in place, in row-major order. The
  method is proved equal to the functional `CaveOf`, and the lemmas prove what
  holds of `CaveOf`.

Randomness is an input everywhere:

- Each dungeon attempt gets a `Draw` holding the room width, height, x and y,
  plus the tunnel coin flip. `horizontalFirst` means the draw was below 0.5.
- When a bounded draw's range is non-empty, the draw must lie in that range.
  An empty range is the generator's error `EmptyRange`.
- The cave noise is a boolean grid. True means the uniform draw fell below the
  fill probability 0.4, so the cell starts as WALL.

The smoothing is modelled in place, as the code does it
(`procgen.py:148-167`), not double-buffered. Each cell reads its neighbours as
they are at that moment, so cells above and to the left have already been
rewritten in the same generation.

An all-floor seed does not give an open cave, whatever the update order. The
cause is the rule: in the first five generations, a cell that sees at most
seven walls in its 5x5 window becomes wall. With a separate output buffer, the
first generation would turn an all-floor grid entirely into wall. In place,
cells later in row-major order see the walls already written and may become
floor. Only the all-wall case is proved here (`AllWallSeedStaysWall`).

An attempt whose draw range is empty raises in the source at the draw itself
(`procgen.py:79-84`). The model reports this as the error `EmptyRange`. The
source reads an unassigned variable when it sets the npc position
(`procgen.py:108`) only when no attempt is made at all, that is when
`max_rooms <= 0`. The model reports this as the error `NoRoomsPlaced`, and
`Dungeon.NoRoomsPlacedOnlyWithoutAttempts` proves that condition.
`Dungeon.NoRoomsOnlyWithoutAttempts` shows that no room is accepted exactly
when there is no attempt or the first attempt has an empty draw range.

Both spawn points are carved cells when rooms are at least 2 wide and high, or
when at least two rooms are accepted (`Dungeon.SpawnsOnFloor`). Without either
condition they need not be. With a minimum room size of 1 and a single room,
that room's centre lies on its own edge and stays wall. Lemma
`Dungeon.TinyRoomSpawnNotCarved` exhibits such an input.

## Model

| member | source | states |
|---|---|---|
| `Tiles.ToByte` | tile_types.py:8-9 | a colour component is stored as an unsigned byte congruent to it modulo 256, unchanged when it already fits |
| `Tiles.ToInt32` | tile_types.py:7 | the glyph is stored as a signed 32-bit value congruent to it modulo 2^32, unchanged when it already fits |
| `Tiles.NewTile` | tile_types.py:21-27 | the walkable and transparent arguments are stored unchanged; the appearance reads back as given exactly when every component fits its field |
| `Tiles.NewTileRoundTrip` | tile_types.py:21-27 | reading a tile built from storable arguments gives back all three arguments |
| `Tiles.FloorAttributes` | tile_types.py:29-31 | the constant `Tiles.Floor` is walkable and transparent, glyph 32 (space), foreground (255,255,255), background (0,0,0) |
| `Tiles.WallAttributes` | tile_types.py:32-34 | the constant `Tiles.Wall` is neither walkable nor transparent, glyph 35 ('#'), foreground (161,192,207), background (0,0,0) |
| `Tiles.FloorIsNotWall` | tile_types.py:29-34 | the two tiles differ, and their walkability tells them apart |
| `Rooms.NewRoom` | procgen.py:13-17 | the room's top-left corner is the given point and it spans exactly width columns and height rows (x2 = x1 + width, y2 = y1 + height) |
| `Rooms.TruncHalf` | procgen.py:21-22 | halving rounds toward zero: the remainder is 0 or 1 for non-negative sums and 0 or -1 for negative ones |
| `Rooms.Center` | procgen.py:19-24 | the centre of a room that is not inverted lies between its corners |
| `Rooms.CenterIsTruncatedMidpoint` | procgen.py:19-24 | the centre is the corners' midpoint rounded toward zero |
| `Rooms.InInner` | procgen.py:26-30 | the inner area is the room's closed rectangle without its outer ring |
| `Rooms.InnerContainsCenter` | procgen.py:26-30 | a room at least 2 wide and 2 high has its centre inside its inner area, wherever it lies |
| `Rooms.Intersects` | procgen.py:32-39 | two rooms fail to intersect exactly when one lies wholly to the left of, right of, above or below the other |
| `Rooms.IntersectsSymmetric` | procgen.py:32-39 | the overlap test does not depend on argument order |
| `Rooms.IntersectsReflexive` | procgen.py:32-39 | every room that is not inverted intersects itself |
| `Rooms.CornerContactIntersects` | procgen.py:32-39 | rooms that touch only at a corner count as intersecting |
| `Rooms.IntersectsIffSharedCell` | procgen.py:32-39 | two rooms that are not inverted intersect exactly when their closed rectangles share a cell |
| `Rooms.SeparatedInners` | procgen.py:26-39 | the inner areas of two non-intersecting rooms are at least three cells apart along some axis |
| `Tunnels.Corner` | procgen.py:48-53 | the elbow is a corner of the bounding box of start and end and shares a coordinate with each; moving horizontally first keeps start's row, otherwise start's column |
| `Tunnels.Segment` | procgen.py:56-59 | a straight run from a to b on a shared axis has Dist(a,b)+1 cells, starts at a and ends at b; its k-th cell is k steps from a (no repeats), and every cell is on the line, in the bounding box and a neighbour of the next |
| `Tunnels.Tunnel` | procgen.py:42-59 | the tunnel starts at start, ends at end and passes through the elbow the coin chose; it has Dist+2 cells, stays in the bounding box, and moves one axis step at a time; the elbow appears twice in a row, at positions Dist(start, elbow) and Dist(start, elbow) + 1, where the two runs meet |
| `Dungeon.AnyIntersects` | procgen.py:89-91 | true exactly when the candidate intersects some accepted room |
| `Dungeon.Place` | procgen.py:77-106 | each remaining attempt adds at most one room: the number of accepted rooms grows from its current value by at most the number of attempts left (that the accepted rooms are kept, in order, is `Dungeon.PlaceExtends`) |
| `Dungeon.Layout` | procgen.py:75-106 | at most one room per attempt is accepted, and the attempts stop with an empty draw range exactly when one of them has one |
| `Dungeon.PlaceStopsOnEmptyRange` | procgen.py:77-84 | the attempts stop with an empty draw range exactly when some attempt has one |
| `Dungeon.PlaceExtends` | procgen.py:77-106 | attempts only append to the accepted rooms, at most one room per attempt |
| `Dungeon.PlaceKeepsWellPlaced` | procgen.py:77-106 | when the draws lie in their ranges, accepted rooms stay pairwise non-intersecting, inside the map and of a drawn size |
| `Dungeon.AcceptKeepsWellPlaced` | procgen.py:89-106 | appending a candidate that intersects no accepted room keeps the accepted rooms pairwise non-intersecting |
| `Dungeon.LayoutWellPlaced` | procgen.py:77-91 | all accepted rooms are pairwise non-intersecting and lie on the map (x2 <= width-1, y2 <= height-1); there are at most maxRooms of them |
| `Dungeon.NoRoomsOnlyWithoutAttempts` | procgen.py:96-108 | no room is accepted exactly when there is no attempt or the first attempt has an empty draw range |
| `Dungeon.NoRoomsPlacedOnlyWithoutAttempts` | procgen.py:75-108 | the npc assignment is reached with no room accepted exactly when max_rooms <= 0 |
| `Dungeon.SingleAttemptPlacesOneRoom` | procgen.py:77-108 | a single attempt that can draw accepts exactly that room and carves only its inner area, with no tunnel |
| `Dungeon.TunnelTo` | procgen.py:101-102 | the tunnel into the k-th accepted room runs from the previous room's centre to the k-th room's centre, with Dist + 2 cells |
| `Dungeon.Carved` | procgen.py:93-103 | no cell is carved before a room is accepted |
| `Dungeon.CarvedNearRooms` | procgen.py:93-103 | a carved cell lies in an accepted room's rectangle or in the bounding box of the two centres a tunnel joins |
| `Dungeon.TunnelToPrefix` | procgen.py:102 | appending a room does not change the tunnels into the rooms accepted before it |
| `Dungeon.CarvedStaysCarved` | procgen.py:93-106 | a carved cell stays carved when another room is accepted: no cell turns back to wall |
| `Dungeon.CarvedOnlyByNewRoom` | procgen.py:93-106 | a cell carved after accepting a room was carved before, is in the new room's inner area, or is on its tunnel |
| `Dungeon.CarvedAppend` | procgen.py:93-106 | accepting a room carves exactly its inner area and its tunnel from the previous centre; no carved cell is lost |
| `Dungeon.TunnelJoinsRooms` | procgen.py:101-103 | each tunnel runs from the previous accepted centre to the new one in axis steps, over carved cells only |
| `Dungeon.CenterInMap` | procgen.py:83-87 | the centre of a room on the map is a cell of the map |
| `Dungeon.TunnelInMap` | procgen.py:102-103 | a tunnel between two cells of the map stays on the map, so every tunnel write is in bounds |
| `Dungeon.CarvedInsideBorder` | procgen.py:83-103 | with rooms at least 2 wide and high, every carved cell is strictly inside the map's outer ring |
| `Dungeon.TunnelInsideBorder` | procgen.py:101-103 | a tunnel between the centres of two on-map rooms at least 2 wide and high keeps off the map's outer ring |
| `Dungeon.SpawnsOnFloor` | procgen.py:96-108 | the first and last accepted centres are carved cells when the minimum room size is at least 2 or at least two rooms were accepted |
| `Dungeon.TinyRoomSpawnNotCarved` | procgen.py:96-97 | with rooms of size 1 and one attempt, the only room is accepted but its centre, the player's spawn point, is not carved |
| `Dungeon.CarveInner` | procgen.py:94 | the room's inner area (clipped to the map) becomes floor and every other cell is unchanged |
| `Dungeon.CarvePath` | procgen.py:102-103 | every cell of the path becomes floor and every other cell is unchanged |
| `Dungeon.CarveRoom` | procgen.py:93-103 | after carving an accepted room, the map shows exactly the cells carved by the rooms accepted so far |
| `Dungeon.RunAttempts` | procgen.py:75-106 | the attempts end with the rooms `Layout` accepts, stopping exactly when `Layout` reports an empty draw range; the map then shows exactly the carved cells, the last centre is remembered, and the player stands on the first accepted centre |
| `Dungeon.GenerateDungeon` | procgen.py:62-110 | fails with EmptyRange or NoRoomsPlaced exactly as the attempts dictate, NoRoomsPlaced exactly when max_rooms <= 0; on success the width-by-height map is floor exactly at the carved cells and wall elsewhere; the player is at the first accepted centre and the npc at the last, aliasing included |
| `Cave.RowWalls` | procgen.py:150-153 | a row's wall count never exceeds the width of the counted range |
| `Cave.WindowWalls` | procgen.py:150-153 | a window's wall count never exceeds the number of cells in the window |
| `Cave.WallCount` | procgen.py:150-153 | the clipped 3x3 count is at most 9 and the clipped 5x5 count at most 25 |
| `Cave.NextCell` | procgen.py:155-167 | the value written is WALL or FLOOR, and always WALL on the outer ring |
| `Cave.SweepRow` | procgen.py:149-167 | rewriting a row cell by cell in place keeps the grid height by width |
| `Cave.SweepRows` | procgen.py:148-167 | one generation in row-major order keeps the grid height by width |
| `Cave.Smooth` | procgen.py:145-167 | running the remaining generations keeps the grid height by width |
| `Cave.SeedGrid` | procgen.py:137-142 | the noise grid is height by width |
| `Cave.CaveOf` | procgen.py:126-169 | the generated cave is height by width |
| `Cave.SweepRowFacts` | procgen.py:149-167 | sweeping a row changes no other row and no earlier column, writes only WALL/FLOOR, and leaves the row's outer-ring cells WALL |
| `Cave.SweepRowsFacts` | procgen.py:148-167 | after a generation every swept row holds only WALL/FLOOR, with WALL on the outer ring |
| `Cave.SmoothFacts` | procgen.py:145-167 | after the generations the grid holds only WALL and FLOOR and its outer ring is WALL |
| `Cave.CaveIsEnclosed` | procgen.py:126-169 | for every seed, the cave is height by width, holds only WALL and FLOOR, and is walled on its outer ring |
| `Cave.RowWallsAllWall` | procgen.py:150-153 | in an all-wall row the count equals the width of the range |
| `Cave.InteriorSeesNineWalls` | procgen.py:150-151 | an interior cell of an all-wall grid sees 9 walls in its 3x3 window |
| `Cave.NextCellAllWall` | procgen.py:155-167 | in an all-wall grid every cell is rewritten as WALL, by either rule |
| `Cave.SweepRowAllWall` | procgen.py:149-167 | a row sweep leaves an all-wall grid unchanged |
| `Cave.SweepRowsAllWall` | procgen.py:148-167 | a generation leaves an all-wall grid unchanged |
| `Cave.SmoothAllWall` | procgen.py:145-167 | all generations leave an all-wall grid unchanged |
| `Cave.AllWallSeedStaysWall` | procgen.py:137-167 | if every draw made a wall, the generated cave is solid wall |
| `Cave.InitializeCave` | procgen.py:126-169 | returns a fresh height-by-width grid equal to the cave the seed determines: the noise, then six in-place generations |
| `Cave.SmoothAll` | procgen.py:145-167 | the six generations rewrite the array in place exactly as `Smooth` says |
| `Cave.SeedNoise` | procgen.py:139-142 | every cell becomes WALL where its draw fell below the fill probability and FLOOR elsewhere |
| `Cave.RewriteCell` | procgen.py:150-167 | only cell (i, j) changes, and it gets the rule's value computed from the grid as it is at that moment |
| `Cave.SmoothGeneration` | procgen.py:147-167 | one generation rewrites the array in place, row by row, exactly as SweepRows says, reading the cells already rewritten |

## Left out

- main.py is not part of this model. It covers the tileset, the terminal context, the render/event loop and engine set-up.
- `generate_cave` (procgen.py:113-123) only prints a grid, so it is not modelled.
- The `random` module is replaced by inputs: a `Draw` per dungeon attempt and a boolean noise grid for the cave. Uniform distributions are not modelled. Neither is the order in which the source consumes the random stream, where the tunnel coin is drawn after the attempt's four room draws.
- `tcod.los.bresenham` is not part of this model. The source calls it only on points that share a coordinate. For such points it is assumed to return the straight run of cells from the first point to the second, in order, both ends included (`Tunnels.Segment`).
- The numpy record layout of a tile is not modelled, only its field values. The cave grid holds integers, where the source holds floats 0.0 and 1.0.
- `Tiles.ToByte`: out-of-range colour components are assumed to wrap to their low eight bits. That is the behaviour of numpy 1.x before 1.24, for values within the 64-bit range. From numpy 2.0, every component outside 0..255 makes `new_tile` raise OverflowError. Numpy 1.x does the same outside the 64-bit range. The model does not capture that error. The catalog itself stores only components within 0..255.
- `Tiles.ToInt32`: a glyph outside the signed 32-bit range is assumed to wrap modulo 2^32. That is the behaviour of numpy 1.x before 1.24, for values within the 64-bit range. From numpy 2.0, every such glyph makes `new_tile` raise OverflowError. Numpy 1.x does the same outside the 64-bit range. The model does not capture that error. The catalog itself stores only the glyphs 32 and 35.
- `Rooms.TruncHalf`: the source halves with a floating-point division and then truncates. Loss of precision for sums beyond 2^53 is not modelled.
- `GameMap` and `Entity` are not part of this model. The dungeon map is a width-by-height array indexed [x, y] and initially filled with wall. An entity is reduced to its `x` and `y`.
- The unused `player` and `npc` parameters of `initialize_cave` are not modelled.
- `Dungeon.GenerateDungeon` requires map dimensions and a minimum room size that are not negative. Otherwise numpy would reject the map or index from the far end with negative indices, and neither is modelled. Its result says nothing about the map when it fails, because the source discards that map.
- `Dungeon.CarveInner` does not model slice starts below zero, which numpy counts from the far end. Accepted rooms never produce such a start.
- `Cave.InitializeCave` takes non-negative dimensions. A negative shape, which numpy rejects, is not modelled.
- Connectivity between rooms that are not consecutive, and cave connectivity, are not claimed. The source promises neither.
