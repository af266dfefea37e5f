/** The room-and-corridor dungeon generator.

    Each of `maxRooms` attempts draws a room size and a top-left position; a
    candidate that intersects an accepted room is dropped, otherwise its inner
    area is carved to floor and a tunnel joins its centre to the previous
    accepted room's centre. The first accepted room's centre becomes the
    player's position and the last one's the npc's.

    Randomness is an input: one `Draw` per attempt holds the two sizes, the
    position and the coin flip the tunnel to that room would use. */
module Dungeon {
  import opened Tiles
  import opened Rooms
  import opened Tunnels

  datatype Params = Params(maxRooms: int, roomMinSize: int, roomMaxSize: int, mapWidth: int, mapHeight: int)

  /** The random draws of one attempt. `horizontalFirst` is the coin flip
      "uniform draw below one half" of the tunnel to this room. */
  datatype Draw = Draw(width: int, height: int, x: int, y: int, horizontalFirst: bool)

  /** EmptyRange: a bounded random draw was asked for an empty range.
      NoRoomsPlaced: no room was accepted, so the npc position was never
      computed. */
  datatype Error = EmptyRange | NoRoomsPlaced

  datatype Result<T> = Success(value: T) | Failure(error: Error)

  datatype Option<T> = None | Some(value: T)

  /** A game entity; the generator only sets its position. */
  class Entity {
    var x: int
    var y: int
  }

  /** All four draws of an attempt have a non-empty range to come from. */
  predicate CanDraw(p: Params, d: Draw)
  {
    p.roomMinSize <= p.roomMaxSize && p.mapWidth - d.width - 1 >= 0 && p.mapHeight - d.height - 1 >= 0
  }

  /** Each draw lies in its inclusive range whenever that range is not empty. */
  predicate DrawInRange(p: Params, d: Draw)
  {
    (p.roomMinSize <= p.roomMaxSize ==>
      p.roomMinSize <= d.width <= p.roomMaxSize && p.roomMinSize <= d.height <= p.roomMaxSize) &&
    (p.mapWidth - d.width - 1 >= 0 ==> 0 <= d.x <= p.mapWidth - d.width - 1) &&
    (p.mapHeight - d.height - 1 >= 0 ==> 0 <= d.y <= p.mapHeight - d.height - 1)
  }

  /** One draw per attempt, each in range; sizes and map dimensions are not negative. */
  predicate ValidInputs(p: Params, draws: seq<Draw>)
  {
    0 <= p.roomMinSize && 0 <= p.mapWidth && 0 <= p.mapHeight &&
    |draws| == (if p.maxRooms < 0 then 0 else p.maxRooms) &&
    forall k :: 0 <= k < |draws| ==> DrawInRange(p, draws[k])
  }

  /** An accepted room with the coin flip of the tunnel that reached it. */
  datatype Placed = Placed(room: Room, horizontalFirst: bool)

  /** Whether r intersects any of the rooms, tested in order. */
  function AnyIntersects(r: Room, rooms: seq<Placed>): (b: bool)
    ensures b <==> exists k :: 0 <= k < |rooms| && Intersects(r, rooms[k].room)
  {
    if rooms == [] then false
    else Intersects(r, rooms[0].room) || AnyIntersects(r, rooms[1..])
  }

  /** Outcome of the attempts: the rooms accepted, and whether an attempt
      stopped the generator with an empty draw range. */
  datatype Plan = Plan(placed: seq<Placed>, emptyRange: bool)

  /** The remaining attempts `draws`, given the rooms accepted so far: each
      attempt accepts at most one room and none is dropped. */
  function Place(p: Params, acc: seq<Placed>, draws: seq<Draw>): (r: Plan)
    ensures |acc| <= |r.placed| <= |acc| + |draws|
    decreases |draws|
  {
    if draws == [] then Plan(acc, false)
    else if !CanDraw(p, draws[0]) then Plan(acc, true)
    else
      var d := draws[0];
      var room := NewRoom(d.x, d.y, d.width, d.height);
      if AnyIntersects(room, acc) then Place(p, acc, draws[1..])
      else Place(p, acc + [Placed(room, d.horizontalFirst)], draws[1..])
  }

  /** The outcome of all attempts from an empty map: at most one room per
      attempt, and an empty-range stop exactly when some attempt has an
      empty draw range. */
  function Layout(p: Params, draws: seq<Draw>): (r: Plan)
    ensures |r.placed| <= |draws|
    ensures r.emptyRange <==> exists k :: 0 <= k < |draws| && !CanDraw(p, draws[k])
  {
    PlaceStopsOnEmptyRange(p, [], draws);
    Place(p, [], draws)
  }

  /** The attempts stop with an empty draw range exactly when one of them has
      one. */
  lemma {:induction false} PlaceStopsOnEmptyRange(p: Params, acc: seq<Placed>, draws: seq<Draw>)
    ensures Place(p, acc, draws).emptyRange <==> exists k :: 0 <= k < |draws| && !CanDraw(p, draws[k])
    decreases |draws|
  {
    if draws != [] && CanDraw(p, draws[0]) {
      var d := draws[0];
      var room := NewRoom(d.x, d.y, d.width, d.height);
      assert forall k :: 0 <= k < |draws| - 1 ==> draws[1..][k] == draws[k + 1];
      if AnyIntersects(room, acc) {
        PlaceStopsOnEmptyRange(p, acc, draws[1..]);
      } else {
        PlaceStopsOnEmptyRange(p, acc + [Placed(room, d.horizontalFirst)], draws[1..]);
      }
    }
  }

  predicate Disjoint(ps: seq<Placed>)
  {
    forall i, j :: 0 <= i < j < |ps| ==> !Intersects(ps[i].room, ps[j].room)
  }

  /** The room, edges included, lies on the map. */
  predicate InMap(p: Params, r: Room)
  {
    0 <= r.x1 && r.x2 <= p.mapWidth - 1 && 0 <= r.y1 && r.y2 <= p.mapHeight - 1
  }

  predicate Sized(p: Params, r: Room)
  {
    p.roomMinSize <= r.x2 - r.x1 <= p.roomMaxSize && p.roomMinSize <= r.y2 - r.y1 <= p.roomMaxSize
  }

  predicate WellPlaced(p: Params, ps: seq<Placed>)
  {
    Disjoint(ps) && forall k :: 0 <= k < |ps| ==> InMap(p, ps[k].room) && Sized(p, ps[k].room)
  }

  /** Accepting rooms only appends: the rooms accepted so far stay, in order. */
  lemma {:induction false} PlaceExtends(p: Params, acc: seq<Placed>, draws: seq<Draw>)
    ensures acc <= Place(p, acc, draws).placed
    ensures |Place(p, acc, draws).placed| <= |acc| + |draws|
    decreases |draws|
  {
    if draws != [] && CanDraw(p, draws[0]) {
      var d := draws[0];
      var room := NewRoom(d.x, d.y, d.width, d.height);
      if AnyIntersects(room, acc) {
        PlaceExtends(p, acc, draws[1..]);
      } else {
        PlaceExtends(p, acc + [Placed(room, d.horizontalFirst)], draws[1..]);
      }
    }
  }

  /** Accepted rooms are pairwise non-intersecting, lie on the map and have
      sizes in the drawn range. */
  lemma {:induction false} PlaceKeepsWellPlaced(p: Params, acc: seq<Placed>, draws: seq<Draw>)
    requires 0 <= p.roomMinSize
    requires WellPlaced(p, acc)
    requires forall k :: 0 <= k < |draws| ==> DrawInRange(p, draws[k])
    ensures WellPlaced(p, Place(p, acc, draws).placed)
    decreases |draws|
  {
    if draws != [] && CanDraw(p, draws[0]) {
      var d := draws[0];
      var room := NewRoom(d.x, d.y, d.width, d.height);
      assert DrawInRange(p, d);
      if AnyIntersects(room, acc) {
        PlaceKeepsWellPlaced(p, acc, draws[1..]);
      } else {
        AcceptKeepsWellPlaced(p, acc, Placed(room, d.horizontalFirst));
        PlaceKeepsWellPlaced(p, acc + [Placed(room, d.horizontalFirst)], draws[1..]);
      }
    }
  }

  /** Every accepted room is disjoint from the others, on the map and of a
      drawn size; there are at most `maxRooms` of them. */
  lemma LayoutWellPlaced(p: Params, draws: seq<Draw>)
    requires ValidInputs(p, draws)
    ensures WellPlaced(p, Layout(p, draws).placed)
    ensures |Layout(p, draws).placed| <= |draws|
  {
    PlaceKeepsWellPlaced(p, [], draws);
    PlaceExtends(p, [], draws);
  }

  /** No room is accepted exactly when there is no attempt or the first
      attempt already fails to draw: the first drawn room is always kept. */
  lemma {:induction false} NoRoomsOnlyWithoutAttempts(p: Params, draws: seq<Draw>)
    ensures Layout(p, draws).placed == [] <==> draws == [] || !CanDraw(p, draws[0])
  {
    if draws != [] && CanDraw(p, draws[0]) {
      var d := draws[0];
      var room := NewRoom(d.x, d.y, d.width, d.height);
      assert !AnyIntersects(room, []);
      assert [] + [Placed(room, d.horizontalFirst)] == [Placed(room, d.horizontalFirst)];
      assert Layout(p, draws) == Place(p, [Placed(room, d.horizontalFirst)], draws[1..]);
      PlaceExtends(p, [Placed(room, d.horizontalFirst)], draws[1..]);
    }
  }

  /** The generator reaches the npc assignment with no room accepted exactly
      when it makes no attempt at all: an empty draw range in the first
      attempt stops it earlier with EmptyRange instead. */
  lemma NoRoomsPlacedOnlyWithoutAttempts(p: Params, draws: seq<Draw>)
    requires ValidInputs(p, draws)
    ensures (Layout(p, draws).placed == [] && !Layout(p, draws).emptyRange) <==> p.maxRooms <= 0
  {
    NoRoomsOnlyWithoutAttempts(p, draws);
    if draws != [] && !CanDraw(p, draws[0]) {
      assert Layout(p, draws).emptyRange;
    }
  }

  /** With a single attempt that can draw, exactly that room is accepted and
      only its inner area is carved: no tunnel is dug. */
  lemma SingleAttemptPlacesOneRoom(p: Params, d: Draw)
    requires CanDraw(p, d)
    ensures var room := NewRoom(d.x, d.y, d.width, d.height);
      Layout(p, [d]) == Plan([Placed(room, d.horizontalFirst)], false) &&
      forall x, y :: Carved(Layout(p, [d]).placed, x, y) <==> InInner(room, x, y)
  {
    var room := NewRoom(d.x, d.y, d.width, d.height);
    assert !AnyIntersects(room, []);
    assert [d][1..] == [];
    var q := Placed(room, d.horizontalFirst);
    assert [] + [q] == [q];
    assert Layout(p, [d]) == Place(p, [q], []);
    forall x, y
      ensures Carved([q], x, y) <==> InInner(room, x, y)
    {
      if InInner(room, x, y) {
        assert [q][0] == q;
      }
    }
  }

  /** The tunnel dug when the k-th accepted room was placed: it runs from
      the previous room's centre to the k-th room's centre. */
  function TunnelTo(ps: seq<Placed>, k: int): (t: seq<Point>)
    requires 0 < k < |ps|
    ensures |t| == Dist(Center(ps[k - 1].room), Center(ps[k].room)) + 2
    ensures t[0] == Center(ps[k - 1].room) && t[|t| - 1] == Center(ps[k].room)
  {
    Tunnel(Center(ps[k - 1].room), Center(ps[k].room), ps[k].horizontalFirst)
  }

  /** A cell the generator turns to floor: inside an accepted room's inner
      area, or on the tunnel into an accepted room. Nothing is carved before
      a room is accepted, and with a single room exactly its inner area is. */
  predicate Carved(ps: seq<Placed>, x: int, y: int): (b: bool)
    ensures b ==> ps != []
  {
    exists k :: 0 <= k < |ps| && (InInner(ps[k].room, x, y) || (0 < k && (x, y) in TunnelTo(ps, k)))
  }

  /** (x, y) lies in the rectangle of the k-th room or in the bounding box of
      the two centres its tunnel joins. */
  predicate NearRoom(ps: seq<Placed>, k: int, x: int, y: int)
    requires 0 <= k < |ps|
  {
    InBounds(ps[k].room, x, y) || (0 < k && InBox((x, y), Center(ps[k - 1].room), Center(ps[k].room)))
  }

  /** A carved cell lies in an accepted room's rectangle or in the bounding
      box of the two centres a tunnel joins. */
  lemma CarvedNearRooms(ps: seq<Placed>, x: int, y: int)
    requires Carved(ps, x, y)
    ensures exists k :: 0 <= k < |ps| && NearRoom(ps, k, x, y)
  {
    var k :| 0 <= k < |ps| && (InInner(ps[k].room, x, y) || (0 < k && (x, y) in TunnelTo(ps, k)));
    if !InInner(ps[k].room, x, y) {
      var t := TunnelTo(ps, k);
      var j :| 0 <= j < |t| && t[j] == (x, y);
      assert InBox(t[j], Center(ps[k - 1].room), Center(ps[k].room));
    }
    assert NearRoom(ps, k, x, y);
  }

  /** The tunnels into the rooms already accepted do not change when a room
      is appended. */
  lemma TunnelToPrefix(ps: seq<Placed>, q: Placed, k: int)
    requires 0 < k < |ps|
    ensures TunnelTo(ps + [q], k) == TunnelTo(ps, k)
  {
    assert (ps + [q])[k - 1] == ps[k - 1] && (ps + [q])[k] == ps[k];
  }

  lemma CarvedStaysCarved(ps: seq<Placed>, q: Placed, x: int, y: int)
    requires Carved(ps, x, y)
    ensures Carved(ps + [q], x, y)
  {
    var k :| 0 <= k < |ps| && (InInner(ps[k].room, x, y) || (0 < k && (x, y) in TunnelTo(ps, k)));
    assert (ps + [q])[k] == ps[k];
    if 0 < k {
      TunnelToPrefix(ps, q, k);
    }
  }

  lemma CarvedOnlyByNewRoom(ps: seq<Placed>, q: Placed, x: int, y: int)
    requires Carved(ps + [q], x, y)
    ensures Carved(ps, x, y) || InInner(q.room, x, y) || (|ps| > 0 && (x, y) in TunnelTo(ps + [q], |ps|))
  {
    var ps' := ps + [q];
    var k :| 0 <= k < |ps'| && (InInner(ps'[k].room, x, y) || (0 < k && (x, y) in TunnelTo(ps', k)));
    if k < |ps| {
      assert ps'[k] == ps[k];
      if 0 < k {
        TunnelToPrefix(ps, q, k);
      }
      assert InInner(ps[k].room, x, y) || (0 < k && (x, y) in TunnelTo(ps, k));
    }
  }

  /** Accepting one more room carves exactly its inner area and its tunnel;
      no cell carved before is lost. */
  lemma CarvedAppend(ps: seq<Placed>, q: Placed, x: int, y: int)
    ensures Carved(ps + [q], x, y) <==>
      Carved(ps, x, y) || InInner(q.room, x, y) ||
      (|ps| > 0 && (x, y) in Tunnel(Center(ps[|ps| - 1].room), Center(q.room), q.horizontalFirst))
  {
    var ps' := ps + [q];
    assert ps'[|ps|] == q;
    assert |ps| > 0 ==> TunnelTo(ps', |ps|) == Tunnel(Center(ps[|ps| - 1].room), Center(q.room), q.horizontalFirst);
    if Carved(ps, x, y) {
      CarvedStaysCarved(ps, q, x, y);
    }
    if Carved(ps', x, y) {
      CarvedOnlyByNewRoom(ps, q, x, y);
    }
  }

  /** Each tunnel starts at the previous room's centre, ends at the new room's
      centre, moves one cell at a time along the axes (the elbow repeats) and
      consists of carved cells: consecutive rooms are joined by floor. */
  lemma TunnelJoinsRooms(ps: seq<Placed>, k: int)
    requires 0 < k < |ps|
    ensures var t := TunnelTo(ps, k);
      t[0] == Center(ps[k - 1].room) && t[|t| - 1] == Center(ps[k].room) &&
      (forall j :: 0 <= j < |t| - 1 ==> t[j] == t[j + 1] || Adjacent(t[j], t[j + 1])) &&
      (forall j :: 0 <= j < |t| ==> Carved(ps, t[j].0, t[j].1))
  {
    var t := TunnelTo(ps, k);
    forall j | 0 <= j < |t|
      ensures Carved(ps, t[j].0, t[j].1)
    {
      assert (t[j].0, t[j].1) == t[j];
    }
  }

  /** The centre of a room on the map lies on the map. */
  lemma CenterInMap(p: Params, r: Room)
    requires InMap(p, r) && r.x1 <= r.x2 && r.y1 <= r.y2
    ensures 0 <= Center(r).0 < p.mapWidth && 0 <= Center(r).1 < p.mapHeight
  {
    CenterIsTruncatedMidpoint(r);
  }

  /** With rooms at least 2 wide and high, no carved cell is on the map's
      outer ring: every floor cell the generator makes is strictly inside. */
  lemma CarvedInsideBorder(p: Params, ps: seq<Placed>, x: int, y: int)
    requires p.roomMinSize >= 2 && WellPlaced(p, ps)
    requires Carved(ps, x, y)
    ensures 1 <= x <= p.mapWidth - 2 && 1 <= y <= p.mapHeight - 2
  {
    var k :| 0 <= k < |ps| && (InInner(ps[k].room, x, y) || (0 < k && (x, y) in TunnelTo(ps, k)));
    assert InMap(p, ps[k].room) && Sized(p, ps[k].room);
    if !InInner(ps[k].room, x, y) {
      assert InMap(p, ps[k - 1].room) && Sized(p, ps[k - 1].room);
      TunnelInsideBorder(p, ps[k - 1].room, ps[k].room, ps[k].horizontalFirst, x, y);
    }
  }

  /** A tunnel between the centres of two rooms on the map, each at least 2
      wide and high, keeps off the map's outer ring. */
  lemma TunnelInsideBorder(p: Params, a: Room, b: Room, horizontalFirst: bool, x: int, y: int)
    requires p.roomMinSize >= 2 && InMap(p, a) && Sized(p, a) && InMap(p, b) && Sized(p, b)
    requires (x, y) in Tunnel(Center(a), Center(b), horizontalFirst)
    ensures 1 <= x <= p.mapWidth - 2 && 1 <= y <= p.mapHeight - 2
  {
    InnerContainsCenter(a);
    InnerContainsCenter(b);
    var t := Tunnel(Center(a), Center(b), horizontalFirst);
    var j :| 0 <= j < |t| && t[j] == (x, y);
    assert InBox((x, y), Center(a), Center(b));
  }

  /** Both spawn points are carved whenever some room was accepted and either
      rooms are at least 2 wide and high (the centre is inside the inner area)
      or at least two rooms were accepted (the tunnels pass through every
      centre). */
  lemma SpawnsOnFloor(p: Params, draws: seq<Draw>)
    requires ValidInputs(p, draws)
    requires Layout(p, draws).placed != []
    requires p.roomMinSize >= 2 || |Layout(p, draws).placed| >= 2
    ensures var ps := Layout(p, draws).placed;
      Carved(ps, Center(ps[0].room).0, Center(ps[0].room).1) &&
      Carved(ps, Center(ps[|ps| - 1].room).0, Center(ps[|ps| - 1].room).1)
  {
    var ps := Layout(p, draws).placed;
    LayoutWellPlaced(p, draws);
    var n := |ps|;
    if p.roomMinSize >= 2 {
      InnerContainsCenter(ps[0].room);
      InnerContainsCenter(ps[n - 1].room);
    } else {
      var first := TunnelTo(ps, 1);
      var last := TunnelTo(ps, n - 1);
      assert (Center(ps[0].room).0, Center(ps[0].room).1) == first[0];
      assert (Center(ps[n - 1].room).0, Center(ps[n - 1].room).1) == last[|last| - 1];
    }
  }

  /** Rooms of size 1 have their centre on their own edge, outside the inner
      area: with a single such room the spawn point is not carved. */
  lemma TinyRoomSpawnNotCarved()
    ensures var p := Params(1, 1, 1, 10, 10);
      var draws := [Draw(1, 1, 0, 0, true)];
      var ps := Layout(p, draws).placed;
      ValidInputs(p, draws) && ps == [Placed(Room(0, 0, 1, 1), true)] &&
      Center(ps[0].room) == (0, 0) && !Carved(ps, 0, 0)
  {
    var p := Params(1, 1, 1, 10, 10);
    var d := Draw(1, 1, 0, 0, true);
    SingleAttemptPlacesOneRoom(p, d);
  }

  /** Sets the inner area of a room to floor in one bulk assignment; cells
      outside the map are ignored, nothing else changes. */
  method CarveInner(tiles: array2<Tile>, r: Room)
    modifies tiles
    ensures forall x, y :: 0 <= x < tiles.Length0 && 0 <= y < tiles.Length1 ==>
      tiles[x, y] == if InInner(r, x, y) then Floor else old(tiles[x, y])
  {
    forall x, y | 0 <= x < tiles.Length0 && 0 <= y < tiles.Length1 && InInner(r, x, y) {
      tiles[x, y] := Floor;
    }
  }

  /** Sets every cell of a path to floor, one cell at a time; nothing else
      changes. */
  method CarvePath(tiles: array2<Tile>, path: seq<Point>)
    requires forall k :: 0 <= k < |path| ==> 0 <= path[k].0 < tiles.Length0 && 0 <= path[k].1 < tiles.Length1
    modifies tiles
    ensures forall x, y :: 0 <= x < tiles.Length0 && 0 <= y < tiles.Length1 ==>
      tiles[x, y] == if (x, y) in path then Floor else old(tiles[x, y])
  {
    for i := 0 to |path|
      invariant forall x, y :: 0 <= x < tiles.Length0 && 0 <= y < tiles.Length1 ==>
        tiles[x, y] == if (x, y) in path[..i] then Floor else old(tiles[x, y])
    {
      var (x, y) := path[i];
      tiles[x, y] := Floor;
      assert path[..i + 1] == path[..i] + [(x, y)];
    }
    assert path[..|path|] == path;
  }

  /** The tunnel between two cells of the map stays on the map. */
  lemma TunnelInMap(p: Params, start: Point, end: Point, horizontalFirst: bool)
    requires 0 <= start.0 < p.mapWidth && 0 <= start.1 < p.mapHeight
    requires 0 <= end.0 < p.mapWidth && 0 <= end.1 < p.mapHeight
    ensures var t := Tunnel(start, end, horizontalFirst);
      forall k :: 0 <= k < |t| ==> 0 <= t[k].0 < p.mapWidth && 0 <= t[k].1 < p.mapHeight
  {
  }

  /** Appending a room that intersects none of the accepted ones, lies on the
      map and has a drawn size keeps the accepted rooms well placed. */
  lemma AcceptKeepsWellPlaced(p: Params, ps: seq<Placed>, q: Placed)
    requires WellPlaced(p, ps) && InMap(p, q.room) && Sized(p, q.room)
    requires !AnyIntersects(q.room, ps)
    ensures WellPlaced(p, ps + [q])
  {
    var ps' := ps + [q];
    forall i, j | 0 <= i < j < |ps'|
      ensures !Intersects(ps'[i].room, ps'[j].room)
    {
      if j == |ps| {
        IntersectsSymmetric(q.room, ps[i].room);
      }
    }
  }

  /** The width-by-height map is floor exactly at the cells the rooms carve
      and wall everywhere else. */
  predicate ShowsCarved(tiles: array2<Tile>, p: Params, rooms: seq<Placed>)
    reads tiles
  {
    tiles.Length0 == p.mapWidth && tiles.Length1 == p.mapHeight &&
    forall x, y :: 0 <= x < p.mapWidth && 0 <= y < p.mapHeight ==>
      tiles[x, y] == if Carved(rooms, x, y) then Floor else Wall
  }

  /** Carves an accepted room: its inner area, then, unless it is the first
      room, the tunnel from the previous room's centre to its own. The map
      then shows exactly the cells carved by the rooms accepted so far. */
  method CarveRoom(tiles: array2<Tile>, p: Params, rooms: seq<Placed>, q: Placed)
    requires tiles.Length0 == p.mapWidth && tiles.Length1 == p.mapHeight
    requires 0 <= p.roomMinSize && WellPlaced(p, rooms)
    requires InMap(p, q.room) && q.room.x1 <= q.room.x2 && q.room.y1 <= q.room.y2
    requires ShowsCarved(tiles, p, rooms)
    modifies tiles
    ensures ShowsCarved(tiles, p, rooms + [q])
  {
    CarveInner(tiles, q.room);
    if |rooms| != 0 {
      var previous := Center(rooms[|rooms| - 1].room);
      CenterInMap(p, rooms[|rooms| - 1].room);
      CenterInMap(p, q.room);
      TunnelInMap(p, previous, Center(q.room), q.horizontalFirst);
      CarvePath(tiles, Tunnel(previous, Center(q.room), q.horizontalFirst));
    }
    forall x, y | 0 <= x < p.mapWidth && 0 <= y < p.mapHeight
      ensures tiles[x, y] == if Carved(rooms + [q], x, y) then Floor else Wall
    {
      CarvedAppend(rooms, q, x, y);
    }
  }

  /** Generates a dungeon on a map filled with wall. On success every cell is
      floor exactly when it is carved by the accepted rooms, and the player
      and npc stand on the centres of the first and last accepted rooms. An
      empty draw range stops generation with the player already moved if a
      room was accepted; with no room accepted the npc position is never
      computed and generation fails. */
  method GenerateDungeon(p: Params, draws: seq<Draw>, player: Entity, npc: Entity)
    returns (r: Result<array2<Tile>>)
    requires ValidInputs(p, draws)
    modifies player, npc
    ensures var plan := Layout(p, draws);
      (r.Failure? <==> plan.emptyRange || plan.placed == []) &&
      (r.Failure? ==> r.error == if plan.emptyRange then EmptyRange else NoRoomsPlaced)
    ensures (r.Failure? && r.error == NoRoomsPlaced) <==> p.maxRooms <= 0
    ensures r.Success? ==> var ps := Layout(p, draws).placed;
      fresh(r.value) && r.value.Length0 == p.mapWidth && r.value.Length1 == p.mapHeight &&
      forall x, y :: 0 <= x < p.mapWidth && 0 <= y < p.mapHeight ==>
        r.value[x, y] == if Carved(ps, x, y) then Floor else Wall
    ensures var ps := Layout(p, draws).placed;
      (player.x, player.y) ==
        if r.Success? && player == npc then Center(ps[|ps| - 1].room)
        else if ps != [] then Center(ps[0].room)
        else (old(player.x), old(player.y))
    ensures var ps := Layout(p, draws).placed;
      (npc.x, npc.y) ==
        if r.Success? then Center(ps[|ps| - 1].room)
        else if npc == player && ps != [] then Center(ps[0].room)
        else (old(npc.x), old(npc.y))
  {
    NoRoomsPlacedOnlyWithoutAttempts(p, draws);
    var tiles := new Tile[p.mapWidth, p.mapHeight]((x, y) => Wall);
    var rooms, lastCenter, stopped := RunAttempts(tiles, p, draws, player);
    if stopped {
      return Failure(EmptyRange);
    }
    if lastCenter.None? {
      return Failure(NoRoomsPlaced);
    }
    npc.x, npc.y := lastCenter.value.0, lastCenter.value.1;
    r := Success(tiles);
  }

  /** The attempts of the generator on a map that starts as all wall. They
      end with the rooms the attempts accept, unless an attempt finds an
      empty draw range and stops them (`stopped`). The map then shows exactly
      the carved cells, `lastCenter` is the last accepted room's centre, and
      the player stands on the first accepted room's centre. */
  method RunAttempts(tiles: array2<Tile>, p: Params, draws: seq<Draw>, player: Entity)
    returns (rooms: seq<Placed>, lastCenter: Option<Point>, stopped: bool)
    requires ValidInputs(p, draws)
    requires tiles.Length0 == p.mapWidth && tiles.Length1 == p.mapHeight
    requires forall x, y :: 0 <= x < p.mapWidth && 0 <= y < p.mapHeight ==> tiles[x, y] == Wall
    modifies tiles, player
    ensures Layout(p, draws) == Plan(rooms, stopped)
    ensures lastCenter == if rooms == [] then None else Some(Center(rooms[|rooms| - 1].room))
    ensures ShowsCarved(tiles, p, rooms)
    ensures (player.x, player.y) == if rooms == [] then (old(player.x), old(player.y)) else Center(rooms[0].room)
  {
    rooms, lastCenter, stopped := [], None, false;
    for i := 0 to |draws|
      invariant Place(p, rooms, draws[i..]) == Layout(p, draws)
      invariant WellPlaced(p, rooms)
      invariant lastCenter == if rooms == [] then None else Some(Center(rooms[|rooms| - 1].room))
      invariant ShowsCarved(tiles, p, rooms)
      invariant (player.x, player.y) == if rooms == [] then (old(player.x), old(player.y)) else Center(rooms[0].room)
    {
      var d := draws[i];
      assert draws[i..][0] == d && draws[i..][1..] == draws[i + 1..];
      assert DrawInRange(p, d);
      if !CanDraw(p, d) {
        stopped := true;
        return;
      }
      var newRoom := NewRoom(d.x, d.y, d.width, d.height);
      if AnyIntersects(newRoom, rooms) {
        continue;
      }
      var q := Placed(newRoom, d.horizontalFirst);
      CenterInMap(p, newRoom);
      CarveRoom(tiles, p, rooms, q);
      lastCenter := Some(Center(newRoom));
      if |rooms| == 0 {
        player.x, player.y := Center(newRoom).0, Center(newRoom).1;
      }
      AcceptKeepsWellPlaced(p, rooms, q);
      rooms := rooms + [q];
    }
  }

}
