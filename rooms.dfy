/** Rectangular rooms of the dungeon generator: corners from a top-left point
    and a size, a centre rounded toward zero, the inner area that is carved
    to floor, and the overlap test used to reject candidate rooms. */
module Rooms {

  /** A room's corners; (x2, y2) lies one past the last inner cell. */
  datatype Room = Room(x1: int, y1: int, x2: int, y2: int)

  type Point = (int, int)

  /** A room whose top-left corner is (x, y) and whose size is width by height. */
  function NewRoom(x: int, y: int, width: int, height: int): (r: Room)
    ensures r.x1 == x && r.y1 == y
    ensures r.x2 - r.x1 == width && r.y2 - r.y1 == height
  {
    Room(x, y, x + width, y + height)
  }

  /** Half of n, rounded toward zero (an exact halving followed by a
      truncating conversion back to an integer). */
  function TruncHalf(n: int): (h: int)
    ensures n >= 0 ==> 0 <= n - 2 * h <= 1
    ensures n < 0 ==> -1 <= n - 2 * h <= 0
  {
    if n >= 0 then n / 2 else -((-n) / 2)
  }

  /** The centre lies between the corners of a room that is not inverted. */
  function Center(r: Room): (c: Point)
    ensures r.x1 <= r.x2 && r.y1 <= r.y2 ==> r.x1 <= c.0 <= r.x2 && r.y1 <= c.1 <= r.y2
  {
    (TruncHalf(r.x1 + r.x2), TruncHalf(r.y1 + r.y2))
  }

  /** The centre is the midpoint of the corners, rounded toward zero. */
  lemma CenterIsTruncatedMidpoint(r: Room)
    ensures var (cx, cy) := Center(r);
      (r.x1 + r.x2 >= 0 ==> 2 * cx <= r.x1 + r.x2 <= 2 * cx + 1) &&
      (r.x1 + r.x2 < 0 ==> 2 * cx - 1 <= r.x1 + r.x2 <= 2 * cx) &&
      (r.y1 + r.y2 >= 0 ==> 2 * cy <= r.y1 + r.y2 <= 2 * cy + 1) &&
      (r.y1 + r.y2 < 0 ==> 2 * cy - 1 <= r.y1 + r.y2 <= 2 * cy)
  {
  }

  /** The inner area: columns x1+1 up to (not including) x2, rows y1+1 up to
      (not including) y2: the closed rectangle without its outer ring. */
  predicate InInner(r: Room, x: int, y: int): (b: bool)
    ensures b <==> InBounds(r, x, y) && x != r.x1 && x != r.x2 && y != r.y1 && y != r.y2
  {
    r.x1 + 1 <= x < r.x2 && r.y1 + 1 <= y < r.y2
  }

  /** The closed rectangle of a room, edges included. */
  predicate InBounds(r: Room, x: int, y: int)
  {
    r.x1 <= x <= r.x2 && r.y1 <= y <= r.y2
  }

  /** The inner area of a room at least 2 wide and 2 high contains its centre,
      wherever the room lies. */
  lemma InnerContainsCenter(r: Room)
    requires r.x2 - r.x1 >= 2 && r.y2 - r.y1 >= 2
    ensures InInner(r, Center(r).0, Center(r).1)
  {
    CenterIsTruncatedMidpoint(r);
  }

  /** Rooms overlap when their closed rectangles meet: sharing only an edge
      or a corner counts. Rooms fail to intersect exactly when one lies
      wholly to the left of, right of, above or below the other. */
  predicate Intersects(a: Room, b: Room): (meet: bool)
    ensures !meet <==> a.x2 < b.x1 || b.x2 < a.x1 || a.y2 < b.y1 || b.y2 < a.y1
  {
    a.x1 <= b.x2 && a.x2 >= b.x1 && a.y1 <= b.y2 && a.y2 >= b.y1
  }

  lemma IntersectsSymmetric(a: Room, b: Room)
    ensures Intersects(a, b) <==> Intersects(b, a)
  {
  }

  lemma IntersectsReflexive(a: Room)
    requires a.x1 <= a.x2 && a.y1 <= a.y2
    ensures Intersects(a, a)
  {
  }

  /** Two rooms that touch only at a corner still intersect. */
  lemma CornerContactIntersects(a: Room, b: Room)
    requires a.x1 <= a.x2 && a.y1 <= a.y2 && b.x1 <= b.x2 && b.y1 <= b.y2
    requires a.x2 == b.x1 && a.y2 == b.y1
    ensures Intersects(a, b)
  {
  }

  /** For rooms that are not inverted, intersecting means having a cell of
      their closed rectangles in common. */
  lemma {:induction false} IntersectsIffSharedCell(a: Room, b: Room)
    requires a.x1 <= a.x2 && a.y1 <= a.y2 && b.x1 <= b.x2 && b.y1 <= b.y2
    ensures Intersects(a, b) <==> exists x, y :: InBounds(a, x, y) && InBounds(b, x, y)
  {
    if Intersects(a, b) {
      var x := if a.x1 < b.x1 then b.x1 else a.x1;
      var y := if a.y1 < b.y1 then b.y1 else a.y1;
      assert InBounds(a, x, y) && InBounds(b, x, y);
    }
  }

  /** The inner areas of two rooms that do not intersect are at least three
      cells apart along one axis, so their floors never touch. */
  lemma SeparatedInners(a: Room, b: Room, xa: int, ya: int, xb: int, yb: int)
    requires !Intersects(a, b)
    requires InInner(a, xa, ya) && InInner(b, xb, yb)
    ensures xb - xa >= 3 || xa - xb >= 3 || yb - ya >= 3 || ya - yb >= 3
  {
  }
}
