/** L-shaped tunnels between two room centres: a straight run from the start
    to an elbow, then a straight run from the elbow to the end.

    Each straight run is the line rasterisation of two points that share a
    coordinate; for such points the rasteriser yields every cell of the run,
    in order, both ends included. */
module Tunnels {
  import opened Rooms

  function Abs(n: int): nat { if n < 0 then -n else n }

  /** Number of unit steps between two points along the grid axes. */
  function Dist(a: Point, b: Point): nat { Abs(a.0 - b.0) + Abs(a.1 - b.1) }

  predicate Aligned(a: Point, b: Point) { a.0 == b.0 || a.1 == b.1 }

  /** Cells one step apart horizontally or vertically. */
  predicate Adjacent(p: Point, q: Point) { Dist(p, q) == 1 }

  /** p lies in the axis-aligned bounding box of a and b. */
  predicate InBox(p: Point, a: Point, b: Point)
  {
    (a.0 <= p.0 <= b.0 || b.0 <= p.0 <= a.0) &&
    (a.1 <= p.1 <= b.1 || b.1 <= p.1 <= a.1)
  }

  /** One unit step from a toward b along the axis they differ on. */
  function StepToward(a: Point, b: Point): Point
  {
    if a.0 < b.0 then (a.0 + 1, a.1)
    else if a.0 > b.0 then (a.0 - 1, a.1)
    else if a.1 < b.1 then (a.0, a.1 + 1)
    else if a.1 > b.1 then (a.0, a.1 - 1)
    else a
  }

  /** s is the straight run of cells from a to b, both included, in order
      from a: consecutive cells are neighbours, the k-th cell is k steps from
      a (so no cell repeats), and every cell stays on the line between a and
      b. */
  predicate Run(s: seq<Point>, a: Point, b: Point)
  {
    |s| == Dist(a, b) + 1 && s[0] == a && s[|s| - 1] == b &&
    (forall k :: 0 <= k < |s| ==>
      Dist(a, s[k]) == k && InBox(s[k], a, b) && Aligned(s[k], a) && Aligned(s[k], b)) &&
    (forall k :: 0 <= k < |s| - 1 ==> Adjacent(s[k], s[k + 1]))
  }

  /** Prefixing a with the run from its step toward b gives the run from a. */
  lemma RunCons(a: Point, b: Point, rest: seq<Point>)
    requires Aligned(a, b) && a != b
    requires Run(rest, StepToward(a, b), b)
    ensures Run([a] + rest, a, b)
  {
    var next := StepToward(a, b);
    var s := [a] + rest;
    assert Dist(a, next) == 1 && Dist(next, b) + 1 == Dist(a, b);
    forall k | 0 <= k < |s|
      ensures Dist(a, s[k]) == k && InBox(s[k], a, b) && Aligned(s[k], a) && Aligned(s[k], b)
    {
      if k > 0 {
        assert s[k] == rest[k - 1];
      }
    }
    forall k | 0 <= k < |s| - 1
      ensures Adjacent(s[k], s[k + 1])
    {
      if k > 0 {
        assert s[k] == rest[k - 1] && s[k + 1] == rest[k];
      }
    }
  }

  /** The straight run of cells from a to b (see `Run`). */
  function Segment(a: Point, b: Point): (s: seq<Point>)
    requires Aligned(a, b)
    ensures |s| == Dist(a, b) + 1
    ensures s[0] == a && s[|s| - 1] == b
    ensures forall k :: 0 <= k < |s| ==>
      Dist(a, s[k]) == k && InBox(s[k], a, b) && Aligned(s[k], a) && Aligned(s[k], b)
    ensures forall k :: 0 <= k < |s| - 1 ==> Adjacent(s[k], s[k + 1])
    ensures Run(s, a, b)
    decreases Dist(a, b)
  {
    if a == b then [a]
    else
      var rest := Segment(StepToward(a, b), b);
      RunCons(a, b, rest);
      [a] + rest
  }

  /** The elbow: (end.x, start.y) when moving horizontally first, else
      (start.x, end.y). It is a corner of the bounding box of start and end,
      shares a coordinate with both, and the first leg keeps start's row when
      moving horizontally first and start's column otherwise. */
  function Corner(start: Point, end: Point, horizontalFirst: bool): (c: Point)
    ensures (c.0 == start.0 || c.0 == end.0) && (c.1 == start.1 || c.1 == end.1)
    ensures Aligned(start, c) && Aligned(c, end)
    ensures horizontalFirst ==> c.1 == start.1
    ensures !horizontalFirst ==> c.0 == start.0
  {
    if horizontalFirst then (end.0, start.1) else (start.0, end.1)
  }

  /** The L-shaped tunnel from start to end through the chosen elbow. The
      elbow appears twice: last in the first run and first in the second. */
  function Tunnel(start: Point, end: Point, horizontalFirst: bool): (t: seq<Point>)
    ensures |t| == Dist(start, end) + 2
    ensures t[0] == start && t[|t| - 1] == end
    ensures Corner(start, end, horizontalFirst) in t
    ensures var c := Corner(start, end, horizontalFirst);
      t[Dist(start, c)] == c && t[Dist(start, c) + 1] == c
    ensures forall k :: 0 <= k < |t| ==> InBox(t[k], start, end)
    ensures forall k :: 0 <= k < |t| - 1 ==> t[k] == t[k + 1] || Adjacent(t[k], t[k + 1])
  {
    var c := Corner(start, end, horizontalFirst);
    var first := Segment(start, c);
    var second := Segment(c, end);
    JoinRuns(start, c, end, first, second);
    first + second
  }

  /** Two runs meeting at a corner of the bounding box of start and end form
      a path from start to end inside that box, moving at most one cell at a
      time. */
  lemma JoinRuns(start: Point, c: Point, end: Point, first: seq<Point>, second: seq<Point>)
    requires (c.0 == start.0 || c.0 == end.0) && (c.1 == start.1 || c.1 == end.1)
    requires Aligned(start, c) && Aligned(c, end)
    requires Run(first, start, c) && Run(second, c, end)
    ensures var t := first + second;
      |t| == Dist(start, end) + 2 && t[0] == start && t[|t| - 1] == end && c in t &&
      t[Dist(start, c)] == c && t[Dist(start, c) + 1] == c &&
      (forall k :: 0 <= k < |t| ==> InBox(t[k], start, end)) &&
      (forall k :: 0 <= k < |t| - 1 ==> t[k] == t[k + 1] || Adjacent(t[k], t[k + 1]))
  {
    var t := first + second;
    assert Dist(start, c) + Dist(c, end) == Dist(start, end);
    assert t[|first| - 1] == c && t[|first|] == second[0];
    forall k | 0 <= k < |t|
      ensures InBox(t[k], start, end)
    {
      if k < |first| {
        assert t[k] == first[k] && InBox(first[k], start, c);
      } else {
        assert t[k] == second[k - |first|] && InBox(second[k - |first|], c, end);
      }
    }
    forall k | 0 <= k < |t| - 1
      ensures t[k] == t[k + 1] || Adjacent(t[k], t[k + 1])
    {
      if k < |first| - 1 {
        assert t[k] == first[k] && t[k + 1] == first[k + 1];
      } else if k >= |first| {
        assert t[k] == second[k - |first|] && t[k + 1] == second[k + 1 - |first|];
      }
    }
  }
}
