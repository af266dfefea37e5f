/** The cellular-automaton cave generator.

    A height-by-width grid of WALL (0) and FLOOR (1) is seeded from noise and
    then smoothed for six generations. Each generation visits the cells in
    row-major order and rewrites each one IN PLACE from the wall counts of its
    3x3 and 5x5 neighbourhoods, clipped at the grid's edges; cells already
    rewritten in the same generation are read with their new value. Cells on
    the outer ring always become WALL.

    The noise is an input: `seed[i][j]` is true when the uniform draw for
    cell (i, j) fell below the fill probability 0.4, which makes it WALL. */
module Cave {

  const WALL: int := 0
  const FLOOR: int := 1
  const Generations: nat := 6

  /** Rows of cells, indexed [row][column]. */
  type Grid = seq<seq<int>>

  predicate Shaped(g: Grid, h: nat, w: nat)
  {
    |g| == h && forall i :: 0 <= i < h ==> |g[i]| == w
  }

  /** Every cell is WALL or FLOOR. */
  predicate Binary(g: Grid)
  {
    forall i, j :: 0 <= i < |g| && 0 <= j < |g[i]| ==> g[i][j] == WALL || g[i][j] == FLOOR
  }

  predicate OnBorder(h: nat, w: nat, i: int, j: int)
  {
    i == 0 || j == 0 || i == h - 1 || j == w - 1
  }

  /** Every cell of the outer ring is WALL. */
  predicate BorderWalls(g: Grid, h: nat, w: nat)
    requires Shaped(g, h, w)
  {
    forall i, j :: 0 <= i < h && 0 <= j < w && OnBorder(h, w, i, j) ==> g[i][j] == WALL
  }

  predicate AllWall(g: Grid, h: nat, w: nat)
    requires Shaped(g, h, w)
  {
    forall i, j :: 0 <= i < h && 0 <= j < w ==> g[i][j] == WALL
  }

  /** Number of WALL cells among row[c0..c1]; at most the width of the range. */
  function RowWalls(row: seq<int>, c0: nat, c1: nat): (n: nat)
    requires c0 <= c1 <= |row|
    ensures n <= c1 - c0
    decreases c1 - c0
  {
    if c0 == c1 then 0 else (if row[c0] == WALL then 1 else 0) + RowWalls(row, c0 + 1, c1)
  }

  /** Number of WALL cells in rows r0..r1 and columns c0..c1 (ends excluded);
      at most the number of cells in the window. */
  function WindowWalls(g: Grid, r0: nat, r1: nat, c0: nat, c1: nat): (n: nat)
    requires r0 <= r1 <= |g| && c0 <= c1
    requires forall i :: r0 <= i < r1 ==> c1 <= |g[i]|
    ensures n <= (r1 - r0) * (c1 - c0)
    decreases r1 - r0
  {
    if r0 == r1 then 0
    else
      var rest := WindowWalls(g, r0 + 1, r1, c0, c1);
      assert (r1 - r0) * (c1 - c0) == (c1 - c0) + (r1 - (r0 + 1)) * (c1 - c0);
      RowWalls(g[r0], c0, c1) + rest
  }

  function Max(a: int, b: int): int { if a < b then b else a }
  function Min(a: int, b: int): int { if a < b then a else b }

  /** WALL count of the square of the given radius around (i, j), clipped to
      the grid: at most the 9 cells of a 3x3 square and the 25 of a 5x5
      square. */
  function WallCount(g: Grid, h: nat, w: nat, i: nat, j: nat, radius: nat): (n: nat)
    requires Shaped(g, h, w) && i < h && j < w
    ensures radius == 1 ==> n <= 9
    ensures radius == 2 ==> n <= 25
  {
    var r0, r1 := Max(i - radius, 0), Min(i + radius + 1, h);
    var c0, c1 := Max(j - radius, 0), Min(j + radius + 1, w);
    ProductMonotone(r1 - r0, c1 - c0, 2 * radius + 1, 2 * radius + 1);
    WindowWalls(g, r0, r1, c0, c1)
  }

  lemma ProductMonotone(a: nat, b: nat, c: nat, d: nat)
    requires a <= c && b <= d
    ensures a * b <= c * d
  {
    assert a * b <= c * b;
    assert c * b <= c * d;
  }

  /** The value generation `gen` writes at (i, j), reading grid g as it is at
      that moment: the first five generations make a wall where the 3x3 count
      is at least 5 or the 5x5 count at most 7, the last one only where the
      3x3 count is at least 5; the outer ring is always wall. */
  function NextCell(g: Grid, h: nat, w: nat, gen: nat, i: nat, j: nat): (v: int)
    requires Shaped(g, h, w) && i < h && j < w
    ensures v == WALL || v == FLOOR
    ensures OnBorder(h, w, i, j) ==> v == WALL
  {
    var near := WallCount(g, h, w, i, j, 1);
    var far := WallCount(g, h, w, i, j, 2);
    var ruled :=
      if gen < Generations - 1 then (if near >= 5 || far <= 7 then WALL else FLOOR)
      else (if near >= 5 then WALL else FLOOR);
    if OnBorder(h, w, i, j) then WALL else ruled
  }

  /** Rewrites row i from column j to its end, one cell at a time, each cell
      computed from the grid as updated so far. */
  function SweepRow(g: Grid, h: nat, w: nat, gen: nat, i: nat, j: nat): (r: Grid)
    requires Shaped(g, h, w) && i < h && j <= w
    ensures Shaped(r, h, w)
    decreases w - j
  {
    if j == w then g
    else SweepRow(g[i := g[i][j := NextCell(g, h, w, gen, i, j)]], h, w, gen, i, j + 1)
  }

  /** Rewrites rows i to h-1 in order. */
  function SweepRows(g: Grid, h: nat, w: nat, gen: nat, i: nat): (r: Grid)
    requires Shaped(g, h, w) && i <= h
    ensures Shaped(r, h, w)
    decreases h - i
  {
    if i == h then g else SweepRows(SweepRow(g, h, w, gen, i, 0), h, w, gen, i + 1)
  }

  /** Runs generations gen up to the last one. */
  function Smooth(g: Grid, h: nat, w: nat, gen: nat): (r: Grid)
    requires Shaped(g, h, w) && gen <= Generations
    ensures Shaped(r, h, w)
    decreases Generations - gen
  {
    if gen == Generations then g else Smooth(SweepRows(g, h, w, gen, 0), h, w, gen + 1)
  }

  predicate SeedShaped(seed: seq<seq<bool>>, h: nat, w: nat)
  {
    |seed| == h && forall i :: 0 <= i < h ==> |seed[i]| == w
  }

  /** The noise grid: WALL where the draw fell below the fill probability. */
  function SeedGrid(seed: seq<seq<bool>>, h: nat, w: nat): (g: Grid)
    requires SeedShaped(seed, h, w)
    ensures Shaped(g, h, w)
  {
    seq(h, i requires 0 <= i < h => seq(w, j requires 0 <= j < w => if seed[i][j] then WALL else FLOOR))
  }

  /** The cave generated from a seed: the noise grid after all generations. */
  function CaveOf(seed: seq<seq<bool>>, h: nat, w: nat): (g: Grid)
    requires SeedShaped(seed, h, w)
    ensures Shaped(g, h, w)
  {
    Smooth(SeedGrid(seed, h, w), h, w, 0)
  }

  // ---------------------------------------------------------------------
  // Properties of one sweep

  /** Sweeping row i from column j leaves the other rows and the columns
      before j alone, writes only WALL or FLOOR, and leaves every outer-ring
      cell from column j on as WALL. */
  lemma {:induction false} SweepRowFacts(g: Grid, h: nat, w: nat, gen: nat, i: nat, j: nat)
    requires Shaped(g, h, w) && i < h && j <= w
    ensures var r := SweepRow(g, h, w, gen, i, j);
      (forall a :: 0 <= a < h && a != i ==> r[a] == g[a]) &&
      (forall b :: 0 <= b < j ==> r[i][b] == g[i][b]) &&
      (forall b :: j <= b < w ==> r[i][b] == WALL || r[i][b] == FLOOR) &&
      (forall b :: j <= b < w && OnBorder(h, w, i, b) ==> r[i][b] == WALL)
    decreases w - j
  {
    if j < w {
      var g' := g[i := g[i][j := NextCell(g, h, w, gen, i, j)]];
      SweepRowFacts(g', h, w, gen, i, j + 1);
    }
  }

  /** Sweeping rows i.. leaves the rows before i alone and leaves rows i..
      holding only WALL or FLOOR, with WALL on their outer-ring cells. */
  lemma {:induction false} SweepRowsFacts(g: Grid, h: nat, w: nat, gen: nat, i: nat)
    requires Shaped(g, h, w) && i <= h
    ensures var r := SweepRows(g, h, w, gen, i);
      (forall a :: 0 <= a < i ==> r[a] == g[a]) &&
      (forall a, b :: i <= a < h && 0 <= b < w ==> r[a][b] == WALL || r[a][b] == FLOOR) &&
      (forall a, b :: i <= a < h && 0 <= b < w && OnBorder(h, w, a, b) ==> r[a][b] == WALL)
    decreases h - i
  {
    if i < h {
      var g' := SweepRow(g, h, w, gen, i, 0);
      SweepRowFacts(g, h, w, gen, i, 0);
      SweepRowsFacts(g', h, w, gen, i + 1);
    }
  }

  /** After every remaining generation (at least one), the grid holds only
      WALL and FLOOR and its outer ring is WALL. */
  lemma {:induction false} SmoothFacts(g: Grid, h: nat, w: nat, gen: nat)
    requires Shaped(g, h, w) && gen < Generations
    ensures var r := Smooth(g, h, w, gen);
      Binary(r) && BorderWalls(r, h, w)
    decreases Generations - gen
  {
    var g' := SweepRows(g, h, w, gen, 0);
    SweepRowsFacts(g, h, w, gen, 0);
    if gen + 1 < Generations {
      SmoothFacts(g', h, w, gen + 1);
    }
  }

  /** A generated cave has the requested shape, only WALL and FLOOR cells,
      and a WALL outer ring, whatever the seed. */
  lemma CaveIsEnclosed(seed: seq<seq<bool>>, h: nat, w: nat)
    requires SeedShaped(seed, h, w)
    ensures Shaped(CaveOf(seed, h, w), h, w)
    ensures Binary(CaveOf(seed, h, w)) && BorderWalls(CaveOf(seed, h, w), h, w)
  {
    SmoothFacts(SeedGrid(seed, h, w), h, w, 0);
  }

  // ---------------------------------------------------------------------
  // An all-wall seed stays all wall

  lemma {:induction false} RowWallsAllWall(row: seq<int>, c0: nat, c1: nat)
    requires c0 <= c1 <= |row|
    requires forall b :: c0 <= b < c1 ==> row[b] == WALL
    ensures RowWalls(row, c0, c1) == c1 - c0
    decreases c1 - c0
  {
    if c0 < c1 {
      RowWallsAllWall(row, c0 + 1, c1);
    }
  }

  /** In an all-wall grid an interior cell sees nine walls around it. */
  lemma InteriorSeesNineWalls(g: Grid, h: nat, w: nat, i: nat, j: nat)
    requires Shaped(g, h, w) && AllWall(g, h, w)
    requires 1 <= i < h - 1 && 1 <= j < w - 1
    ensures WallCount(g, h, w, i, j, 1) == 9
  {
    RowWallsAllWall(g[i - 1], j - 1, j + 2);
    RowWallsAllWall(g[i], j - 1, j + 2);
    RowWallsAllWall(g[i + 1], j - 1, j + 2);
    assert WallCount(g, h, w, i, j, 1) == WindowWalls(g, i - 1, i + 2, j - 1, j + 2);
    assert WindowWalls(g, i + 1, i + 2, j - 1, j + 2) == 3;
    assert WindowWalls(g, i, i + 2, j - 1, j + 2) == 6;
  }

  /** In an all-wall grid every cell is rewritten as WALL, by either rule. */
  lemma NextCellAllWall(g: Grid, h: nat, w: nat, gen: nat, i: nat, j: nat)
    requires Shaped(g, h, w) && AllWall(g, h, w) && i < h && j < w
    ensures NextCell(g, h, w, gen, i, j) == WALL
  {
    if !OnBorder(h, w, i, j) {
      InteriorSeesNineWalls(g, h, w, i, j);
    }
  }

  lemma {:induction false} SweepRowAllWall(g: Grid, h: nat, w: nat, gen: nat, i: nat, j: nat)
    requires Shaped(g, h, w) && AllWall(g, h, w) && i < h && j <= w
    ensures SweepRow(g, h, w, gen, i, j) == g
    decreases w - j
  {
    if j < w {
      NextCellAllWall(g, h, w, gen, i, j);
      assert g[i][j := WALL] == g[i];
      assert g[i := g[i][j := WALL]] == g;
      SweepRowAllWall(g, h, w, gen, i, j + 1);
    }
  }

  lemma {:induction false} SweepRowsAllWall(g: Grid, h: nat, w: nat, gen: nat, i: nat)
    requires Shaped(g, h, w) && AllWall(g, h, w) && i <= h
    ensures SweepRows(g, h, w, gen, i) == g
    decreases h - i
  {
    if i < h {
      SweepRowAllWall(g, h, w, gen, i, 0);
      SweepRowsAllWall(g, h, w, gen, i + 1);
    }
  }

  lemma {:induction false} SmoothAllWall(g: Grid, h: nat, w: nat, gen: nat)
    requires Shaped(g, h, w) && AllWall(g, h, w) && gen <= Generations
    ensures Smooth(g, h, w, gen) == g
    decreases Generations - gen
  {
    if gen < Generations {
      SweepRowsAllWall(g, h, w, gen, 0);
      SmoothAllWall(g, h, w, gen + 1);
    }
  }

  /** If every draw made a wall, the cave is solid wall. */
  lemma AllWallSeedStaysWall(seed: seq<seq<bool>>, h: nat, w: nat)
    requires SeedShaped(seed, h, w)
    requires forall i, j :: 0 <= i < h && 0 <= j < w ==> seed[i][j]
    ensures AllWall(CaveOf(seed, h, w), h, w)
  {
    SmoothAllWall(SeedGrid(seed, h, w), h, w, 0);
  }

  // ---------------------------------------------------------------------
  // The generator

  /** The cells of a height-by-width array as rows. */
  function Cells(m: array2<int>): (g: Grid)
    reads m
    ensures Shaped(g, m.Length0, m.Length1)
    ensures forall i, j :: 0 <= i < m.Length0 && 0 <= j < m.Length1 ==> g[i][j] == m[i, j]
  {
    seq(m.Length0, i requires 0 <= i < m.Length0 reads m =>
      seq(m.Length1, j requires 0 <= j < m.Length1 reads m => m[i, j]))
  }

  /** Seeds a height-by-width grid from the noise and smooths it for six
      generations in place; the result is the cave the seed determines. */
  method InitializeCave(width: nat, height: nat, seed: seq<seq<bool>>) returns (m: array2<int>)
    requires SeedShaped(seed, height, width)
    ensures fresh(m) && m.Length0 == height && m.Length1 == width
    ensures Cells(m) == CaveOf(seed, height, width)
  {
    m := new int[height, width]((i, j) => FLOOR);
    SeedNoise(m, seed);
    SmoothAll(m);
  }

  /** Runs all generations on the grid in place. */
  method SmoothAll(m: array2<int>)
    modifies m
    ensures Cells(m) == Smooth(old(Cells(m)), m.Length0, m.Length1, 0)
  {
    var height, width := m.Length0, m.Length1;
    ghost var start := Cells(m);
    for gen := 0 to Generations
      invariant Smooth(Cells(m), height, width, gen) == Smooth(start, height, width, 0)
    {
      SmoothGeneration(m, gen);
    }
  }

  /** Writes the noise into the grid, cell by cell in row-major order. */
  method SeedNoise(m: array2<int>, seed: seq<seq<bool>>)
    requires SeedShaped(seed, m.Length0, m.Length1)
    modifies m
    ensures Cells(m) == SeedGrid(seed, m.Length0, m.Length1)
  {
    var height, width := m.Length0, m.Length1;
    for i := 0 to height
      invariant forall a, b :: 0 <= a < i && 0 <= b < width ==> m[a, b] == if seed[a][b] then WALL else FLOOR
    {
      for j := 0 to width
        invariant forall a, b :: 0 <= a < i && 0 <= b < width ==> m[a, b] == if seed[a][b] then WALL else FLOOR
        invariant forall b :: 0 <= b < j ==> m[i, b] == if seed[i][b] then WALL else FLOOR
      {
        m[i, j] := if seed[i][j] then WALL else FLOOR;
      }
    }
    assert Cells(m) == SeedGrid(seed, height, width) by {
      forall a | 0 <= a < height
        ensures Cells(m)[a] == SeedGrid(seed, height, width)[a]
      {
      }
    }
  }

  /** One generation: visits the cells row by row and rewrites each in place. */
  method SmoothGeneration(m: array2<int>, gen: nat)
    requires gen < Generations
    modifies m
    ensures Cells(m) == SweepRows(old(Cells(m)), m.Length0, m.Length1, gen, 0)
  {
    var height, width := m.Length0, m.Length1;
    ghost var start := Cells(m);
    for i := 0 to height
      invariant SweepRows(Cells(m), height, width, gen, i) == SweepRows(start, height, width, gen, 0)
    {
      ghost var rowStart := Cells(m);
      for j := 0 to width
        invariant SweepRow(Cells(m), height, width, gen, i, j) == SweepRow(rowStart, height, width, gen, i, 0)
      {
        RewriteCell(m, gen, i, j);
      }
    }
  }

  /** Rewrites cell (i, j) from the wall counts around it, as the array is
      now; nothing else changes. */
  method RewriteCell(m: array2<int>, gen: nat, i: nat, j: nat)
    requires i < m.Length0 && j < m.Length1
    modifies m
    ensures var g := old(Cells(m));
      Cells(m) == g[i := g[i][j := NextCell(g, m.Length0, m.Length1, gen, i, j)]]
  {
    var height, width := m.Length0, m.Length1;
    var g := Cells(m);
    var near := WallCount(g, height, width, i, j, 1);
    var far := WallCount(g, height, width, i, j, 2);
    var v: int;
    if gen < Generations - 1 {
      v := if near >= 5 || far <= 7 then WALL else FLOOR;
    } else {
      v := if near >= 5 then WALL else FLOOR;
    }
    if i == 0 || j == 0 || i == height - 1 || j == width - 1 {
      v := WALL;
    }
    assert v == NextCell(g, height, width, gen, i, j);
    m[i, j] := v;
    assert Cells(m) == g[i := g[i][j := v]] by {
      forall a | 0 <= a < height
        ensures Cells(m)[a] == g[i := g[i][j := v]][a]
      {
      }
    }
  }
}
