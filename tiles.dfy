/** The tile catalog: the record every grid cell holds, the constructor that
    builds one, and the two canonical tiles `Floor` and `Wall`.

    A tile's appearance is stored in fixed-width fields: the glyph as a signed
    32-bit integer and each colour component as an unsigned byte. Values that
    do not fit are truncated the way a fixed-width store truncates them
    (two's complement wrap-around). */
module Tiles {

  newtype byte = x: int | 0 <= x < 0x100
  newtype int32 = x: int | -0x8000_0000 <= x < 0x8000_0000

  /** A colour as stored: three unsigned bytes. */
  datatype Colour = Colour(r: byte, g: byte, b: byte)

  /** The "dark" appearance: a glyph code point and two colours. */
  datatype Graphic = Graphic(ch: int32, fg: Colour, bg: Colour)

  datatype Tile = Tile(walkable: bool, transparent: bool, dark: Graphic)

  /** An appearance as a caller writes it: glyph, foreground, background. */
  type Rgb = (int, int, int)
  type Appearance = (int, Rgb, Rgb)

  /** Stores an integer in an unsigned byte, keeping its low eight bits. */
  function ToByte(c: int): (b: byte)
    ensures (b as int - c) % 0x100 == 0
    ensures 0 <= c < 0x100 ==> b as int == c
  {
    (c % 0x100) as byte
  }

  /** Stores an integer in a signed 32-bit field, keeping its low 32 bits. */
  function ToInt32(c: int): (v: int32)
    ensures (v as int - c) % 0x1_0000_0000 == 0
    ensures -0x8000_0000 <= c < 0x8000_0000 ==> v as int == c
  {
    var low := c % 0x1_0000_0000;
    if low < 0x8000_0000 then low as int32 else (low - 0x1_0000_0000) as int32
  }

  predicate FitsByte(c: int) { 0 <= c < 0x100 }

  predicate FitsRgb(c: Rgb) { FitsByte(c.0) && FitsByte(c.1) && FitsByte(c.2) }

  /** The appearance arguments are storable without truncation. */
  predicate Storable(dark: Appearance)
  {
    -0x8000_0000 <= dark.0 < 0x8000_0000 && FitsRgb(dark.1) && FitsRgb(dark.2)
  }

  function ToColour(c: Rgb): Colour
  {
    Colour(ToByte(c.0), ToByte(c.1), ToByte(c.2))
  }

  function ColourValue(c: Colour): Rgb
  {
    (c.r as int, c.g as int, c.b as int)
  }

  /** Reads a stored appearance back as plain integers. */
  function AppearanceOf(g: Graphic): Appearance
  {
    (g.ch as int, ColourValue(g.fg), ColourValue(g.bg))
  }

  /** Builds a tile record from its three arguments. */
  function NewTile(walkable: bool, transparent: bool, dark: Appearance): (t: Tile)
    ensures t.walkable == walkable && t.transparent == transparent
    ensures Storable(dark) <==> AppearanceOf(t.dark) == dark
  {
    Tile(walkable, transparent, Graphic(ToInt32(dark.0), ToColour(dark.1), ToColour(dark.2)))
  }

  /** Reading back what was stored gives the arguments, whenever they fit. */
  lemma NewTileRoundTrip(walkable: bool, transparent: bool, dark: Appearance)
    requires Storable(dark)
    ensures var t := NewTile(walkable, transparent, dark);
      t.walkable == walkable && t.transparent == transparent && AppearanceOf(t.dark) == dark
  {
  }

  const Floor: Tile := NewTile(true, true, (' ' as int, (255, 255, 255), (0, 0, 0)))
  const Wall: Tile := NewTile(false, false, ('#' as int, (161, 192, 207), (0, 0, 0)))

  /** Floor can be walked on and seen through, and shows a white blank on black. */
  lemma FloorAttributes()
    ensures Floor.walkable && Floor.transparent
    ensures AppearanceOf(Floor.dark) == (32, (255, 255, 255), (0, 0, 0))
  {
  }

  /** Wall blocks movement and sight, and shows a light blue '#' on black. */
  lemma WallAttributes()
    ensures !Wall.walkable && !Wall.transparent
    ensures AppearanceOf(Wall.dark) == (35, (161, 192, 207), (0, 0, 0))
  {
  }

  /** The two tiles differ in walkability, so a grid cell tells which it is. */
  lemma FloorIsNotWall()
    ensures Floor != Wall && Floor.walkable != Wall.walkable
  {
  }
}
