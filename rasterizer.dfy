/**
 * The glyph rasteriser, `create_text_matrix`: lays the characters of a short
 * text left to right into a 7-row by 52-column grid of 0/1 cells, one 7x5
 * glyph per character followed by one blank spacing column.
 */
module Rasterizer {

  const Rows := 7
  const Columns := 52
  const GlyphWidth := 5
  /** The width of one character slot: the glyph and its spacing column. */
  const SlotWidth := 6
  /** `52 // 6`: the number of characters that fit on the grid. */
  const MaxChars := Columns / SlotWidth

  type Glyph = seq<seq<int>>
  type Font = map<char, Glyph>

  /** A glyph that `font[char][y][x]` can be read from for every y < 7, x < 5. */
  predicate GlyphWellFormed(g: Glyph)
  {
    |g| >= Rows && forall y :: 0 <= y < Rows ==> |g[y]| >= GlyphWidth
  }

  /** The font table holds the fallback glyph for ' ' and only well-formed glyphs. */
  predicate FontWellFormed(font: Font)
  {
    ' ' in font && forall c :: c in font ==> GlyphWellFormed(font[c])
  }

  /** The glyph drawn for `c`: its own, or the space glyph when the font lacks it. */
  function GlyphOf(font: Font, c: char): (g: Glyph)
    requires FontWellFormed(font)
    ensures GlyphWellFormed(g)
  {
    if c in font then font[c] else font[' ']
  }

  /** The text that is drawn: its first MaxChars characters. */
  function Truncate(text: string): (t: string)
    ensures |t| <= |text| && |t| <= MaxChars && t == text[..|t|]
    ensures |t| == MaxChars || t == text
  {
    if |text| > MaxChars then text[..MaxChars] else text
  }

  /**
   * The value of cell (y, c) of the finished grid: column x of the glyph of
   * the i-th drawn character when c == 6 * i + x with x < 5, and 0 elsewhere.
   */
  function RasterCell(font: Font, text: string, y: nat, c: nat): int
    requires FontWellFormed(font) && y < Rows
  {
    var t := Truncate(text);
    if c < SlotWidth * |t| && c % SlotWidth < GlyphWidth then
      GlyphOf(font, t[c / SlotWidth])[y][c % SlotWidth]
    else
      0
  }

  /** The finished grid as rows of cells. */
  function RasterGrid(font: Font, text: string): (grid: seq<seq<int>>)
    requires FontWellFormed(font)
  {
    seq(Rows, y requires 0 <= y < Rows => seq(Columns, c requires 0 <= c < Columns => RasterCell(font, text, y, c)))
  }

  /** The contents of a two-dimensional array as a sequence of rows. */
  function RowsOf(a: array2<int>): seq<seq<int>>
    reads a
  {
    seq(a.Length0, y requires 0 <= y < a.Length0 reads a =>
      seq(a.Length1, c requires 0 <= c < a.Length1 reads a => a[y, c]))
  }

  /** Where the x-th column of the i-th slot lies. */
  lemma SlotPosition(i: nat, x: nat)
    requires x < SlotWidth
    ensures (SlotWidth * i + x) / SlotWidth == i && (SlotWidth * i + x) % SlotWidth == x
  {
  }

  /** Rows that agree cell by cell with RasterCell are RasterGrid. */
  lemma RowsOfRaster(font: Font, text: string, grid: array2<int>)
    requires FontWellFormed(font) && grid.Length0 == Rows && grid.Length1 == Columns
    requires forall y, c :: 0 <= y < Rows && 0 <= c < Columns ==> grid[y, c] == RasterCell(font, text, y, c)
    ensures RowsOf(grid) == RasterGrid(font, text)
  {
    forall y | 0 <= y < Rows
      ensures RowsOf(grid)[y] == RasterGrid(font, text)[y]
    {
    }
  }

  /** The inner loop of main.py:25-26: copy column x of the glyph into grid column `col`, row by row. */
  method DrawColumn(grid: array2<int>, col: nat, glyph: Glyph, x: nat)
    requires grid.Length0 == Rows && col < grid.Length1
    requires GlyphWellFormed(glyph) && x < GlyphWidth
    modifies grid
    ensures forall y, c :: 0 <= y < Rows && 0 <= c < grid.Length1 ==>
      grid[y, c] == if c == col then glyph[y][x] else old(grid[y, c])
  {
    for y := 0 to Rows
      invariant forall y', c :: 0 <= y' < Rows && 0 <= c < grid.Length1 ==>
        grid[y', c] == if c == col && y' < y then glyph[y'][x] else old(grid[y', c])
    {
      grid[y, col] := glyph[y][x];
    }
  }

  /** `create_text_matrix`: allocates a zero 7x52 grid and copies the glyph columns in with a moving cursor. */
  method CreateTextMatrix(font: Font, text: string) returns (grid: array2<int>)
    requires FontWellFormed(font)
    ensures fresh(grid) && grid.Length0 == Rows && grid.Length1 == Columns
    ensures forall y, c :: 0 <= y < Rows && 0 <= c < Columns ==> grid[y, c] == RasterCell(font, text, y, c)
    ensures RowsOf(grid) == RasterGrid(font, text)
  {
    var t := text;
    if |t| > MaxChars {
      t := t[..MaxChars];
    }
    assert t == Truncate(text);
    grid := new int[Rows, Columns]((y, c) => 0);
    var col := 0;
    for i := 0 to |t|
      invariant col == SlotWidth * i
      invariant forall y, c :: 0 <= y < Rows && 0 <= c < Columns ==>
        grid[y, c] == if c < col then RasterCell(font, text, y, c) else 0
    {
      var ch := t[i];
      if ch !in font {
        ch := ' ';
      }
      var glyph := font[ch];
      assert glyph == GlyphOf(font, t[i]);
      for x := 0 to GlyphWidth
        invariant col == SlotWidth * i + x
        invariant forall y, c :: 0 <= y < Rows && 0 <= c < Columns ==>
          grid[y, c] == if c < col then RasterCell(font, text, y, c) else 0
      {
        if col >= Columns {
          break;
        }
        SlotPosition(i, x);
        DrawColumn(grid, col, glyph, x);
        col := col + 1;
      }
      SlotPosition(i, GlyphWidth);
      if col < Columns {
        col := col + 1;
      }
    }
    RowsOfRaster(font, text, grid);
  }

  /** The i-th drawn character's glyph lands in columns 6i..6i+4, row for row. */
  lemma GlyphPlacement(font: Font, text: string, i: nat, x: nat, y: nat)
    requires FontWellFormed(font) && i < |Truncate(text)| && x < GlyphWidth && y < Rows
    ensures RasterCell(font, text, y, SlotWidth * i + x) == GlyphOf(font, Truncate(text)[i])[y][x]
  {
    SlotPosition(i, x);
  }

  /** Spacing columns, and every column after the last drawn character, stay 0. */
  lemma BlankColumns(font: Font, text: string, y: nat, c: nat)
    requires FontWellFormed(font) && y < Rows && c < Columns
    requires c % SlotWidth == GlyphWidth || c >= SlotWidth * |Truncate(text)|
    ensures RasterCell(font, text, y, c) == 0
  {
  }

  /** Nothing is drawn beyond column 46, so the week-52 column is always empty. */
  lemma LitColumnsBound(font: Font, text: string, y: nat, c: nat)
    requires FontWellFormed(font) && y < Rows
    requires RasterCell(font, text, y, c) != 0
    ensures c <= SlotWidth * MaxChars - 2
  {
  }

  /** A character missing from the font is drawn exactly as the space glyph. */
  lemma MissingCharDrawnAsSpace(font: Font, text: string, i: nat, x: nat, y: nat)
    requires FontWellFormed(font) && i < |Truncate(text)| && x < GlyphWidth && y < Rows
    requires Truncate(text)[i] !in font
    ensures RasterCell(font, text, y, SlotWidth * i + x) == font[' '][y][x]
  {
    GlyphPlacement(font, text, i, x, y);
  }

  /** Over-long text draws the same grid as its first MaxChars characters; anything after them is ignored. */
  lemma OverlongTextCut(font: Font, text: string, extra: string)
    requires FontWellFormed(font) && |text| == MaxChars
    ensures RasterGrid(font, text + extra) == RasterGrid(font, text)
  {
    assert Truncate(text + extra) == text;
    forall y | 0 <= y < Rows
      ensures RasterGrid(font, text + extra)[y] == RasterGrid(font, text)[y]
    {
    }
  }
}
