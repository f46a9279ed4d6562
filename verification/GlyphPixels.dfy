/** What the painters leave in the framebuffer, dot by dot: font, scale, colours and canvas. */
module GlyphPixels {
  import opened Basics
  import opened Screens
  import opened Pixels
  import opened FlatScreens

  /** The places that belong to dot `fx` of a line `gy` of the glyph `c`, scaled column `j`, of cell (x, y): in the
      framebuffer, the font and the canvas. */
  lemma DotPlaces(d: Display, x: nat, y: nat, c: byte, fx: nat, j: nat, gy: nat)
    requires x < d.cols && y < d.rows && fx < d.fontWidth && j < d.scaleX && gy < d.glyphHeight
    ensures var px, py := d.offsetX + x * d.glyphWidth + d.scaleX * fx + j, d.offsetY + y * d.glyphHeight + gy;
      && 0 <= py * d.stride + px < FbSize(d)
      && 0 <= py * d.width + px < |d.canvas|
      && 0 <= c * d.fontHeight * d.fontWidth + gy / d.scaleY * d.fontWidth + fx < |d.font|
  {
    var gx := d.scaleX * fx + j;
    FlatIndex(j, fx, d.fontWidth, d.scaleX);
    PixelPlace(d, x, y, gx, gy);
    BehindInRange(d, ScreenX(d, x, gx), ScreenY(d, y, gy));
    FlatCell(gy, d.fontHeight, d.scaleY);
    FontIndexInRange(d, c, fx, gy / d.scaleY);
  }

  /** The dot is in the foreground where the font has it and in the background elsewhere; the transparent colour
      is that of the canvas at the same place. */
  ghost predicate DotShown(d: Display, fb: seq<u32>, x: nat, y: nat, c: byte, fg: u32, bg: u32, fx: nat, j: nat,
    gy: nat)
    requires |fb| == FbSize(d)
    requires x < d.cols && y < d.rows && fx < d.fontWidth && j < d.scaleX && gy < d.glyphHeight
  {
    DotPlaces(d, x, y, c, fx, j, gy);
    var px, py := d.offsetX + x * d.glyphWidth + d.scaleX * fx + j, d.offsetY + y * d.glyphHeight + gy;
    var colour := if d.font[c * d.fontHeight * d.fontWidth + gy / d.scaleY * d.fontWidth + fx] then fg else bg;
    fb[py * d.stride + px] == if colour == 0xffff_ffff then d.canvas[py * d.width + px] else colour
  }

  /** All dots of the glyph are. */
  ghost predicate GlyphShown(d: Display, fb: seq<u32>, x: nat, y: nat, c: byte, fg: u32, bg: u32)
    requires |fb| == FbSize(d) && x < d.cols && y < d.rows
  {
    forall fx, j, gy :: 0 <= fx < d.fontWidth && 0 <= j < d.scaleX && 0 <= gy < d.glyphHeight ==>
      DotShown(d, fb, x, y, c, fg, bg, fx, j, gy)
  }

  /** The dot that a pixel of the cell belongs to. */
  lemma DotOfPixel(d: Display, x: nat, y: nat, k: nat) returns (fx: nat, j: nat, gy: nat)
    requires x < d.cols && y < d.rows && Owner(d, k) == Index(d.cols, x, y)
    ensures fx < d.fontWidth && j < d.scaleX && gy < d.glyphHeight
    ensures k == PixelAt(d, x, y, ScaledColumn(d.scaleX, fx, j), gy)
  {
    PixelUnique(d, x, y, k);
    FlatCell(LocalX(d, k), d.fontWidth, d.scaleX);
    fx, j, gy := LocalX(d, k) / d.scaleX, LocalX(d, k) % d.scaleX, LocalY(d, k);
    Commute(fx, d.scaleX);
  }

  lemma Commute(a: int, b: int)
    ensures a * b == b * a
  {
  }

  /** A pixel has the colour that its cell gives it exactly if its dot is shown. */
  lemma InkIsDot(d: Display, fb: seq<u32>, cell: Cell, x: nat, y: nat, fx: nat, j: nat, gy: nat)
    requires |fb| == FbSize(d)
    requires x < d.cols && y < d.rows && fx < d.fontWidth && j < d.scaleX && gy < d.glyphHeight
    ensures ScaledColumn(d.scaleX, fx, j) < d.glyphWidth
    ensures var k := PixelAt(d, x, y, ScaledColumn(d.scaleX, fx, j), gy);
      && k < |fb| && InText(d, k) && Owner(d, k) == Index(d.cols, x, y)
      && (fb[k] == Ink(d, cell, k) <==> DotShown(d, fb, x, y, cell.c, cell.fg, cell.bg, fx, j, gy))
  {
    var gx := d.scaleX * fx + j;
    FlatIndex(j, fx, d.fontWidth, d.scaleX);
    Commute(fx, d.scaleX);
    assert gx / d.scaleX == fx;
    PixelPlace(d, x, y, gx, gy);
    DotPlaces(d, x, y, cell.c, fx, j, gy);
  }

  /** So a cell is shown exactly if all dots of its glyph are, in its colours. */
  lemma ShowsGlyph(d: Display, fb: seq<u32>, cell: Cell, x: nat, y: nat)
    requires |fb| == FbSize(d) && x < d.cols && y < d.rows
    ensures Shows(d, fb, Index(d.cols, x, y), cell) <==> GlyphShown(d, fb, x, y, cell.c, cell.fg, cell.bg)
  {
    hide Shows, GlyphShown;
    if Shows(d, fb, Index(d.cols, x, y), cell) {
      ShownToGlyph(d, fb, cell, x, y);
    }
    if GlyphShown(d, fb, x, y, cell.c, cell.fg, cell.bg) {
      GlyphToShown(d, fb, cell, x, y);
    }
  }

  lemma ShownToGlyph(d: Display, fb: seq<u32>, cell: Cell, x: nat, y: nat)
    requires |fb| == FbSize(d) && x < d.cols && y < d.rows
    requires Shows(d, fb, Index(d.cols, x, y), cell)
    ensures GlyphShown(d, fb, x, y, cell.c, cell.fg, cell.bg)
  {
    hide Ink, Owner, InText, PixelAt, DotShown;
    forall fx, j, gy | 0 <= fx < d.fontWidth && 0 <= j < d.scaleX && 0 <= gy < d.glyphHeight
      ensures DotShown(d, fb, x, y, cell.c, cell.fg, cell.bg, fx, j, gy)
    {
      InkIsDot(d, fb, cell, x, y, fx, j, gy);
    }
  }

  lemma GlyphToShown(d: Display, fb: seq<u32>, cell: Cell, x: nat, y: nat)
    requires |fb| == FbSize(d) && x < d.cols && y < d.rows
    requires GlyphShown(d, fb, x, y, cell.c, cell.fg, cell.bg)
    ensures Shows(d, fb, Index(d.cols, x, y), cell)
  {
    hide Ink, PixelAt, DotShown;
    forall k | 0 <= k < |fb| && Owner(d, k) == Index(d.cols, x, y) ensures InText(d, k) && fb[k] == Ink(d, cell, k) {
      var fx, j, gy := DotOfPixel(d, x, y, k);
      InkIsDot(d, fb, cell, x, y, fx, j, gy);
    }
  }

  /** Every cell of the screen is shown, the cell of an enabled cursor with its colours exchanged. */
  ghost predicate ScreenShown(d: Display, fb: seq<u32>, s: Screen)
    requires |fb| == FbSize(d) && s.rows == d.rows && s.cols == d.cols
  {
    forall x, y :: 0 <= x < s.cols && 0 <= y < s.rows ==>
      var c, fg, bg := s.lines[y][x].c, s.lines[y][x].fg, s.lines[y][x].bg;
      if s.cursorEnabled && s.cursorX == x && s.cursorY == y then GlyphShown(d, fb, x, y, c, bg, fg)
      else GlyphShown(d, fb, x, y, c, fg, bg)
  }
}
