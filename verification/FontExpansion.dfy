/** Expansion of the one-byte-wide font and the text area geometry (`flanterm_fb_init`). */
module FontExpansion {
  import opened Basics
  import opened Screens
  import opened Pixels

  /** Is the dot in column `x` of a font row set? Columns past the eighth are empty, except that glyphs
      0xC0 to 0xDF repeat the last dot, as the VGA line graphics mode does. */
  predicate FontDot(bits: byte, glyph: nat, x: nat) {
    if x < 8 then bits / Mask(x) % 2 == 1
    else 0xc0 <= glyph <= 0xdf && bits % 2 == 1
  }

  /** `0x80 >> x` */
  function Mask(x: nat): nat
    requires x < 8
    ensures Mask(x) >= 1
  {
    [0x80, 0x40, 0x20, 0x10, 8, 4, 2, 1][x]
  }

  /** Dot `j` of the expanded font: font rows follow each other, `width` dots each. */
  predicate ExpandedDot(bits: seq<byte>, width: nat, height: nat, j: nat)
    requires width >= 1 && height >= 1 && j / width < |bits|
  {
    FontDot(bits[j / width], j / width / height, j % width)
  }

  ghost function ExpandedFont(bits: seq<byte>, width: nat, height: nat): (font: seq<bool>)
    requires width >= 1 && height >= 1 && |bits| >= GLYPHS * height
    ensures |font| == GLYPHS * height * width
  {
    seq(GLYPHS * height * width, j requires 0 <= j < GLYPHS * height * width =>
      (FlatCell(j, GLYPHS * height, width); ExpandedDot(bits, width, height, j)))
  }

  /** The canvas: the picture given, or else the default background everywhere. */
  function Canvas(width: nat, height: nat, picture: Option<seq<u32>>, colours: Palette): seq<u32> {
    if picture.Some? then picture.value else seq(width * height, _ => colours.defaultBg)
  }

  /** `font_bool` as the loops of the source fill it in. */
  method ExpandFont(bits: seq<byte>, width: nat, height: nat) returns (font: array<bool>)
    requires width >= 8 && height >= 1 && |bits| >= GLYPHS * height
    ensures fresh(font) && font.Length == GLYPHS * height * width
    ensures font[..] == ExpandedFont(bits, width, height)
  {
    font := new bool[GLYPHS * height * width];
    var i := 0;
    while i < GLYPHS
      invariant i <= GLYPHS
      invariant FilledTo(bits, width, height, font[..], i * height * width)
    {
      var y := 0;
      while y < height
        invariant y <= height
        invariant FilledTo(bits, width, height, font[..], i * height * width + y * width)
      {
        ExpandRow(bits, width, height, font, i, y);
        NextMultiple(y, width);
        y := y + 1;
      }
      assert (i + 1) * height * width == i * height * width + height * width by {
        Associate(i + 1, height, width);
        Associate(i, height, width);
        NextMultiple(i, height * width);
      }
      i := i + 1;
    }
  }

  /** One row of one glyph: eight dots from the bits of its byte, the others copies of the eighth for the
      line-drawing glyphs and blank for the rest. */
  method ExpandRow(bits: seq<byte>, width: nat, height: nat, font: array<bool>, i: nat, y: nat)
    requires width >= 8 && height >= 1 && |bits| >= GLYPHS * height && i < GLYPHS && y < height
    requires font.Length == GLYPHS * height * width
    requires FilledTo(bits, width, height, font[..], i * height * width + y * width)
    modifies font
    ensures FilledTo(bits, width, height, font[..], i * height * width + y * width + width)
  {
    hide FilledTo, ExpandedDot;
    var row := bits[FontRow(bits, height, i, y)];
    var x := 0;
    while x < 8
      invariant x <= 8
      invariant FilledTo(bits, width, height, font[..], i * height * width + y * width + x)
    {
      ghost var before, n := font[..], i * height * width + y * width + x;
      RowDot(bits, width, height, i, y, x);
      font[i * height * width + y * width + x] := row / Mask(x) % 2 == 1;
      NextDot(bits, width, height, before, n);
      assert font[..] == before[n := ExpandedDot(bits, width, height, n)];
      x := x + 1;
    }
    while x < width
      invariant 8 <= x <= width
      invariant FilledTo(bits, width, height, font[..], i * height * width + y * width + x)
    {
      ghost var before, n := font[..], i * height * width + y * width + x;
      RowDot(bits, width, height, i, y, x);
      font[i * height * width + y * width + x] := if i >= 0xc0 && i <= 0xdf then row % 2 == 1 else false;
      NextDot(bits, width, height, before, n);
      assert font[..] == before[n := ExpandedDot(bits, width, height, n)];
      x := x + 1;
    }
  }

  function FontRow(bits: seq<byte>, height: nat, i: nat, y: nat): (r: nat)
    requires i < GLYPHS && y < height && |bits| >= GLYPHS * height
    ensures r < |bits|
  {
    FlatIndex(y, i, GLYPHS, height);
    i * height + y
  }

  ghost predicate FilledTo(bits: seq<byte>, width: nat, height: nat, font: seq<bool>, n: int)
    requires width >= 1 && height >= 1
  {
    n <= |font| && forall j :: 0 <= j < n ==> j / width < |bits| && font[j] == ExpandedDot(bits, width, height, j)
  }

  lemma NextDot(bits: seq<byte>, width: nat, height: nat, font: seq<bool>, n: nat)
    requires width >= 1 && height >= 1 && n < |font| && n / width < |bits| && FilledTo(bits, width, height, font, n)
    ensures FilledTo(bits, width, height, font[n := ExpandedDot(bits, width, height, n)], n + 1)
  {
  }

  /** The dot that belongs in column `x` of a row. */
  lemma RowDot(bits: seq<byte>, width: nat, height: nat, i: nat, y: nat, x: nat)
    requires i < GLYPHS && y < height && x < width && |bits| >= GLYPHS * height
    ensures var n, row := i * height * width + y * width + x, bits[FontRow(bits, height, i, y)];
      && 0 <= n < GLYPHS * height * width && n / width < |bits|
      && ExpandedDot(bits, width, height, n) ==
        if x < 8 then row / Mask(x) % 2 == 1 else if i >= 0xc0 && i <= 0xdf then row % 2 == 1 else false
  {
    DotPosition(bits, width, height, i, y, x, GLYPHS * height * width);
  }

  lemma DotPosition(bits: seq<byte>, width: nat, height: nat, i: nat, y: nat, x: nat, length: nat)
    requires i < GLYPHS && y < height && x < width && |bits| >= GLYPHS * height && length == GLYPHS * height * width
    ensures var j := i * height * width + y * width + x;
      && 0 <= j < length
      && j / width == FontRow(bits, height, i, y) && j % width == x && j / width / height == i
  {
    FlatIndex(y, i, GLYPHS, height);
    FlatIndex(x, i * height + y, GLYPHS * height, width);
    assert (i * height + y) * width + x == i * height * width + y * width + x;
  }

  /** So dot `x` of row `y` of glyph `i` is bit 7 - x of the row's byte, or for the columns past the eighth its last
      bit in the line-drawing glyphs and blank in the others. */
  lemma FontDotIs(bits: seq<byte>, width: nat, height: nat, i: nat, y: nat, x: nat)
    requires width >= 8 && height >= 1 && |bits| >= GLYPHS * height && i < 256 && y < height && x < width
    ensures 0 <= i * height + y < |bits|
      && 0 <= i * height * width + y * width + x < |ExpandedFont(bits, width, height)|
      && (ExpandedFont(bits, width, height)[i * height * width + y * width + x] <==>
        if x < 8 then bits[i * height + y] / Pow2(7 - x) % 2 == 1
        else 0xc0 <= i <= 0xdf && bits[i * height + y] % 2 == 1)
  {
    hide FontDot, ExpandedDot;
    RowDot(bits, width, height, i, y, x);
    if x < 8 {
      MaskIsPower(x);
    }
  }

  lemma MaskIsPower(x: nat)
    requires x < 8
    ensures Mask(x) == Pow2(7 - x)
  {
    assert Pow2(0) == 1 && Pow2(1) == 2 && Pow2(2) == 4 && Pow2(3) == 8;
    assert Pow2(4) == 16 && Pow2(5) == 32 && Pow2(6) == 64 && Pow2(7) == 128;
  }

  /** The text area fits the framebuffer for every size, margin and scale: as many whole glyphs as the
      inside of the margins holds, centred. */
  lemma TextAreaFits(size: nat, margin: nat, glyph: nat)
    requires glyph >= 1 && size >= margin * 2
    ensures var count, offset := (size - margin * 2) / glyph, margin + (size - margin * 2) % glyph / 2;
      && margin <= offset
      && offset + count * glyph <= size - margin
      && 0 <= size - margin - (offset + count * glyph) - (offset - margin) <= 1
      && size - margin * 2 < (count + 1) * glyph
  {
    var inside := size - margin * 2;
    FlatPlace(inside, glyph, inside % glyph, inside / glyph);
    NextMultiple(inside / glyph, glyph);
  }

  lemma TextAreaCells(rows: nat, cols: nat, glyphWidth: nat, glyphHeight: nat, width: nat, height: nat)
    requires glyphWidth >= 1 && glyphHeight >= 1
    requires cols * glyphWidth <= width && rows * glyphHeight <= height
    ensures rows * cols <= width * height
  {
    MulMonotone(1, glyphWidth, cols);
    MulMonotone(1, glyphHeight, rows);
    MulMonotone(rows, height, cols);
    MulMonotone(cols, width, height);
    assert rows * cols <= height * cols == cols * height <= width * height;
  }

  /** The display that `flanterm_fb_init` lays out. */
  function MakeDisplay(width: nat, height: nat, stride: nat, fontWidth: nat, fontHeight: nat, scaleX: nat, scaleY: nat,
    margin: nat,
                       font: seq<bool>, canvas: seq<u32>): Display
    requires width <= stride && width * height * 4 < U64_LIMIT
    requires fontWidth >= 1 && 1 <= fontHeight <= 256 && scaleX >= 1 && scaleY >= 1
    requires margin * 2 + fontWidth * scaleX <= width && margin * 2 + fontHeight * scaleY <= height
    requires |font| == GLYPHS * fontHeight * fontWidth && |canvas| == width * height
  {
    LayoutOk(width, height, fontWidth, fontHeight, scaleX, scaleY, margin);
    var glyphWidth, glyphHeight := fontWidth * scaleX, fontHeight * scaleY;
    RawDisplay(
      (height - margin * 2) / glyphHeight, (width - margin * 2) / glyphWidth,
      fontWidth, fontHeight, scaleX, scaleY, glyphWidth, glyphHeight,
      margin + (width - margin * 2) % glyphWidth / 2, margin + (height - margin * 2) % glyphHeight / 2,
      width, height, stride, font, canvas)
  }

  /** What is laid out: glyphs of the scaled size, as many as fit inside the margins, centred to within a pixel. */
  lemma DisplayLaidOut(width: nat, height: nat, stride: nat, fontWidth: nat, fontHeight: nat, scaleX: nat, scaleY: nat,
    margin: nat, font: seq<bool>, canvas: seq<u32>)
    requires width <= stride && width * height * 4 < U64_LIMIT
    requires fontWidth >= 1 && 1 <= fontHeight <= 256 && scaleX >= 1 && scaleY >= 1
    requires margin * 2 + fontWidth * scaleX <= width && margin * 2 + fontHeight * scaleY <= height
    requires |font| == GLYPHS * fontHeight * fontWidth && |canvas| == width * height
    ensures var d := MakeDisplay(width, height, stride, fontWidth, fontHeight, scaleX, scaleY, margin, font, canvas);
      && d.glyphWidth == fontWidth * scaleX && d.glyphHeight == fontHeight * scaleY
      && d.fontWidth == fontWidth && d.fontHeight == fontHeight && d.scaleX == scaleX && d.scaleY == scaleY
      && d.width == width && d.height == height && d.stride == stride && d.font == font && d.canvas == canvas
      && Centred(width, margin, d.glyphWidth, d.cols, d.offsetX)
      && Centred(height, margin, d.glyphHeight, d.rows, d.offsetY)
  {
    MulMonotone(1, fontWidth, scaleX);
    MulMonotone(1, fontHeight, scaleY);
    TextAreaFits(width, margin, fontWidth * scaleX);
    TextAreaFits(height, margin, fontHeight * scaleY);
  }

  /** `count` glyphs from `offset` on lie inside the margins, one more would not fit, and what is left over is shared
      evenly, an odd pixel going behind. */
  predicate Centred(size: nat, margin: nat, glyph: nat, count: nat, offset: nat) {
    && size - margin * 2 < (count + 1) * glyph
    && (size - margin - (offset + count * glyph) == offset - margin
        || size - margin - (offset + count * glyph) == offset - margin + 1)
    && margin <= offset
  }

  lemma LayoutOk(width: nat, height: nat, fontWidth: nat, fontHeight: nat, scaleX: nat, scaleY: nat, margin: nat)
    requires width * height * 4 < U64_LIMIT
    requires fontWidth >= 1 && 1 <= fontHeight <= 256 && scaleX >= 1 && scaleY >= 1
    requires margin * 2 + fontWidth * scaleX <= width && margin * 2 + fontHeight * scaleY <= height
    ensures fontWidth * scaleX >= 1 && fontHeight * scaleY >= 1
    ensures var cols, rows := (width - margin * 2) / (fontWidth * scaleX),
      (height - margin * 2) / (fontHeight * scaleY);
      var x, y := margin + (width - margin * 2) % (fontWidth * scaleX) / 2,
        margin + (height - margin * 2) % (fontHeight * scaleY) / 2;
      && 1 <= cols < U64_LIMIT && 1 <= rows < U64_LIMIT && rows * cols < U64_LIMIT - 1
      && x >= margin && x + cols * (fontWidth * scaleX) <= width - margin
      && y >= margin && y + rows * (fontHeight * scaleY) <= height - margin
  {
    MulMonotone(1, fontWidth, scaleX);
    MulMonotone(1, fontHeight, scaleY);
    AtLeastOne(width - margin * 2, fontWidth * scaleX);
    AtLeastOne(height - margin * 2, fontHeight * scaleY);
    TextAreaFits(width, margin, fontWidth * scaleX);
    TextAreaFits(height, margin, fontHeight * scaleY);
    TextAreaCells((height - margin * 2) / (fontHeight * scaleY), (width - margin * 2) / (fontWidth * scaleX),
      fontWidth * scaleX, fontHeight * scaleY, width, height);
    MulMonotone(1, (height - margin * 2) / (fontHeight * scaleY), (width - margin * 2) / (fontWidth * scaleX));
    MulMonotone(1, (width - margin * 2) / (fontWidth * scaleX), (height - margin * 2) / (fontHeight * scaleY));
  }

  lemma AtLeastOne(n: nat, d: nat)
    requires 1 <= d <= n
    ensures n / d >= 1
  {
    FlatPlace(n, d, n % d, n / d);
    if n / d <= 0 {
      MulMonotone(n / d, 0, d);
    }
  }
}
