/** The geometry of the text area inside the framebuffer, and what one cell looks like in pixels. */
module Pixels {
  import opened Basics
  import opened Screens

  const GLYPHS := 256

  datatype RawDisplay = RawDisplay(
    rows: nat, cols: nat,
    fontWidth: nat, fontHeight: nat,
    scaleX: nat, scaleY: nat,
    glyphWidth: nat, glyphHeight: nat,
    offsetX: nat, offsetY: nat,
    width: nat, height: nat,
    stride: nat,               // pitch / 4: framebuffer pixels per line
    font: seq<bool>,
    canvas: seq<u32>)

  predicate DisplayOk(d: RawDisplay) {
    && 1 <= d.rows < U64_LIMIT && 1 <= d.cols < U64_LIMIT
    && d.rows * d.cols < U64_LIMIT - 1
    && d.fontWidth >= 1 && 1 <= d.fontHeight <= 256
    && d.scaleX >= 1 && d.scaleY >= 1
    && d.glyphWidth == d.fontWidth * d.scaleX && d.glyphWidth >= 1
    && d.glyphHeight == d.fontHeight * d.scaleY && d.glyphHeight >= 1
    && d.offsetX + d.cols * d.glyphWidth <= d.width <= d.stride
    && d.offsetY + d.rows * d.glyphHeight <= d.height
    && |d.font| == GLYPHS * d.fontHeight * d.fontWidth
    && |d.canvas| == d.width * d.height
  }

  /** A display as `flanterm_fb_init` leaves it. */
  type Display = d: RawDisplay | DisplayOk(d)
    witness RawDisplay(1, 1, 1, 1, 1, 1, 1, 1, 0, 0, 1, 1, 1, seq(256, _ => false), [0])

  /** The framebuffer holds `height` lines of `stride` pixels. */
  function FbSize(d: Display): nat {
    d.height * d.stride
  }

  predicate InText(d: Display, k: nat) {
    && d.offsetX <= k % d.stride < d.offsetX + d.cols * d.glyphWidth
    && d.offsetY <= k / d.stride < d.offsetY + d.rows * d.glyphHeight
  }

  /** The cell whose rectangle contains framebuffer pixel `k`, or -1 outside the text area. */
  function Owner(d: Display, k: nat): int {
    if InText(d, k) then
      (k / d.stride - d.offsetY) / d.glyphHeight * d.cols + (k % d.stride - d.offsetX) / d.glyphWidth
    else -1
  }

  /** Coordinates of a pixel of the text area inside its own cell. */
  function LocalX(d: Display, k: nat): int {
    (k % d.stride - d.offsetX) % d.glyphWidth
  }

  function LocalY(d: Display, k: nat): int {
    (k / d.stride - d.offsetY) % d.glyphHeight
  }

  function FontIndex(d: Display, c: byte, fx: nat, fy: nat): nat {
    c * d.fontHeight * d.fontWidth + fy * d.fontWidth + fx
  }

  /** The `j`-th of the `scale` pixel columns that font column `fx` is drawn on. */
  function ScaledColumn(scale: nat, fx: nat, j: nat): nat {
    scale * fx + j
  }

  /** Does the glyph cover the scaled pixel (gx, gy)? */
  predicate FontBit(d: Display, c: byte, gx: nat, gy: nat)
    requires gx < d.glyphWidth && gy < d.glyphHeight
  {
    Unscaled(d, gx, gy);
    FontIndexInRange(d, c, gx / d.scaleX, gy / d.scaleY);
    d.font[FontIndex(d, c, gx / d.scaleX, gy / d.scaleY)]
  }

  lemma Unscaled(d: Display, gx: nat, gy: nat)
    requires gx < d.glyphWidth && gy < d.glyphHeight
    ensures gx / d.scaleX < d.fontWidth && gy / d.scaleY < d.fontHeight
  {
    FlatCell(gx, d.fontWidth, d.scaleX);
    FlatCell(gy, d.fontHeight, d.scaleY);
  }

  lemma FontIndexInRange(d: Display, c: byte, fx: nat, fy: nat)
    requires fx < d.fontWidth && fy < d.fontHeight
    ensures FontIndex(d, c, fx, fy) < |d.font|
  {
    FlatIndex(fx, fy, d.fontHeight, d.fontWidth);
    FlatIndex(fy * d.fontWidth + fx, c, GLYPHS, d.fontHeight * d.fontWidth);
    Associate(c, d.fontHeight, d.fontWidth);
    Associate(GLYPHS, d.fontHeight, d.fontWidth);
  }

  lemma Associate(a: int, b: int, c: int)
    ensures a * b * c == a * (b * c)
  {
  }

  /** The framebuffer position of local pixel (gx, gy) of the cell in column x, row y. */
  function PixelAt(d: Display, x: nat, y: nat, gx: nat, gy: nat): nat {
    ScreenY(d, y, gy) * d.stride + ScreenX(d, x, gx)
  }

  function ScreenX(d: Display, x: nat, gx: nat): nat {
    d.offsetX + x * d.glyphWidth + gx
  }

  function ScreenY(d: Display, y: nat, gy: nat): nat {
    d.offsetY + y * d.glyphHeight + gy
  }

  /** Position, owner and local coordinates of a pixel determine each other. */
  lemma PixelPlace(d: Display, x: nat, y: nat, gx: nat, gy: nat)
    requires x < d.cols && y < d.rows && gx < d.glyphWidth && gy < d.glyphHeight
    ensures 0 <= PixelAt(d, x, y, gx, gy) < FbSize(d)
    ensures var k := PixelAt(d, x, y, gx, gy);
      && Owner(d, k) == y * d.cols + x
      && LocalX(d, k) == gx && LocalY(d, k) == gy
      && InText(d, k)
      && k % d.stride == ScreenX(d, x, gx) && k / d.stride == ScreenY(d, y, gy)
  {
    FlatIndex(gx, x, d.cols, d.glyphWidth);
    FlatIndex(gy, y, d.rows, d.glyphHeight);
    FlatIndex(ScreenX(d, x, gx), ScreenY(d, y, gy), d.height, d.stride);
  }

  lemma PixelUnique(d: Display, x: nat, y: nat, k: nat)
    requires x < d.cols && y < d.rows
    requires Owner(d, k) == y * d.cols + x
    ensures 0 <= LocalX(d, k) < d.glyphWidth && 0 <= LocalY(d, k) < d.glyphHeight
    ensures k == PixelAt(d, x, y, LocalX(d, k), LocalY(d, k))
  {
    OwnerInRange(d, k);
    var px, py := k % d.stride - d.offsetX, k / d.stride - d.offsetY;
    FlatUnique(x, y, px / d.glyphWidth, py / d.glyphHeight, d.cols);
    LocalPlace(d, k);
  }

  lemma LocalPlace(d: Display, k: nat)
    requires InText(d, k)
    ensures var x, y := (k % d.stride - d.offsetX) / d.glyphWidth, (k / d.stride - d.offsetY) / d.glyphHeight;
      0 <= x < d.cols && 0 <= y < d.rows
      && 0 <= LocalX(d, k) < d.glyphWidth && 0 <= LocalY(d, k) < d.glyphHeight
      && k == PixelAt(d, x, y, LocalX(d, k), LocalY(d, k))
  {
    var px, py := k % d.stride - d.offsetX, k / d.stride - d.offsetY;
    OwnerInRange(d, k);
    var x, y := px / d.glyphWidth, py / d.glyphHeight;
    FlatPlace(px, d.glyphWidth, LocalX(d, k), x);
    FlatPlace(py, d.glyphHeight, LocalY(d, k), y);
    FlatPlace(k, d.stride, ScreenX(d, x, LocalX(d, k)), ScreenY(d, y, LocalY(d, k)));
  }

  lemma OwnerInRange(d: Display, k: nat)
    requires InText(d, k)
    ensures 0 <= Owner(d, k) < d.rows * d.cols
    ensures 0 <= LocalX(d, k) < d.glyphWidth && 0 <= LocalY(d, k) < d.glyphHeight
    ensures 0 <= (k % d.stride - d.offsetX) / d.glyphWidth < d.cols
    ensures 0 <= (k / d.stride - d.offsetY) / d.glyphHeight < d.rows
  {
    var px, py := k % d.stride - d.offsetX, k / d.stride - d.offsetY;
    FlatCell(px, d.cols, d.glyphWidth);
    FlatCell(py, d.rows, d.glyphHeight);
    FlatIndex(px / d.glyphWidth, py / d.glyphHeight, d.rows, d.cols);
  }

  /** The rectangle of a cell, in screen coordinates. */
  predicate InRectangle(d: Display, x: nat, y: nat, px: nat, py: nat) {
    && d.offsetX + x * d.glyphWidth <= px < d.offsetX + (x + 1) * d.glyphWidth
    && d.offsetY + y * d.glyphHeight <= py < d.offsetY + (y + 1) * d.glyphHeight
  }

  /** The pixels a cell owns are exactly those of its rectangle; since every pixel has one owner
      at most, rectangles of different cells are disjoint. */
  lemma OwnerIsRectangle(d: Display, x: nat, y: nat, k: nat)
    requires x < d.cols && y < d.rows && k < FbSize(d)
    ensures Owner(d, k) == y * d.cols + x <==> InRectangle(d, x, y, k % d.stride, k / d.stride)
  {
    if Owner(d, k) == y * d.cols + x {
      OwnedInRectangle(d, x, y, k);
    }
    if InRectangle(d, x, y, k % d.stride, k / d.stride) {
      RectangleOwned(d, x, y, k);
    }
  }

  lemma OwnedInRectangle(d: Display, x: nat, y: nat, k: nat)
    requires x < d.cols && y < d.rows && k < FbSize(d)
    requires Owner(d, k) == y * d.cols + x
    ensures InRectangle(d, x, y, k % d.stride, k / d.stride)
  {
    PixelUnique(d, x, y, k);
    PixelPlace(d, x, y, LocalX(d, k), LocalY(d, k));
    NextMultiple(x, d.glyphWidth);
    NextMultiple(y, d.glyphHeight);
  }

  lemma RectangleOwned(d: Display, x: nat, y: nat, k: nat)
    requires x < d.cols && y < d.rows && k < FbSize(d)
    requires InRectangle(d, x, y, k % d.stride, k / d.stride)
    ensures Owner(d, k) == y * d.cols + x
  {
    NextMultiple(x, d.glyphWidth);
    NextMultiple(y, d.glyphHeight);
    var gx, gy := k % d.stride - d.offsetX - x * d.glyphWidth, k / d.stride - d.offsetY - y * d.glyphHeight;
    PixelPlace(d, x, y, gx, gy);
    SamePixel(d.stride, k, PixelAt(d, x, y, gx, gy));
  }

  lemma SamePixel(stride: nat, j: int, k: int)
    requires stride >= 1 && j / stride == k / stride && j % stride == k % stride
    ensures j == k
  {
  }

  lemma NextMultiple(a: int, b: int)
    ensures (a + 1) * b == a * b + b
  {
  }

  /** The canvas pixel behind framebuffer pixel `k` of the text area. */
  function Behind(d: Display, k: nat): u32
    requires InText(d, k) && k < FbSize(d)
  {
    BehindInRange(d, k % d.stride, k / d.stride);
    d.canvas[CanvasIndex(d, k % d.stride, k / d.stride)]
  }

  function CanvasIndex(d: Display, px: nat, py: nat): nat {
    py * d.width + px
  }

  lemma BehindInRange(d: Display, px: nat, py: nat)
    requires px < d.width && py < d.height
    ensures CanvasIndex(d, px, py) < |d.canvas|
  {
    FlatIndex(px, py, d.height, d.width);
    assert d.width * d.height == d.height * d.width;
  }

  /** The colour that a cell gives to one of its pixels. */
  function Ink(d: Display, cell: Cell, k: nat): u32
    requires InText(d, k) && k < FbSize(d)
  {
    OwnerInRange(d, k);
    var colour := if FontBit(d, cell.c, LocalX(d, k), LocalY(d, k)) then cell.fg else cell.bg;
    if colour == TRANSPARENT then Behind(d, k) else colour
  }

  /** Framebuffer `fb` shows `cell` at grid position `i`. */
  ghost predicate Shows(d: Display, fb: seq<u32>, i: nat, cell: Cell)
    requires |fb| == FbSize(d)
  {
    forall k :: 0 <= k < |fb| && Owner(d, k) == i ==> fb[k] == Ink(d, cell, k)
  }

  /** The framebuffer after `plot_char`: every pixel of the cell is painted and no other. */
  ghost function Painted(d: Display, fb: seq<u32>, i: nat, cell: Cell): (r: seq<u32>)
    requires |fb| == FbSize(d)
    ensures |r| == |fb|
  {
    seq(|fb|, k requires 0 <= k < |fb| => if Owner(d, k) == i then Ink(d, cell, k) else fb[k])
  }

  /** Does changing glyph `prev` into glyph `c` flip pixel `k`? */
  ghost predicate Flips(d: Display, prev: byte, c: byte, k: nat)
    requires InText(d, k)
  {
    OwnerInRange(d, k);
    FontBit(d, prev, LocalX(d, k), LocalY(d, k)) != FontBit(d, c, LocalX(d, k), LocalY(d, k))
  }

  /** The framebuffer after `plot_char_fast`: only the pixels on which the two glyphs differ. */
  ghost function PaintedFast(d: Display, fb: seq<u32>, i: nat, prev: Cell, cell: Cell): (r: seq<u32>)
    requires |fb| == FbSize(d)
    ensures |r| == |fb|
  {
    seq(|fb|, k requires 0 <= k < |fb| =>
      if Owner(d, k) == i && Flips(d, prev.c, cell.c, k) then Ink(d, cell, k) else fb[k])
  }

  /** The diff painter equals the full painter exactly when every pixel it skips already has the
      colour of the new cell. */
  lemma FastPainterExact(d: Display, fb: seq<u32>, i: nat, prev: Cell, cell: Cell)
    requires |fb| == FbSize(d)
    ensures PaintedFast(d, fb, i, prev, cell) == Painted(d, fb, i, cell)
      <==> forall k :: 0 <= k < |fb| && Owner(d, k) == i && !Flips(d, prev.c, cell.c, k) ==> fb[k] == Ink(d, cell, k)
  {
    var fast, slow := PaintedFast(d, fb, i, prev, cell), Painted(d, fb, i, cell);
    if fast == slow {
      forall k | 0 <= k < |fb| && Owner(d, k) == i && !Flips(d, prev.c, cell.c, k)
        ensures fb[k] == Ink(d, cell, k)
      {
        assert fast[k] == slow[k];
      }
    }
  }

  /** The premise the flush relies on: the pixels show `prev` and the colours do not change. */
  lemma FastPainterRefines(d: Display, fb: seq<u32>, i: nat, prev: Cell, cell: Cell)
    requires |fb| == FbSize(d)
    requires Shows(d, fb, i, prev) && prev.fg == cell.fg && prev.bg == cell.bg
    ensures PaintedFast(d, fb, i, prev, cell) == Painted(d, fb, i, cell)
  {
    FastPainterExact(d, fb, i, prev, cell);
  }
}
