/** The double-buffered framebuffer backend (kernel/flanterm/backends/fb.c). */
module Framebuffers {
  import opened Basics
  import opened Screens
  import opened Pixels
  import opened GlyphPixels
  import opened FlatScreens
  import opened FontExpansion

  /** Every cell except the one under the old cursor is displayed as the grid records it; the cell
      under the old cursor may display anything. */
  ghost predicate Current(d: Display, fb: seq<u32>, grid: seq<Cell>, oldX: nat, oldY: nat)
    requires |fb| == FbSize(d)
  {
    && |grid| == d.rows * d.cols
    && forall i :: 0 <= i < |grid| ==> CellCurrent(d, fb, grid, oldX, oldY, i)
  }

  ghost predicate CellCurrent(d: Display, fb: seq<u32>, grid: seq<Cell>, oldX: nat, oldY: nat, i: nat)
    requires |fb| == FbSize(d) && i < |grid|
  {
    UnderCursor(d, oldX, oldY, i) || Shows(d, fb, i, grid[i])
  }

  predicate UnderCursor(d: Display, x: nat, y: nat, i: nat) {
    x < d.cols && y < d.rows && i == Index(d.cols, x, y)
  }

  /** Painting has reached local position (gx, gy) of cell `i`: pixels before it hold their final
      colours `target`, the others are as they were. */
  ghost predicate Progress(d: Display, before: seq<u32>, target: seq<u32>, fb: seq<u32>, i: nat, gx: nat, gy: nat) {
    && |before| == |target| == |fb| == FbSize(d)
    && forall k :: 0 <= k < |fb| ==> fb[k] == if Reached(d, i, gx, gy, k) then target[k] else before[k]
  }

  ghost predicate Reached(d: Display, i: nat, gx: nat, gy: nat, k: nat) {
    Owner(d, k) == i && (LocalY(d, k) < gy || (LocalY(d, k) == gy && LocalX(d, k) < gx))
  }

  /** Painting one more pixel. */
  lemma ProgressPixel(d: Display, before: seq<u32>, target: seq<u32>, fb: seq<u32>, x: nat, y: nat, gx: nat, gy: nat)
    requires x < d.cols && y < d.rows && gx < d.glyphWidth && gy < d.glyphHeight
    requires Progress(d, before, target, fb, Index(d.cols, x, y), gx, gy)
    ensures 0 <= PixelAt(d, x, y, gx, gy) < |fb|
    ensures var k := PixelAt(d, x, y, gx, gy);
      Progress(d, before, target, fb[k := target[k]], Index(d.cols, x, y), gx + 1, gy)
  {
    var i, p := Index(d.cols, x, y), PixelAt(d, x, y, gx, gy);
    PixelPlace(d, x, y, gx, gy);
    forall k | 0 <= k < |fb| && k != p
      ensures Reached(d, i, gx + 1, gy, k) == Reached(d, i, gx, gy, k)
    {
      if Owner(d, k) == i {
        PixelUnique(d, x, y, k);
      }
    }
  }

  /** Columns on which the target does not differ from the old contents may be skipped. */
  lemma ProgressSkip(d: Display, before: seq<u32>, target: seq<u32>, fb: seq<u32>, i: nat, gx: nat, gx': nat, gy: nat)
    requires gx <= gx' && Progress(d, before, target, fb, i, gx, gy)
    requires forall k :: 0 <= k < |fb| && Owner(d, k) == i && LocalY(d, k) == gy && gx <= LocalX(d, k) < gx' ==>
      target[k] == before[k]
    ensures Progress(d, before, target, fb, i, gx', gy)
  {
  }

  lemma ProgressLine(d: Display, before: seq<u32>, target: seq<u32>, fb: seq<u32>, x: nat, y: nat, gy: nat)
    requires x < d.cols && y < d.rows
    requires Progress(d, before, target, fb, Index(d.cols, x, y), d.glyphWidth, gy)
    ensures Progress(d, before, target, fb, Index(d.cols, x, y), 0, gy + 1)
  {
    var i := Index(d.cols, x, y);
    forall k | 0 <= k < |fb| ensures Reached(d, i, d.glyphWidth, gy, k) == Reached(d, i, 0, gy + 1, k) {
      if Owner(d, k) == i {
        PixelUnique(d, x, y, k);
      }
    }
  }

  lemma ProgressDone(d: Display, before: seq<u32>, target: seq<u32>, fb: seq<u32>, x: nat, y: nat)
    requires x < d.cols && y < d.rows
    requires Progress(d, before, target, fb, Index(d.cols, x, y), 0, d.glyphHeight)
    requires forall k :: 0 <= k < |fb| && Owner(d, k) != Index(d.cols, x, y) ==> target[k] == before[k]
    ensures fb == target
  {
    forall k | 0 <= k < |fb| ensures fb[k] == target[k] {
      if Owner(d, k) == Index(d.cols, x, y) {
        PixelUnique(d, x, y, k);
      }
    }
  }

  /** Column `fx`, sub-column `j` of line `gy` of a glyph, with the index expressions of the source. */
  lemma PainterReads(d: Display, x: nat, y: nat, fx: nat, j: nat, gy: nat)
    requires x < d.cols && y < d.rows && fx < d.fontWidth && j < d.scaleX && gy < d.glyphHeight
    ensures ScaledColumn(d.scaleX, fx, j) < d.glyphWidth
    ensures var gx := ScaledColumn(d.scaleX, fx, j);
      var k := PixelAt(d, x, y, gx, gy);
      && k < FbSize(d) && InText(d, k) && Owner(d, k) == Index(d.cols, x, y)
      && LocalX(d, k) == gx && LocalY(d, k) == gy
      && CanvasIndex(d, ScreenX(d, x, gx), ScreenY(d, y, gy)) < |d.canvas|
      && d.canvas[CanvasIndex(d, ScreenX(d, x, gx), ScreenY(d, y, gy))] == Behind(d, k)
  {
    FlatIndex(j, fx, d.fontWidth, d.scaleX);
    var gx := d.scaleX * fx + j;
    PixelPlace(d, x, y, gx, gy);
    BehindInRange(d, ScreenX(d, x, gx), ScreenY(d, y, gy));
  }

  lemma NextColumn(d: Display, fx: nat)
    ensures d.scaleX * (fx + 1) == d.scaleX * fx + d.scaleX
    ensures d.scaleX * fx == fx * d.scaleX
  {
  }

  lemma GlyphReads(d: Display, c: byte, fx: nat, j: nat, gy: nat)
    requires fx < d.fontWidth && j < d.scaleX && gy < d.glyphHeight
    ensures ScaledColumn(d.scaleX, fx, j) < d.glyphWidth
    ensures FontIndex(d, c, fx, gy / d.scaleY % 256) < |d.font|
    ensures d.font[FontIndex(d, c, fx, gy / d.scaleY % 256)] == FontBit(d, c, ScaledColumn(d.scaleX, fx, j), gy)
  {
    FlatIndex(j, fx, d.fontWidth, d.scaleX);
    FlatCell(gy, d.fontHeight, d.scaleY);
    FontIndexInRange(d, c, fx, gy / d.scaleY);
  }

  /** The colour `plot_char` stores for a pixel of the cell, given the glyph bit it looked up. */
  function Dot(d: Display, c: Cell, draw: bool, x: nat, y: nat, gx: nat, gy: nat): u32
    requires CanvasIndex(d, ScreenX(d, x, gx), ScreenY(d, y, gy)) < |d.canvas|
  {
    var behind := d.canvas[CanvasIndex(d, ScreenX(d, x, gx), ScreenY(d, y, gy))];
    var bg := if c.bg == TRANSPARENT then behind else c.bg;
    var fg := if c.fg == TRANSPARENT then behind else c.fg;
    if draw then fg else bg
  }

  lemma DotIsInk(d: Display, c: Cell, x: nat, y: nat, fx: nat, j: nat, gy: nat)
    requires x < d.cols && y < d.rows && fx < d.fontWidth && j < d.scaleX && gy < d.glyphHeight
    ensures FontIndex(d, c.c, fx, gy / d.scaleY % 256) < |d.font|
    ensures ScaledColumn(d.scaleX, fx, j) < d.glyphWidth
    ensures var gx := ScaledColumn(d.scaleX, fx, j);
      var k := PixelAt(d, x, y, gx, gy);
      && k < FbSize(d) && InText(d, k) && Owner(d, k) == Index(d.cols, x, y)
      && LocalX(d, k) == gx && LocalY(d, k) == gy
      && CanvasIndex(d, ScreenX(d, x, gx), ScreenY(d, y, gy)) < |d.canvas|
      && Dot(d, c, d.font[FontIndex(d, c.c, fx, gy / d.scaleY % 256)], x, y, gx, gy) == Ink(d, c, k)
  {
    PainterReads(d, x, y, fx, j, gy);
    GlyphReads(d, c.c, fx, j, gy);
  }

  /** A font column on which the two glyphs agree is not changed by the diff painter. */
  lemma SkippedColumn(d: Display, before: seq<u32>, i: nat, prev: Cell, c: Cell, fx: nat, gy: nat)
    requires |before| == FbSize(d) && fx < d.fontWidth && gy < d.glyphHeight
    requires FontIndex(d, prev.c, fx, gy / d.scaleY % 256) < |d.font|
      && FontIndex(d, c.c, fx, gy / d.scaleY % 256) < |d.font|
    requires d.font[FontIndex(d, prev.c, fx, gy / d.scaleY % 256)] == d.font[FontIndex(d, c.c, fx, gy / d.scaleY % 256)]
    ensures forall k ::
      0 <= k < |before| && Owner(d, k) == i && LocalY(d, k) == gy
      && d.scaleX * fx <= LocalX(d, k) < d.scaleX * (fx + 1) ==>
      PaintedFast(d, before, i, prev, c)[k] == before[k]
  {
    forall k | 0 <= k < |before| && Owner(d, k) == i && LocalY(d, k) == gy
      && d.scaleX * fx <= LocalX(d, k) < d.scaleX * (fx + 1)
      ensures PaintedFast(d, before, i, prev, c)[k] == before[k]
    {
      OwnerInRange(d, k);
      NextColumn(d, fx);
      var j := LocalX(d, k) - d.scaleX * fx;
      GlyphReads(d, prev.c, fx, j, gy);
      GlyphReads(d, c.c, fx, j, gy);
    }
  }

  lemma FlippedDot(d: Display, prev: byte, c: byte, x: nat, y: nat, fx: nat, j: nat, gy: nat)
    requires x < d.cols && y < d.rows && fx < d.fontWidth && j < d.scaleX && gy < d.glyphHeight
    requires FontIndex(d, prev, fx, gy / d.scaleY % 256) < |d.font|
      && FontIndex(d, c, fx, gy / d.scaleY % 256) < |d.font|
    requires d.font[FontIndex(d, prev, fx, gy / d.scaleY % 256)] != d.font[FontIndex(d, c, fx, gy / d.scaleY % 256)]
    ensures ScaledColumn(d.scaleX, fx, j) < d.glyphWidth
    ensures InText(d, PixelAt(d, x, y, ScaledColumn(d.scaleX, fx, j), gy))
    ensures Flips(d, prev, c, PixelAt(d, x, y, ScaledColumn(d.scaleX, fx, j), gy))
  {
    PainterReads(d, x, y, fx, j, gy);
    GlyphReads(d, prev, fx, j, gy);
    GlyphReads(d, c, fx, j, gy);
  }

  /** What a cell displays once the screen is flushed: the cursor swaps foreground and background. */
  function Displayed(d: Display, cells: seq<Cell>, x: nat, y: nat, cursor: bool, i: nat): Cell
    requires i < |cells|
  {
    if cursor && UnderCursor(d, x, y, i) then Swapped(cells[i]) else cells[i]
  }

  /** The whole framebuffer for a logical screen: pixels outside the text area keep `backdrop`. */
  ghost function Frame(d: Display, backdrop: seq<u32>, cells: seq<Cell>, x: nat, y: nat, cursor: bool): (r: seq<u32>)
    requires |backdrop| == FbSize(d) && |cells| == d.rows * d.cols
    ensures |r| == |backdrop|
  {
    seq(|backdrop|, k requires 0 <= k < |backdrop| =>
      if InText(d, k) then (OwnerInRange(d, k); Ink(d, Displayed(d, cells, x, y, cursor, Owner(d, k)), k))
      else backdrop[k])
  }

  /** The same in terms of rows and columns: the cell whose rectangle contains pixel `k` is found from
      the pixel's screen coordinates. */
  ghost function Render(d: Display, backdrop: seq<u32>, s: Screen): (r: seq<u32>)
    requires |backdrop| == FbSize(d) && s.rows == d.rows && s.cols == d.cols
    ensures |r| == |backdrop|
  {
    seq(|backdrop|, k requires 0 <= k < |backdrop| => if InText(d, k) then ScreenPixel(d, s, k) else backdrop[k])
  }

  ghost function ScreenPixel(d: Display, s: Screen, k: nat): u32
    requires s.rows == d.rows && s.cols == d.cols && InText(d, k) && k < FbSize(d)
  {
    OwnerInRange(d, k);
    var x, y := (k % d.stride - d.offsetX) / d.glyphWidth, (k / d.stride - d.offsetY) / d.glyphHeight;
    var cell := s.lines[y][x];
    Ink(d, if s.cursorEnabled && s.cursorX == x && s.cursorY == y then Swapped(cell) else cell, k)
  }

  /** The painted cell shows its glyph. */
  lemma PaintedGlyph(d: Display, fb: seq<u32>, c: Cell, x: nat, y: nat)
    requires |fb| == FbSize(d) && x < d.cols && y < d.rows
    ensures GlyphShown(d, Painted(d, fb, Index(d.cols, x, y), c), x, y, c.c, c.fg, c.bg)
  {
    hide GlyphShown;
    ShowsGlyph(d, Painted(d, fb, Index(d.cols, x, y), c), c, x, y);
  }

  lemma PaintedFastGlyph(d: Display, fb: seq<u32>, prev: Cell, c: Cell, x: nat, y: nat)
    requires |fb| == FbSize(d) && x < d.cols && y < d.rows
    ensures GlyphShown(d, fb, x, y, prev.c, c.fg, c.bg) ==>
      GlyphShown(d, PaintedFast(d, fb, Index(d.cols, x, y), prev, c), x, y, c.c, c.fg, c.bg)
  {
    hide GlyphShown, PaintedFast, Painted, Shows;
    var was := c.(c := prev.c);
    if GlyphShown(d, fb, x, y, prev.c, c.fg, c.bg) {
      ShowsGlyph(d, fb, was, x, y);
      FastPainterRefines(d, fb, Index(d.cols, x, y), was, c);
      SameGlyph(d, fb, Index(d.cols, x, y), prev, was, c);
      PaintedGlyph(d, fb, c, x, y);
    }
  }

  /** The diff painter does not look at the old colours. */
  lemma SameGlyph(d: Display, fb: seq<u32>, i: nat, prev: Cell, was: Cell, c: Cell)
    requires |fb| == FbSize(d) && prev.c == was.c
    ensures PaintedFast(d, fb, i, prev, c) == PaintedFast(d, fb, i, was, c)
  {
  }

  /** The picture of a screen shows it. */
  lemma RenderShows(d: Display, backdrop: seq<u32>, s: Screen)
    requires |backdrop| == FbSize(d) && s.rows == d.rows && s.cols == d.cols
    ensures ScreenShown(d, Render(d, backdrop, s), s)
  {
    hide GlyphShown;
    var fb := Render(d, backdrop, s);
    forall x, y | 0 <= x < s.cols && 0 <= y < s.rows
      ensures var cell := s.lines[y][x];
        if s.cursorEnabled && s.cursorX == x && s.cursorY == y then GlyphShown(d, fb, x, y, cell.c, cell.bg, cell.fg)
        else GlyphShown(d, fb, x, y, cell.c, cell.fg, cell.bg)
    {
      RenderedCell(d, backdrop, s, x, y);
    }
  }

  lemma RenderedCell(d: Display, backdrop: seq<u32>, s: Screen, x: nat, y: nat)
    requires |backdrop| == FbSize(d) && x < d.cols == s.cols && y < d.rows == s.rows
    ensures var cell, fb := s.lines[y][x], Render(d, backdrop, s);
      if s.cursorEnabled && s.cursorX == x && s.cursorY == y then GlyphShown(d, fb, x, y, cell.c, cell.bg, cell.fg)
      else GlyphShown(d, fb, x, y, cell.c, cell.fg, cell.bg)
  {
    hide GlyphShown, Ink, Owner, InText;
    var cell, fb := s.lines[y][x], Render(d, backdrop, s);
    var shown := if s.cursorEnabled && s.cursorX == x && s.cursorY == y then Swapped(cell) else cell;
    forall k | 0 <= k < |fb| && Owner(d, k) == Index(d.cols, x, y) ensures InText(d, k) && fb[k] == Ink(d, shown, k) {
      OwnedPixel(d, x, y, k);
    }
    ShowsGlyph(d, fb, shown, x, y);
  }

  lemma OwnedPixel(d: Display, x: nat, y: nat, k: nat)
    requires x < d.cols && y < d.rows && Owner(d, k) == Index(d.cols, x, y)
    ensures InText(d, k)
    ensures (k % d.stride - d.offsetX) / d.glyphWidth == x && (k / d.stride - d.offsetY) / d.glyphHeight == y
  {
    OwnerInRange(d, k);
    FlatUnique(x, y, (k % d.stride - d.offsetX) / d.glyphWidth, (k / d.stride - d.offsetY) / d.glyphHeight, d.cols);
  }

  lemma RenderIsFrame(d: Display, backdrop: seq<u32>, cells: seq<Cell>, s: Screen)
    requires |backdrop| == FbSize(d) && s.rows == d.rows && s.cols == d.cols
    requires |cells| == d.rows * d.cols && s.lines == Lines(d.rows, d.cols, cells)
    ensures Render(d, backdrop, s) == Frame(d, backdrop, cells, s.cursorX, s.cursorY, s.cursorEnabled)
  {
    var frame, render := Frame(d, backdrop, cells, s.cursorX, s.cursorY, s.cursorEnabled), Render(d, backdrop, s);
    forall k | 0 <= k < |backdrop| ensures frame[k] == render[k] {
      if InText(d, k) {
        OwnerInRange(d, k);
        var x, y := (k % d.stride - d.offsetX) / d.glyphWidth, (k / d.stride - d.offsetY) / d.glyphHeight;
        LinesAt(d.rows, d.cols, cells, x, y);
        if s.cursorX < d.cols && s.cursorY < d.rows && Index(d.cols, s.cursorX, s.cursorY) == Owner(d, k) {
          FlatUnique(s.cursorX, s.cursorY, x, y, d.cols);
        }
      }
    }
  }

  ghost predicate SameOutside(d: Display, fb0: seq<u32>, fb: seq<u32>) {
    && |fb| == |fb0|
    && forall k :: 0 <= k < |fb| && Owner(d, k) == -1 ==> fb[k] == fb0[k]
  }

  lemma FrameFromCells(d: Display, fb0: seq<u32>, fb: seq<u32>, cells: seq<Cell>, x: nat, y: nat, cursor: bool)
    requires |fb| == FbSize(d) && |cells| == d.rows * d.cols
    requires SameOutside(d, fb0, fb)
    requires forall i :: 0 <= i < |cells| ==> Shows(d, fb, i, Displayed(d, cells, x, y, cursor, i))
    ensures fb == Frame(d, fb0, cells, x, y, cursor)
  {
    var frame := Frame(d, fb0, cells, x, y, cursor);
    forall k | 0 <= k < |fb| ensures fb[k] == frame[k] {
      if InText(d, k) {
        OwnerInRange(d, k);
        assert Shows(d, fb, Owner(d, k), Displayed(d, cells, x, y, cursor, Owner(d, k)));
      }
    }
  }

  /** Painting cell `i` shows the new character there and leaves every other cell as it was. */
  lemma PaintOne(d: Display, fb: seq<u32>, fb': seq<u32>, i: nat, c: Cell)
    requires |fb| == FbSize(d) && fb' == Painted(d, fb, i, c)
    ensures Shows(d, fb', i, c)
    ensures forall j: nat, e :: j != i && Shows(d, fb, j, e) ==> Shows(d, fb', j, e)
    ensures SameOutside(d, fb, fb')
  {
  }

  lemma PaintOneFast(d: Display, fb: seq<u32>, fb': seq<u32>, i: nat, prev: Cell, c: Cell)
    requires |fb| == FbSize(d) && fb' == PaintedFast(d, fb, i, prev, c)
    requires prev.fg == c.fg && prev.bg == c.bg
    ensures Shows(d, fb, i, prev) ==> Shows(d, fb', i, c)
    ensures forall j: nat, e :: j != i && Shows(d, fb, j, e) ==> Shows(d, fb', j, e)
    ensures SameOutside(d, fb, fb')
  {
    if Shows(d, fb, i, prev) {
      FastPainterRefines(d, fb, i, prev, c);
    }
  }

  /** State of a flush: cells already painted, and cells waiting in the queue, still add up to the
      logical screen `cells`. If `drawn`, the cursor has been painted and its cell is not touched
      again. The cell under the old cursor may display anything. */
  ghost predicate Flushing(d: Display, fb0: seq<u32>, fb: seq<u32>, grid: seq<Cell>, queue: seq<Item>,
    pending: seq<Option<nat>>, n: nat,
                           cells: seq<Cell>, oldX: nat, oldY: nat, x: nat, y: nat, drawn: bool) {
    && |fb| == FbSize(d) && |grid| == |cells| == d.rows * d.cols
    && Indexed(d.rows, d.cols, queue, pending, n)
    && Logical(d.rows, d.cols, grid, queue, pending, n) == cells
    && SameOutside(d, fb0, fb)
    && forall i :: 0 <= i < |grid| ==> CellFlushing(d, fb, grid, pending, cells, oldX, oldY, x, y, drawn, i)
  }

  ghost predicate CellFlushing(d: Display, fb: seq<u32>, grid: seq<Cell>, pending: seq<Option<nat>>,
                               cells: seq<Cell>, oldX: nat, oldY: nat, x: nat, y: nat, drawn: bool, i: nat)
    requires |fb| == FbSize(d) && i < |grid| == |cells| == |pending|
  {
    if drawn && UnderCursor(d, x, y, i) then pending[i].None? && Shows(d, fb, i, Swapped(cells[i]))
    else CellCurrent(d, fb, grid, oldX, oldY, i)
  }

  lemma FlushBegins(d: Display, fb: seq<u32>, grid: seq<Cell>, queue: seq<Item>, pending: seq<Option<nat>>, n: nat,
    oldX: nat, oldY: nat, x: nat, y: nat)
    requires |fb| == FbSize(d) && Current(d, fb, grid, oldX, oldY) && Live(d.rows, d.cols, queue, pending, n)
    ensures Flushing(d, fb, fb, grid, queue, pending, n, Logical(d.rows, d.cols, grid, queue, pending, n), oldX, oldY,
      x, y, false)
  {
    var cells := Logical(d.rows, d.cols, grid, queue, pending, n);
    forall i | 0 <= i < |grid| ensures CellFlushing(d, fb, grid, pending, cells, oldX, oldY, x, y, false, i) {
      assert CellCurrent(d, fb, grid, oldX, oldY, i);
    }
  }

  /** Taking a cell out of the deferred writes and into the grid does not change the logical screen. */
  lemma Settle(rows: nat, cols: nat, grid: seq<Cell>, queue: seq<Item>, pending: seq<Option<nat>>, n: nat, i: nat)
    requires |grid| == rows * cols && Indexed(rows, cols, queue, pending, n) && i < |grid|
    ensures var cells := Logical(rows, cols, grid, queue, pending, n);
      var grid', pending' := grid[i := cells[i]], pending[i := None];
      && Indexed(rows, cols, queue, pending', n)
      && Logical(rows, cols, grid', queue, pending', n) == cells
  {
    var cells := Logical(rows, cols, grid, queue, pending, n);
    var grid', pending' := grid[i := cells[i]], pending[i := None];
    forall j | 0 <= j < |grid| ensures SlotOk(cols, queue, pending', n, j) {
      assert SlotOk(cols, queue, pending, n, j);
    }
    var cells' := Logical(rows, cols, grid', queue, pending', n);
    forall j | 0 <= j < |grid| ensures cells'[j] == cells[j] {
      assert SlotOk(cols, queue, pending, n, j);
    }
  }

  lemma FlushCursor(d: Display, fb0: seq<u32>, fb: seq<u32>, grid: seq<Cell>, queue: seq<Item>,
    pending: seq<Option<nat>>, n: nat,
                    cells: seq<Cell>, oldX: nat, oldY: nat, x: nat, y: nat)
    requires Flushing(d, fb0, fb, grid, queue, pending, n, cells, oldX, oldY, x, y, false)
    requires x < d.cols && y < d.rows
    ensures var i := Index(d.cols, x, y);
      i < |grid| && Flushing(d, fb0, Painted(d, fb, i, Swapped(cells[i])), grid[i := cells[i]], queue,
        pending[i := None], n, cells, oldX, oldY, x, y, true)
  {
    FlatIndex(x, y, d.rows, d.cols);
    var i := Index(d.cols, x, y);
    var fb', grid', pending' := Painted(d, fb, i, Swapped(cells[i])), grid[i := cells[i]], pending[i := None];
    PaintOne(d, fb, fb', i, Swapped(cells[i]));
    Settle(d.rows, d.cols, grid, queue, pending, n, i);
    forall j | 0 <= j < |grid| ensures CellFlushing(d, fb', grid', pending', cells, oldX, oldY, x, y, true, j) {
      assert CellFlushing(d, fb, grid, pending, cells, oldX, oldY, x, y, false, j);
    }
  }

  /** One queue item is painted, with either painter. */
  lemma FlushItem(d: Display, fb0: seq<u32>, fb: seq<u32>, fb': seq<u32>, grid: seq<Cell>, queue: seq<Item>,
    pending: seq<Option<nat>>, n: nat,
                  cells: seq<Cell>, oldX: nat, oldY: nat, x: nat, y: nat, drawn: bool, k: nat)
    requires Flushing(d, fb0, fb, grid, queue, pending, n, cells, oldX, oldY, x, y, drawn)
    requires k < n && Index(d.cols, queue[k].x, queue[k].y) < |pending|
      && pending[Index(d.cols, queue[k].x, queue[k].y)].Some?
    requires var i, c := Index(d.cols, queue[k].x, queue[k].y), queue[k].c;
      fb' == if c.bg == grid[i].bg && c.fg == grid[i].fg then PaintedFast(d, fb, i, grid[i], c)
        else Painted(d, fb, i, c)
    ensures var i, c := Index(d.cols, queue[k].x, queue[k].y), queue[k].c;
      Flushing(d, fb0, fb', grid[i := c], queue, pending[i := None], n, cells, oldX, oldY, x, y, drawn)
  {
    var i, c := Index(d.cols, queue[k].x, queue[k].y), queue[k].c;
    assert SlotOk(d.cols, queue, pending, n, i);
    var m := pending[i].value;
    assert m < k ==> OtherCell(d.cols, queue, m, k);
    assert k < m ==> OtherCell(d.cols, queue, k, m);
    var grid', pending' := grid[i := c], pending[i := None];
    Settle(d.rows, d.cols, grid, queue, pending, n, i);
    assert CellFlushing(d, fb, grid, pending, cells, oldX, oldY, x, y, drawn, i);
    if c.bg == grid[i].bg && c.fg == grid[i].fg {
      PaintOneFast(d, fb, fb', i, grid[i], c);
    } else {
      PaintOne(d, fb, fb', i, c);
    }
    forall j | 0 <= j < |grid| ensures CellFlushing(d, fb', grid', pending', cells, oldX, oldY, x, y, drawn, j) {
      assert CellFlushing(d, fb, grid, pending, cells, oldX, oldY, x, y, drawn, j);
    }
  }

  ghost predicate ItemFlushed(d: Display, queue: seq<Item>, pending: seq<Option<nat>>, k: nat)
    requires k < |queue|
  {
    Index(d.cols, queue[k].x, queue[k].y) < |pending| ==> pending[Index(d.cols, queue[k].x, queue[k].y)].None?
  }

  lemma StayFlushed(d: Display, queue: seq<Item>, pending: seq<Option<nat>>, pending': seq<Option<nat>>, i: nat, k: nat)
    requires i < |pending| && pending' == pending[i := None] && k < |queue|
      && i == Index(d.cols, queue[k].x, queue[k].y)
    requires forall j :: 0 <= j < k ==> ItemFlushed(d, queue, pending, j)
    ensures forall j :: 0 <= j < k + 1 ==> ItemFlushed(d, queue, pending', j)
  {
    forall j | 0 <= j < k + 1 ensures ItemFlushed(d, queue, pending', j) {
      assert j < k ==> ItemFlushed(d, queue, pending, j);
    }
  }

  /** When the loop ends, no write is deferred and the grid is the logical screen. */
  lemma FlushedQueue(d: Display, fb0: seq<u32>, fb: seq<u32>, grid: seq<Cell>, queue: seq<Item>,
    pending: seq<Option<nat>>, n: nat,
                     cells: seq<Cell>, oldX: nat, oldY: nat, x: nat, y: nat, drawn: bool)
    requires Flushing(d, fb0, fb, grid, queue, pending, n, cells, oldX, oldY, x, y, drawn)
    requires forall j :: 0 <= j < n ==> ItemFlushed(d, queue, pending, j)
    ensures grid == cells && NothingDeferred(pending)
  {
    forall i | 0 <= i < |pending| ensures pending[i].None? && grid[i] == cells[i] {
      assert SlotOk(d.cols, queue, pending, n, i);
      assert pending[i].Some? ==> ItemFlushed(d, queue, pending, pending[i].value);
    }
  }

  /** The final repaint of the cell under the old cursor makes every cell right. */
  lemma FlushEnds(d: Display, fb0: seq<u32>, fb: seq<u32>, fb': seq<u32>, grid: seq<Cell>, queue: seq<Item>,
    pending: seq<Option<nat>>, n: nat,
                  cells: seq<Cell>, oldX: nat, oldY: nat, x: nat, y: nat, cursor: bool)
    requires Flushing(d, fb0, fb, grid, queue, pending, n, cells, oldX, oldY, x, y, cursor && x < d.cols && y < d.rows)
    requires forall j :: 0 <= j < n ==> ItemFlushed(d, queue, pending, j)
    requires oldX < d.cols && oldY < d.rows ==> Index(d.cols, oldX, oldY) < |grid|
    requires fb' == if (oldX != x || oldY != y || !cursor) && oldX < d.cols && oldY < d.rows
      then Painted(d, fb, Index(d.cols, oldX, oldY), grid[Index(d.cols, oldX, oldY)]) else fb
    ensures grid == cells && NothingDeferred(pending)
    ensures Live(d.rows, d.cols, queue, pending, 0)
    ensures Logical(d.rows, d.cols, grid, queue, pending, 0) == cells
    ensures Current(d, fb', grid, x, y)
    ensures fb' == Frame(d, fb0, cells, x, y, cursor)
  {
    var drawn := cursor && x < d.cols && y < d.rows;
    FlushedQueue(d, fb0, fb, grid, queue, pending, n, cells, oldX, oldY, x, y, drawn);
    if (oldX != x || oldY != y || !cursor) && oldX < d.cols && oldY < d.rows {
      PaintOne(d, fb, fb', Index(d.cols, oldX, oldY), grid[Index(d.cols, oldX, oldY)]);
      if x < d.cols && y < d.rows && Index(d.cols, x, y) == Index(d.cols, oldX, oldY) {
        FlatUnique(x, y, oldX, oldY, d.cols);
      }
    }
    forall i | 0 <= i < |grid|
      ensures Shows(d, fb', i, Displayed(d, cells, x, y, cursor, i))
      ensures CellCurrent(d, fb', grid, x, y, i)
    {
      assert CellFlushing(d, fb, grid, pending, cells, oldX, oldY, x, y, drawn, i);
    }
    FrameFromCells(d, fb0, fb', cells, x, y, cursor);
    forall i | 0 <= i < |pending| ensures SlotOk(d.cols, queue, pending, 0, i) {
    }
  }

  /** The canvas copied onto the framebuffer; the padding at the end of each line stays. */
  ghost function OverCanvas(d: Display, fb: seq<u32>): (r: seq<u32>)
    requires |fb| == FbSize(d)
    ensures |r| == |fb|
  {
    seq(|fb|, k requires 0 <= k < |fb| => CanvasPixel(d, fb, k))
  }

  ghost function CanvasPixel(d: Display, fb: seq<u32>, k: nat): u32
    requires |fb| == FbSize(d) && k < |fb|
  {
    FlatCell(k, d.height, d.stride);
    if k % d.stride < d.width then
      (BehindInRange(d, k % d.stride, k / d.stride); d.canvas[CanvasIndex(d, k % d.stride, k / d.stride)])
    else fb[k]
  }

  /** The canvas has been copied up to column x of line y. */
  ghost predicate Copied(d: Display, before: seq<u32>, fb: seq<u32>, x: nat, y: nat) {
    && |before| == |fb| == FbSize(d)
    && forall k :: 0 <= k < |fb| ==>
      fb[k] == if k / d.stride < y || (k / d.stride == y && k % d.stride < x) then CanvasPixel(d, before, k)
        else before[k]
  }

  lemma CopiedPixel(d: Display, before: seq<u32>, fb: seq<u32>, x: nat, y: nat)
    requires x < d.width && y < d.height && Copied(d, before, fb, x, y)
    ensures y * d.stride + x < |fb| && CanvasIndex(d, x, y) < |d.canvas|
    ensures Copied(d, before, fb[y * d.stride + x := d.canvas[CanvasIndex(d, x, y)]], x + 1, y)
  {
    FlatIndex(x, y, d.height, d.stride);
    BehindInRange(d, x, y);
    var fb' := fb[y * d.stride + x := d.canvas[CanvasIndex(d, x, y)]];
    forall k | 0 <= k < |fb| && k != y * d.stride + x
      ensures k / d.stride == y ==> k % d.stride != x
    {
      if k / d.stride == y && k % d.stride == x {
        FlatPlace(k, d.stride, x, y);
      }
    }
  }

  lemma CopiedLine(d: Display, before: seq<u32>, fb: seq<u32>, y: nat)
    requires Copied(d, before, fb, d.width, y)
    ensures Copied(d, before, fb, 0, y + 1)
  {
  }

  lemma CopiedAll(d: Display, before: seq<u32>, fb: seq<u32>)
    requires Copied(d, before, fb, 0, d.height)
    ensures fb == OverCanvas(d, before)
  {
    forall k | 0 <= k < |fb| ensures fb[k] == OverCanvas(d, before)[k] {
      FlatCell(k, d.height, d.stride);
    }
  }

  /** Outside the text area the first picture is the canvas, and the padding behind each line as it was. */
  lemma CanvasAround(d: Display, fb: seq<u32>, s: Screen, px: nat, py: nat)
    requires |fb| == FbSize(d) && s.rows == d.rows && s.cols == d.cols && px < d.stride && py < d.height
    requires !(d.offsetX <= px < d.offsetX + d.cols * d.glyphWidth
      && d.offsetY <= py < d.offsetY + d.rows * d.glyphHeight)
    ensures var k := py * d.stride + px;
      && 0 <= k < |fb| && (px < d.width ==> 0 <= py * d.width + px < |d.canvas|)
      && Render(d, OverCanvas(d, fb), s)[k] == if px < d.width then d.canvas[py * d.width + px] else fb[k]
  {
    FlatIndex(px, py, d.height, d.stride);
    if px < d.width {
      BehindInRange(d, px, py);
    }
  }

  /** The canvas is the picture given, or the default background everywhere. */
  lemma CanvasIs(width: nat, height: nat, picture: Option<seq<u32>>, colours: Palette, k: nat)
    requires k < width * height && (picture.Some? ==> |picture.value| == width * height)
    ensures |Canvas(width, height, picture, colours)| == width * height
    ensures Canvas(width, height, picture, colours)[k] ==
      match picture
      case Some(p) => p[k]
      case None => colours.defaultBg
  {
  }

  ghost predicate NothingDeferred(pending: seq<Option<nat>>) {
    forall i :: 0 <= i < |pending| ==> pending[i].None?
  }

  /** With nothing deferred the logical screen is the grid. */
  lemma NothingPending(d: Display, grid: seq<Cell>, queue: seq<Item>, pending: seq<Option<nat>>)
    requires |grid| == |queue| == |pending| == d.rows * d.cols
    requires NothingDeferred(pending)
    ensures Live(d.rows, d.cols, queue, pending, 0)
    ensures Logical(d.rows, d.cols, grid, queue, pending, 0) == grid
  {
    forall i | 0 <= i < |pending| ensures SlotOk(d.cols, queue, pending, 0, i) {
    }
  }

  lemma CursorRefreshed(d: Display, fb0: seq<u32>, fb: seq<u32>, fb': seq<u32>, cells: seq<Cell>, x: nat, y: nat,
    cursor: bool)
    requires |fb| == FbSize(d) && |cells| == d.rows * d.cols && SameOutside(d, fb0, fb)
    requires forall j :: 0 <= j < |cells| ==> Shows(d, fb, j, cells[j])
    requires x < d.cols && y < d.rows ==> Index(d.cols, x, y) < |cells|
    requires fb' == if cursor && x < d.cols && y < d.rows
      then Painted(d, fb, Index(d.cols, x, y), Swapped(cells[Index(d.cols, x, y)])) else fb
    ensures fb' == Frame(d, fb0, cells, x, y, cursor)
    ensures Current(d, fb', cells, x, y)
  {
    if cursor && x < d.cols && y < d.rows {
      PaintOne(d, fb, fb', Index(d.cols, x, y), Swapped(cells[Index(d.cols, x, y)]));
    }
    forall i | 0 <= i < |cells|
      ensures Shows(d, fb', i, Displayed(d, cells, x, y, cursor, i)) && CellCurrent(d, fb', cells, x, y, i)
    {
      assert Shows(d, fb, i, cells[i]);
    }
    FrameFromCells(d, fb0, fb', cells, x, y, cursor);
  }

  class FbContext {
    const display: Display
    const palette: Palette
    const grid: array<Cell>
    const queue: array<Item>
    const pending: array<Option<nat>>  // `map` in the source: the queue item of a cell, if any
    const framebuffer: array<u32>
    var queueLen: nat

    var textFg: u32
    var textBg: u32
    var cursorX: nat
    var cursorY: nat
    var savedFg: u32
    var savedBg: u32
    var savedX: nat
    var savedY: nat
    var oldCursorX: nat
    var oldCursorY: nat

    // Fields of the embedded `struct flanterm_context` that the backend reads.
    var scrollTop: nat
    var scrollBottom: nat
    var scrollEnabled: bool
    var cursorEnabled: bool

    ghost predicate Shape()
      reads this`scrollTop, this`scrollBottom
    {
      && grid.Length == queue.Length == pending.Length == display.rows * display.cols
      && framebuffer.Length == FbSize(display)
      && scrollTop < display.rows && 1 <= scrollBottom <= display.rows
    }

    ghost predicate Valid()
      reads this`queueLen, this`oldCursorX, this`oldCursorY, this`scrollTop, this`scrollBottom
      reads grid, queue, pending, framebuffer
    {
      && Shape()
      && Live(display.rows, display.cols, queue[..], pending[..], queueLen)
      && Current(display, framebuffer[..], grid[..], oldCursorX, oldCursorY)
    }

    /** The logical screen in row-major order. */
    ghost function Cells(): (cells: seq<Cell>)
      requires Valid()
      reads this`queueLen, this`oldCursorX, this`oldCursorY, this`scrollTop, this`scrollBottom
      reads grid, queue, pending, framebuffer
      ensures |cells| == display.rows * display.cols
    {
      Logical(display.rows, display.cols, grid[..], queue[..], pending[..], queueLen)
    }

    /** The logical screen this object stands for. */
    ghost function View(): (s: Screen)
      requires Valid()
      reads this, grid, queue, pending, framebuffer
      ensures s.rows == display.rows && s.cols == display.cols
    {
      RawScreen(display.rows, display.cols, Lines(display.rows, display.cols, Cells()),
        cursorX, cursorY, textFg, textBg, savedFg, savedBg, savedX, savedY,
        scrollTop, scrollBottom, scrollEnabled, cursorEnabled)
    }

    lemma FramebufferSize()
      requires Valid()
      ensures framebuffer.Length == FbSize(display)
    {
    }

    method PlotChar(c: Cell, x: nat, y: nat)
      requires framebuffer.Length == FbSize(display)
      modifies framebuffer
      ensures framebuffer[..] == if x < display.cols && y < display.rows
        then Painted(display, old(framebuffer[..]), Index(display.cols, x, y), c)
        else old(framebuffer[..])
      ensures x < display.cols && y < display.rows ==> GlyphShown(display, framebuffer[..], x, y, c.c, c.fg, c.bg)
    {
      hide GlyphShown;
      var d := display;
      if x >= d.cols || y >= d.rows {
        return;
      }
      ghost var i, before := Index(d.cols, x, y), framebuffer[..];
      ghost var target := Painted(d, before, i, c);
      var gy := 0;
      while gy < d.glyphHeight
        invariant gy <= d.glyphHeight
        invariant Progress(d, before, target, framebuffer[..], i, 0, gy)
      {
        var fy := gy / d.scaleY % 256;
        var fx := 0;
        while fx < d.fontWidth
          invariant fx <= d.fontWidth
          invariant Progress(d, before, target, framebuffer[..], i, d.scaleX * fx, gy)
        {
          GlyphReads(d, c.c, fx, 0, gy);
          var draw := d.font[FontIndex(d, c.c, fx, fy)];
          var j := 0;
          while j < d.scaleX
            invariant j <= d.scaleX
            invariant Progress(d, before, target, framebuffer[..], i, d.scaleX * fx + j, gy)
          {
            var gx := d.scaleX * fx + j;
            DotIsInk(d, c, x, y, fx, j, gy);
            ProgressPixel(d, before, target, framebuffer[..], x, y, gx, gy);
            framebuffer[PixelAt(d, x, y, gx, gy)] := Dot(d, c, draw, x, y, gx, gy);
            j := j + 1;
          }
          NextColumn(d, fx);
          assert d.scaleX * fx + j == d.scaleX * (fx + 1);
          fx := fx + 1;
        }
        assert d.scaleX * fx == d.glyphWidth by { NextColumn(d, fx); }
        ProgressLine(d, before, target, framebuffer[..], x, y, gy);
        gy := gy + 1;
      }
      ProgressDone(d, before, target, framebuffer[..], x, y);
      PaintedGlyph(d, before, c, x, y);
    }

    method PlotCharFast(prev: Cell, c: Cell, x: nat, y: nat)
      requires framebuffer.Length == FbSize(display)
      modifies framebuffer
      ensures framebuffer[..] == if x < display.cols && y < display.rows
        then PaintedFast(display, old(framebuffer[..]), Index(display.cols, x, y), prev, c)
        else old(framebuffer[..])
      ensures x < display.cols && y < display.rows
        && GlyphShown(display, old(framebuffer[..]), x, y, prev.c, c.fg, c.bg)
        ==> GlyphShown(display, framebuffer[..], x, y, c.c, c.fg, c.bg)
    {
      hide GlyphShown;
      var d := display;
      if x >= d.cols || y >= d.rows {
        return;
      }
      ghost var i, before := Index(d.cols, x, y), framebuffer[..];
      ghost var target := PaintedFast(d, before, i, prev, c);
      var gy := 0;
      while gy < d.glyphHeight
        invariant gy <= d.glyphHeight
        invariant Progress(d, before, target, framebuffer[..], i, 0, gy)
      {
        var fy := gy / d.scaleY % 256;
        var fx := 0;
        while fx < d.fontWidth
          invariant fx <= d.fontWidth
          invariant Progress(d, before, target, framebuffer[..], i, d.scaleX * fx, gy)
        {
          GlyphReads(d, prev.c, fx, 0, gy);
          GlyphReads(d, c.c, fx, 0, gy);
          var oldDraw := d.font[FontIndex(d, prev.c, fx, fy)];
          var newDraw := d.font[FontIndex(d, c.c, fx, fy)];
          NextColumn(d, fx);
          if oldDraw == newDraw {
            SkippedColumn(d, before, i, prev, c, fx, gy);
            ProgressSkip(d, before, target, framebuffer[..], i, d.scaleX * fx, d.scaleX * (fx + 1), gy);
          } else {
            var j := 0;
            while j < d.scaleX
              invariant j <= d.scaleX
              invariant Progress(d, before, target, framebuffer[..], i, d.scaleX * fx + j, gy)
            {
              var gx := d.scaleX * fx + j;
              DotIsInk(d, c, x, y, fx, j, gy);
              FlippedDot(d, prev.c, c.c, x, y, fx, j, gy);
              ProgressPixel(d, before, target, framebuffer[..], x, y, gx, gy);
              framebuffer[PixelAt(d, x, y, gx, gy)] := Dot(d, c, newDraw, x, y, gx, gy);
              j := j + 1;
            }
            assert d.scaleX * fx + j == d.scaleX * (fx + 1);
          }
          fx := fx + 1;
        }
        assert d.scaleX * fx == d.glyphWidth by { NextColumn(d, fx); }
        ProgressLine(d, before, target, framebuffer[..], x, y, gy);
        gy := gy + 1;
      }
      ProgressDone(d, before, target, framebuffer[..], x, y);
      PaintedFastGlyph(d, before, prev, c, x, y);
    }

    /** `push_to_queue`: one cell of the logical screen changes; the queue never overflows. */
    method PushToQueue(c: Cell, x: nat, y: nat)
      requires Valid()
      modifies this`queueLen, queue, pending
      ensures Valid()
      ensures View() == Put(old(View()), c, x, y)
      ensures Cells() == CellsPut(display.rows, display.cols, old(Cells()), c, x, y)
    {
      if x >= display.cols || y >= display.rows {
        return;
      }
      var i := Index(display.cols, x, y);
      ghost var cells0, queue0, pending0 := Cells(), queue[..], pending[..];
      LinesUpdate(display.rows, display.cols, cells0, x, y, c);
      if pending[i].None? {
        if grid[i] == c {
          assert cells0[i := c] == cells0;
          return;
        }
        PushNew(display.rows, display.cols, grid[..], queue0, pending0, queueLen, x, y, c);
        queue[queueLen] := Item(x, y, c);
        pending[i] := Some(queueLen);
        queueLen := queueLen + 1;
        assert queue[..] == queue0[queueLen - 1 := Item(x, y, c)];
        assert pending[..] == pending0[i := Some(queueLen - 1)];
      } else {
        PushPending(display.rows, display.cols, grid[..], queue0, pending0, queueLen, x, y, c);
        var k := pending[i].value;
        queue[k] := queue[k].(c := c);
        assert queue[..] == queue0[k := queue0[k].(c := c)];
      }
      assert Cells() == cells0[i := c];
    }

    /** The character a cell of the logical screen holds, read through the pending slot. */
    method Read(i: nat) returns (c: Cell)
      requires Valid() && i < grid.Length
      ensures c == Cells()[i]
    {
      assert SlotOk(display.cols, queue[..], pending[..], queueLen, i);
      if pending[i].Some? {
        c := queue[pending[i].value].c;
      } else {
        c := grid[i];
      }
    }

    /** One row becomes blank in the current colours. */
    method BlankRow(y: nat)
      requires Valid() && y < display.rows
      modifies this`queueLen, queue, pending
      ensures Valid()
      ensures Cells() == Filled(old(Cells()), Index(display.cols, 0, y), display.cols, Cell(SPACE, textFg, textBg))
    {
      var empty := Cell(SPACE, textFg, textBg);
      ghost var cells0, first := Cells(), Index(display.cols, 0, y);
      var i := 0;
      assert Cells() == Filled(cells0, first, 0, empty);
      while i < display.cols
        invariant i <= display.cols
        invariant Valid()
        invariant Cells() == Filled(cells0, first, i, empty)
      {
        FlatIndex(i, y, display.rows, display.cols);
        FilledStep(cells0, first, i, empty);
        PushToQueue(empty, i, y);
        i := i + 1;
      }
    }

    /** `push_to_queue` at the coordinates of array position `i`. */
    method PushAt(c: Cell, i: nat)
      requires Valid() && i < grid.Length
      modifies this`queueLen, queue, pending
      ensures Valid()
      ensures Cells() == old(Cells())[i := c]
    {
      FlatCell(i, display.rows, display.cols);
      PushToQueue(c, i % display.cols, i / display.cols);
    }

    method Scroll()
      requires Valid()
      modifies this`queueLen, queue, pending
      ensures Valid()
      ensures View() == Screens.Scroll(old(View()))
    {
      var cols := display.cols;
      ghost var s, cells0, lo := View(), Cells(), scrollTop * cols;
      ScrollBounds(display.rows, cols, scrollTop, scrollBottom);
      var i := (scrollTop + 1) * cols;
      assert Cells() == ShiftedDown(cells0, cols, lo, i);
      while i < scrollBottom * cols
        invariant lo + cols <= i && (i <= scrollBottom * cols || i == lo + cols)
        invariant Valid()
        invariant Cells() == ShiftedDown(cells0, cols, lo, i)
      {
        var c := Read(i);
        ShiftedDownStep(cells0, cols, lo, i);
        PushAt(c, i - cols);
        i := i + 1;
      }
      BlankRow(scrollBottom - 1);
      ScrollLines(s, cells0, i, Cells());
    }

    /** The copying loop of `revscroll`, from the last row of the region to the first. */
    method ShiftRegionDown()
      requires Valid()
      modifies this`queueLen, queue, pending
      ensures Valid()
      ensures 0 <= scrollTop * display.cols && 0 <= scrollBottom * display.cols
      ensures Cells() == ShiftedUp(old(Cells()), display.cols, scrollTop * display.cols, scrollBottom * display.cols)
    {
      var cols := display.cols;
      ghost var cells0, hi := Cells(), scrollBottom * cols;
      ScrollBounds(display.rows, cols, scrollTop, scrollBottom);
      var lo := scrollTop * cols;
      ghost var next := hi - cols;
      ghost var from := if lo <= next then next else lo;
      // `size_t` counts down past zero to its largest value, which ends the loop.
      var i := Decrement((scrollBottom - 1) * cols);
      assert Cells() == ShiftedUp(cells0, cols, from, hi);
      while i >= lo
        invariant 0 <= next <= hi - cols && i == Decrement(next)
        invariant from == if lo <= next then next else lo
        invariant Valid()
        invariant Cells() == ShiftedUp(cells0, cols, from, hi)
        decreases if i == U64_LIMIT - 1 then 0 else i + 1
      {
        if i == U64_LIMIT - 1 {
          break;
        }
        var c := Read(i);
        ShiftedUpStep(cells0, cols, from, hi);
        PushAt(c, i + cols);
        i := Decrement(i);
        next, from := next - 1, from - 1;
      }
    }

    method RevScroll()
      requires Valid()
      modifies this`queueLen, queue, pending
      ensures Valid()
      ensures View() == Screens.RevScroll(old(View()))
    {
      ghost var s, cells0 := View(), Cells();
      ScrollBounds(display.rows, display.cols, scrollTop, scrollBottom);
      ShiftRegionDown();
      BlankRow(scrollTop);
      RevScrollLines(s, cells0, Cells());
    }

    method BlankAll()
      requires Valid()
      modifies this`queueLen, queue, pending
      ensures Valid()
      ensures View() == Screens.Clear(old(View()), false)
    {
      var empty := Cell(SPACE, textFg, textBg);
      ghost var s, cells0 := View(), Cells();
      var i := 0;
      assert Cells() == Filled(cells0, 0, 0, empty);
      while i < display.rows * display.cols
        invariant i <= display.rows * display.cols
        invariant Valid()
        invariant Cells() == Filled(cells0, 0, i, empty)
      {
        FilledStep(cells0, 0, i, empty);
        PushAt(empty, i);
        i := i + 1;
      }
      ClearLines(s, cells0, Cells());
    }

    method Clear(move: bool)
      requires Valid()
      modifies this`queueLen, this`cursorX, this`cursorY, queue, pending
      ensures Valid()
      ensures View() == Screens.Clear(old(View()), move)
    {
      hide Valid, Lines;
      BlankAll();
      if move {
        cursorX := 0;
        cursorY := 0;
      }
    }

    method SetCursorPos(x: u64, y: u64)
      requires Valid()
      modifies this`cursorX, this`cursorY
      ensures Valid()
      ensures View() == SetCursor(old(View()), x, y)
    {
      hide Valid, Lines;
      var newX, newY := x, y;
      if x >= display.cols {
        if IntIsNegative(x) {
          newX := 0;
        } else {
          newX := display.cols - 1;
        }
      }
      if y >= display.rows {
        if IntIsNegative(y) {
          newY := 0;
        } else {
          newY := display.rows - 1;
        }
      }
      cursorX := newX;
      cursorY := newY;
    }

    method GetCursorPos() returns (x: nat, y: nat)
      requires Valid()
      ensures x == GetX(View()) && y == GetY(View())
      ensures x < display.cols && (cursorX < display.cols ==> x == cursorX)
        && (cursorX >= display.cols ==> x + 1 == display.cols)
      ensures y < display.rows && (cursorY < display.rows ==> y == cursorY)
        && (cursorY >= display.rows ==> y + 1 == display.rows)
    {
      x := if cursorX >= display.cols then display.cols - 1 else cursorX;
      y := if cursorY >= display.rows then display.rows - 1 else cursorY;
    }

    method MoveCharacter(newX: nat, newY: nat, oldX: nat, oldY: nat)
      requires Valid()
      modifies this`queueLen, queue, pending
      ensures Valid()
      ensures View() == Screens.MoveCharacter(old(View()), newX, newY, oldX, oldY)
    {
      if oldX >= display.cols || oldY >= display.rows || newX >= display.cols || newY >= display.rows {
        return;
      }
      LinesAt(display.rows, display.cols, Cells(), oldX, oldY);
      var c := Read(oldX + oldY * display.cols);
      PushToQueue(c, newX, newY);
    }

    /** The deferred line wrap of `raw_putchar`. */
    method WrapLine()
      requires Valid()
      modifies this`queueLen, this`cursorX, this`cursorY, queue, pending
      ensures Valid()
      ensures View() == Wrap(old(View()))
    {
      hide Valid, Lines, Screens.Scroll;
      if cursorX >= display.cols && (cursorY < scrollBottom - 1 || scrollEnabled) {
        var y := cursorY + 1;
        if y == scrollBottom {
          y := y - 1;
          Scroll();
        }
        if y >= display.cols {
          y := display.cols - 1;
        }
        cursorX := 0;
        cursorY := y;
      }
    }

    method RawPutchar(c: byte)
      requires Valid()
      modifies this`queueLen, this`cursorX, this`cursorY, queue, pending
      ensures Valid()
      ensures View() == RawPut(old(View()), c)
    {
      hide Valid, Lines, Wrap, Put;
      ghost var s := View();
      WrapLine();
      ghost var w := View();
      var ch := Cell(c, textFg, textBg);
      PushToQueue(ch, cursorX, cursorY);
      assert View() == Put(w, ch, w.cursorX, w.cursorY);
      cursorX := cursorX + 1;
    }

    method SetMargins(top: nat, bottom: nat)
      requires Valid() && top < display.rows && 1 <= bottom <= display.rows
      modifies this`scrollTop, this`scrollBottom
      ensures Valid()
      ensures View() == old(View()).(top := top, bottom := bottom)
      ensures scrollTop == top && scrollBottom == bottom
    {
      scrollTop, scrollBottom := top, bottom;
    }

    method SetModes(scroll: bool, cursor: bool)
      requires Valid()
      modifies this`scrollEnabled, this`cursorEnabled
      ensures Valid()
      ensures View() == old(View()).(scrollEnabled := scroll, cursorEnabled := cursor)
    {
      hide Valid, Lines;
      scrollEnabled, cursorEnabled := scroll, cursor;
    }

    method SaveState()
      requires Valid()
      modifies this`savedFg, this`savedBg, this`savedX, this`savedY
      ensures Valid()
      ensures View() == Saved(old(View()))
    {
      hide Valid, Lines;
      savedFg := textFg;
      savedBg := textBg;
      savedX := cursorX;
      savedY := cursorY;
    }

    method RestoreState()
      requires Valid()
      modifies this`textFg, this`textBg, this`cursorX, this`cursorY
      ensures Valid()
      ensures View() == Restored(old(View()))
    {
      hide Valid, Lines;
      textFg := savedFg;
      textBg := savedBg;
      cursorX := savedX;
      cursorY := savedY;
    }

    method DrawCursor()
      requires Shape() && Indexed(display.rows, display.cols, queue[..], pending[..], queueLen)
      modifies grid, pending, framebuffer
      ensures cursorX >= display.cols || cursorY >= display.rows ==>
        grid[..] == old(grid[..]) && pending[..] == old(pending[..]) && framebuffer[..] == old(framebuffer[..])
      ensures cursorX < display.cols && cursorY < display.rows ==>
        var i := Index(display.cols, cursorX, cursorY);
        var cells := old(Logical(display.rows, display.cols, grid[..], queue[..], pending[..], queueLen));
        && i < |cells|
        && grid[..] == old(grid[..])[i := cells[i]] && pending[..] == old(pending[..])[i := None]
        && framebuffer[..] == Painted(display, old(framebuffer[..]), i, Swapped(cells[i]))
    {
      if cursorX >= display.cols || cursorY >= display.rows {
        return;
      }
      FlatIndex(cursorX, cursorY, display.rows, display.cols);
      var i := Index(display.cols, cursorX, cursorY);
      assert SlotOk(display.cols, queue[..], pending[..], queueLen, i);
      var c := if pending[i].Some? then queue[pending[i].value].c else grid[i];
      PlotChar(c.(fg := c.bg, bg := c.fg), cursorX, cursorY);
      if pending[i].Some? {
        grid[i] := queue[pending[i].value].c;
        pending[i] := None;
      }
      assert grid[..] == old(grid[..])[i := c];
      assert pending[..] == old(pending[..])[i := None];
    }

    /** The queue loop of the flush. */
    method PaintQueue(ghost fb0: seq<u32>, ghost cells: seq<Cell>, ghost drawn: bool)
      requires Shape()
      requires Flushing(display, fb0, framebuffer[..], grid[..], queue[..], pending[..], queueLen, cells, oldCursorX,
        oldCursorY, cursorX, cursorY, drawn)
      modifies grid, pending, framebuffer
      ensures Flushing(display, fb0, framebuffer[..], grid[..], queue[..], pending[..], queueLen, cells, oldCursorX,
        oldCursorY, cursorX, cursorY, drawn)
      ensures forall j :: 0 <= j < queueLen ==> ItemFlushed(display, queue[..], pending[..], j)
    {
      ghost var d := display;
      var k := 0;
      while k < queueLen
        invariant k <= queueLen
        invariant Flushing(d, fb0, framebuffer[..], grid[..], queue[..], pending[..], queueLen, cells, oldCursorX,
          oldCursorY, cursorX, cursorY, drawn)
        invariant forall j :: 0 <= j < k ==> ItemFlushed(d, queue[..], pending[..], j)
      {
        assert ItemOnScreen(d.rows, d.cols, queue[..], k);
        var q := queue[k];
        var offset := Index(display.cols, q.x, q.y);
        if pending[offset].Some? {
          ghost var fb, grid0, pending0 := framebuffer[..], grid[..], pending[..];
          var prev := grid[offset];
          if q.c.bg == prev.bg && q.c.fg == prev.fg {
            PlotCharFast(prev, q.c, q.x, q.y);
          } else {
            PlotChar(q.c, q.x, q.y);
          }
          FlushItem(d, fb0, fb, framebuffer[..], grid0, queue[..], pending0, queueLen, cells, oldCursorX, oldCursorY,
            cursorX, cursorY, drawn, k);
          grid[offset] := q.c;
          pending[offset] := None;
          assert grid[..] == grid0[offset := q.c];
          assert pending[..] == pending0[offset := None];
          StayFlushed(d, queue[..], pending0, pending[..], offset, k);
        }
        k := k + 1;
      }
    }

    /** The cell under the cursor of the previous flush is painted again, unless the cursor stayed. */
    method RepaintOldCursor()
      requires Shape()
      modifies framebuffer
      ensures oldCursorX < display.cols && oldCursorY < display.rows ==>
        Index(display.cols, oldCursorX, oldCursorY) < grid.Length
      ensures framebuffer[..] ==
        if (oldCursorX != cursorX || oldCursorY != cursorY || !cursorEnabled) && oldCursorX < display.cols
          && oldCursorY < display.rows
        then Painted(display, old(framebuffer[..]), Index(display.cols, oldCursorX, oldCursorY),
          grid[Index(display.cols, oldCursorX, oldCursorY)])
        else old(framebuffer[..])
    {
      if oldCursorX < display.cols && oldCursorY < display.rows {
        FlatIndex(oldCursorX, oldCursorY, display.rows, display.cols);
      }
      if (oldCursorX != cursorX || oldCursorY != cursorY) || !cursorEnabled {
        if oldCursorX < display.cols && oldCursorY < display.rows {
          PlotChar(grid[Index(display.cols, oldCursorX, oldCursorY)], oldCursorX, oldCursorY);
        }
      }
    }

    /** The cursor is painted first, and its pending write with it. */
    method PaintCursor()
      requires Valid()
      modifies grid, pending, framebuffer
      ensures Flushing(display, old(framebuffer[..]), framebuffer[..], grid[..], queue[..], pending[..], queueLen,
        old(Cells()),
        oldCursorX, oldCursorY, cursorX, cursorY, cursorEnabled && cursorX < display.cols && cursorY < display.rows)
    {
      ghost var fb0, cells := framebuffer[..], Cells();
      FlushBegins(display, fb0, grid[..], queue[..], pending[..], queueLen, oldCursorX, oldCursorY, cursorX, cursorY);
      if cursorEnabled {
        if cursorX < display.cols && cursorY < display.rows {
          FlushCursor(display, fb0, fb0, grid[..], queue[..], pending[..], queueLen, cells, oldCursorX, oldCursorY,
            cursorX, cursorY);
        }
        DrawCursor();
      }
    }

    /** The end of the flush: the old cursor is painted over and the queue restarts. */
    method FinishFlush(ghost fb0: seq<u32>, ghost cells: seq<Cell>)
      requires Shape()
      requires Flushing(display, fb0, framebuffer[..], grid[..], queue[..], pending[..], queueLen, cells,
        oldCursorX, oldCursorY, cursorX, cursorY, cursorEnabled && cursorX < display.cols && cursorY < display.rows)
      requires forall j :: 0 <= j < queueLen ==> ItemFlushed(display, queue[..], pending[..], j)
      modifies this`queueLen, this`oldCursorX, this`oldCursorY, framebuffer
      ensures Valid()
      ensures queueLen == 0 && grid[..] == Cells() == cells && NothingDeferred(pending[..])
      ensures framebuffer[..] == Frame(display, fb0, cells, cursorX, cursorY, cursorEnabled)
    {
      ghost var fb := framebuffer[..];
      RepaintOldCursor();
      FlushEnds(display, fb0, fb, framebuffer[..], grid[..], queue[..], pending[..], queueLen, cells, oldCursorX,
        oldCursorY, cursorX, cursorY, cursorEnabled);
      oldCursorX := cursorX;
      oldCursorY := cursorY;
      queueLen := 0;
    }

    /** `double_buffer_flush`: afterwards the framebuffer shows the logical screen with its cursor,
        nothing is deferred, and the logical screen is what it was. */
    method Flush()
      requires Valid()
      modifies this`queueLen, this`oldCursorX, this`oldCursorY, grid, pending, framebuffer
      ensures Valid()
      ensures View() == old(View())
      ensures queueLen == 0 && grid[..] == Cells() == old(Cells()) && NothingDeferred(pending[..])
      ensures framebuffer[..] == Render(display, old(framebuffer[..]), old(View()))
      ensures ScreenShown(display, framebuffer[..], View())
    {
      hide ScreenShown;
      ghost var fb0, cells := framebuffer[..], Cells();
      RenderIsFrame(display, fb0, cells, View());
      RenderShows(display, fb0, View());
      PaintCursor();
      PaintQueue(fb0, cells, cursorEnabled && cursorX < display.cols && cursorY < display.rows);
      FinishFlush(fb0, cells);
    }

    method CopyCanvas()
      requires Shape()
      modifies framebuffer
      ensures framebuffer[..] == OverCanvas(display, old(framebuffer[..]))
    {
      ghost var d, fb0 := display, framebuffer[..];
      var y := 0;
      while y < display.height
        invariant y <= d.height
        invariant Copied(d, fb0, framebuffer[..], 0, y)
      {
        var x := 0;
        while x < display.width
          invariant x <= d.width
          invariant Copied(d, fb0, framebuffer[..], x, y)
        {
          CopiedPixel(d, fb0, framebuffer[..], x, y);
          framebuffer[y * display.stride + x] := display.canvas[CanvasIndex(display, x, y)];
          x := x + 1;
        }
        CopiedLine(d, fb0, framebuffer[..], y);
        y := y + 1;
      }
      CopiedAll(d, fb0, framebuffer[..]);
    }

    method PlotGrid(ghost fb0: seq<u32>)
      requires Shape() && framebuffer[..] == fb0
      modifies framebuffer
      ensures SameOutside(display, fb0, framebuffer[..])
      ensures forall j :: 0 <= j < grid.Length ==> Shows(display, framebuffer[..], j, grid[..][j])
    {
      ghost var d, cells := display, grid[..];
      var i := 0;
      while i < display.rows * display.cols
        invariant i <= d.rows * d.cols
        invariant SameOutside(d, fb0, framebuffer[..])
        invariant forall j :: 0 <= j < i ==> Shows(d, framebuffer[..], j, cells[j])
      {
        FlatCell(i, display.rows, display.cols);
        ghost var fb := framebuffer[..];
        PlotChar(grid[i], i % display.cols, i / display.cols);
        PaintOne(d, fb, framebuffer[..], i, cells[i]);
        i := i + 1;
      }
    }

    /** `full_refresh`, as `flanterm_fb_init` calls it: nothing is deferred and the cursor has not moved
        since the last flush. */
    method FullRefresh()
      requires Shape() && queueLen == 0 && oldCursorX == cursorX && oldCursorY == cursorY
      requires NothingDeferred(pending[..])
      modifies grid, pending, framebuffer
      ensures Valid() && grid[..] == old(grid[..]) == Cells()
      ensures framebuffer[..] == Render(display, OverCanvas(display, old(framebuffer[..])), View())
      ensures ScreenShown(display, framebuffer[..], View())
    {
      hide ScreenShown;
      CopyCanvas();
      ghost var fb0 := framebuffer[..];
      PlotGrid(fb0);
      RefreshCursor(fb0);
      RenderShows(display, fb0, View());
    }

    /** The end of `full_refresh`. */
    method RefreshCursor(ghost fb0: seq<u32>)
      requires Shape() && queueLen == 0 && oldCursorX == cursorX && oldCursorY == cursorY
      requires NothingDeferred(pending[..])
      requires SameOutside(display, fb0, framebuffer[..])
      requires forall j :: 0 <= j < grid.Length ==> Shows(display, framebuffer[..], j, grid[..][j])
      modifies grid, pending, framebuffer
      ensures Valid() && grid[..] == old(grid[..]) == Cells()
      ensures framebuffer[..] == Render(display, fb0, View())
    {
      ghost var fb, cells := framebuffer[..], grid[..];
      NothingPending(display, cells, queue[..], pending[..]);
      if cursorEnabled {
        DrawCursor();
        assert grid[..] == cells && NothingDeferred(pending[..]);
      }
      if cursorX < display.cols && cursorY < display.rows {
        FlatIndex(cursorX, cursorY, display.rows, display.cols);
      }
      CursorRefreshed(display, fb0, fb, framebuffer[..], cells, cursorX, cursorY, cursorEnabled);
      NothingPending(display, grid[..], queue[..], pending[..]);
      RenderIsFrame(display, fb0, cells, View());
    }

    /** `flanterm_fb_init` from a successful allocation on. The font is the caller's or the built-in one. */
    constructor (fb: array<u32>, width: nat, height: nat, pitch: nat, picture: Option<seq<u32>>, colours: Palette,
                 fontBits: seq<byte>, fontWidth: nat, fontHeight: nat, fontSpacing: nat, scaleX: nat, scaleY: nat,
                   margin: nat)
      requires width <= pitch / 4 && fb.Length == height * (pitch / 4) && width * height * 4 < U64_LIMIT
      requires fontWidth + fontSpacing >= 8 && 1 <= fontHeight <= 256 && scaleX >= 1 && scaleY >= 1
      requires |fontBits| >= GLYPHS * fontHeight
      requires margin * 2 + (fontWidth + fontSpacing) * scaleX <= width
      requires margin * 2 + fontHeight * scaleY <= height
      requires picture.Some? ==> |picture.value| == width * height
      modifies fb
      ensures Valid() && framebuffer == fb && palette == colours
      ensures fresh(grid) && fresh(queue) && fresh(pending)
      ensures display == MakeDisplay(width, height, pitch / 4, fontWidth + fontSpacing, fontHeight, scaleX, scaleY,
        margin,
        ExpandedFont(fontBits, fontWidth + fontSpacing, fontHeight), Canvas(width, height, picture, colours))
      ensures View() == InitialScreen(display.rows, display.cols, colours.defaultFg)
      ensures framebuffer[..] == Render(display, OverCanvas(display, old(fb[..])), View())
      ensures ScreenShown(display, framebuffer[..], View())
    {
      hide ScreenShown, Render, OverCanvas, ExpandedFont, Lines;
      var expanded := ExpandFont(fontBits, fontWidth + fontSpacing, fontHeight);
      var canvas := Canvas(width, height, picture, colours);
      var d := MakeDisplay(width, height, pitch / 4, fontWidth + fontSpacing, fontHeight, scaleX, scaleY, margin,
        expanded[..], canvas);
      MulMonotone(1, d.rows, d.cols);
      var size := d.rows * d.cols;
      var cells := new Cell[size](_ => Cell(SPACE, colours.defaultFg, TRANSPARENT));
      var items := new Item[size](_ => Item(0, 0, Cell(0, 0, 0)));
      var slots := new Option<nat>[size](_ => None);
      display, palette, framebuffer, grid, queue, pending := d, colours, fb, cells, items, slots;
      queueLen := 0;
      textFg, textBg := colours.defaultFg, TRANSPARENT;
      cursorX, cursorY, oldCursorX, oldCursorY := 0, 0, 0, 0;
      savedFg, savedBg, savedX, savedY := 0, 0, 0, 0;
      scrollTop, scrollBottom, scrollEnabled, cursorEnabled := 0, d.rows, true, true;
      new;
      FullRefresh();
      InitialLines(display.rows, display.cols, Cells(), colours.defaultFg);
    }
  }
}
