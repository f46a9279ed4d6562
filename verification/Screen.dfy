/** The logical screen: what the terminal shows once every deferred write is painted. */
module Screens {
  import opened Basics

  /** One character cell. The glyph is a code-page-437 byte, since `raw_putchar` takes one. */
  datatype Cell = Cell(c: byte, fg: u32, bg: u32)

  const SPACE: byte := 0x20

  /** Colour value meaning "let the canvas show through". */
  const TRANSPARENT: u32 := 0xffff_ffff

  /** The colours chosen at initialisation. */
  datatype RawPalette = RawPalette(
    ansi: seq<u32>, bright: seq<u32>,
    defaultFg: u32, defaultBg: u32, defaultFgBright: u32, defaultBgBright: u32)

  type Palette = p: RawPalette | |p.ansi| == |p.bright| == 8
    witness RawPalette([0, 0, 0, 0, 0, 0, 0, 0], [0, 0, 0, 0, 0, 0, 0, 0], 0, 0, 0, 0)

  datatype RawScreen = RawScreen(
    rows: nat, cols: nat,
    lines: seq<seq<Cell>>,
    cursorX: nat, cursorY: nat,
    textFg: u32, textBg: u32,
    savedFg: u32, savedBg: u32,
    savedX: nat, savedY: nat,
    top: nat, bottom: nat,
    scrollEnabled: bool,
    cursorEnabled: bool)

  predicate WellFormed(s: RawScreen) {
    && 1 <= s.rows < U64_LIMIT && 1 <= s.cols < U64_LIMIT
    && |s.lines| == s.rows
    && (forall r :: 0 <= r < s.rows ==> |s.lines[r]| == s.cols)
    && s.top < s.rows
    && 1 <= s.bottom <= s.rows
  }

  type Screen = s: RawScreen | WellFormed(s)
    witness RawScreen(1, 1, [[Cell(0x20, 0, 0)]], 0, 0, 0, 0, 0, 0, 0, 0, 0, 1, true, true)

  function Blank(s: Screen): Cell {
    Cell(SPACE, s.textFg, s.textBg)
  }

  function BlankLine(s: Screen): seq<Cell> {
    seq(s.cols, _ => Blank(s))
  }

  /** Change of one cell; coordinates outside the screen are ignored. */
  function Put(s: Screen, cell: Cell, x: nat, y: nat): Screen {
    if x >= s.cols || y >= s.rows then s
    else s.(lines := s.lines[y := s.lines[y][x := cell]])
  }

  /** Rows of the scroll region move up by one and its last row becomes blank. */
  function Scroll(s: Screen): Screen {
    s.(lines := seq(s.rows, r requires 0 <= r < s.rows => ScrolledLine(s, r)))
  }

  function ScrolledLine(s: Screen, r: nat): (line: seq<Cell>)
    requires r < s.rows
    ensures |line| == s.cols
  {
    if r == s.bottom - 1 then BlankLine(s)
    else if s.top <= r < s.bottom - 1 then s.lines[r + 1]
    else s.lines[r]
  }

  /** Rows of the scroll region move down by one and its first row becomes blank. */
  function RevScroll(s: Screen): Screen {
    s.(lines := seq(s.rows, r requires 0 <= r < s.rows => RevScrolledLine(s, r)))
  }

  function RevScrolledLine(s: Screen, r: nat): (line: seq<Cell>)
    requires r < s.rows
    ensures |line| == s.cols
  {
    if r == s.top then BlankLine(s)
    else if s.top < r < s.bottom then s.lines[r - 1]
    else s.lines[r]
  }

  function BlankLines(s: Screen): (lines: seq<seq<Cell>>)
    ensures |lines| == s.rows
    ensures forall r :: 0 <= r < s.rows ==> lines[r] == BlankLine(s)
  {
    seq(s.rows, _ => BlankLine(s))
  }

  function Clear(s: Screen, move: bool): Screen {
    if move then s.(lines := BlankLines(s), cursorX := 0, cursorY := 0)
    else s.(lines := BlankLines(s))
  }

  /** `set_cursor_pos`: a coordinate past the edge goes to 0 if it reads as a negative `int`,
      and to the last column or row otherwise. */
  function Clamp(v: u64, limit: nat): (r: nat)
    requires limit >= 1
    ensures r < limit
    ensures v < limit ==> r == v
  {
    if v >= limit then (if IntIsNegative(v) then 0 else limit - 1) else v
  }

  function SetCursor(s: Screen, x: u64, y: u64): Screen {
    s.(cursorX := Clamp(x, s.cols), cursorY := Clamp(y, s.rows))
  }

  /** `get_cursor_pos` clamps what it reports to the screen. */
  function GetX(s: Screen): (x: nat)
    ensures x < s.cols
  {
    if s.cursorX >= s.cols then s.cols - 1 else s.cursorX
  }

  function GetY(s: Screen): (y: nat)
    ensures y < s.rows
  {
    if s.cursorY >= s.rows then s.rows - 1 else s.cursorY
  }

  function MoveCharacter(s: Screen, newX: nat, newY: nat, oldX: nat, oldY: nat): Screen {
    if oldX >= s.cols || oldY >= s.rows || newX >= s.cols || newY >= s.rows then s
    else Put(s, s.lines[oldY][oldX], newX, newY)
  }

  /** The deferred line wrap that precedes a character written in the column past the end. The
      row is clamped against the number of columns, as the source does. */
  function Wrap(s: Screen): Screen {
    if s.cursorX >= s.cols && (s.cursorY < s.bottom - 1 || s.scrollEnabled) then
      var atBottom := s.cursorY + 1 == s.bottom;
      var y := if atBottom then s.cursorY else s.cursorY + 1;
      (if atBottom then Scroll(s) else s).(cursorX := 0, cursorY := if y >= s.cols then s.cols - 1 else y)
    else s
  }

  function RawPut(s: Screen, c: byte): Screen {
    var t := Wrap(s);
    Put(t, Cell(c, t.textFg, t.textBg), t.cursorX, t.cursorY).(cursorX := t.cursorX + 1)
  }

  function Swapped(cell: Cell): Cell {
    cell.(fg := cell.bg, bg := cell.fg)
  }

  function Saved(s: Screen): Screen {
    s.(savedFg := s.textFg, savedBg := s.textBg, savedX := s.cursorX, savedY := s.cursorY)
  }

  function Restored(s: Screen): Screen {
    s.(textFg := s.savedFg, textBg := s.savedBg, cursorX := s.savedX, cursorY := s.savedY)
  }

  /** The screen `flanterm_fb_init` starts with. */
  function InitialScreen(rows: nat, cols: nat, fg: u32): Screen
    requires 1 <= rows < U64_LIMIT && 1 <= cols < U64_LIMIT
  {
    RawScreen(rows, cols, seq(rows, _ => seq(cols, _ => Cell(SPACE, fg, TRANSPARENT))),
      0, 0, fg, TRANSPARENT, 0, 0, 0, 0, 0, rows, true, true)
  }

  /** Everything but the contents and the cursor is the same. */
  predicate SameSettings(s: Screen, r: Screen) {
    && r.rows == s.rows && r.cols == s.cols
    && r.top == s.top && r.bottom == s.bottom
    && r.scrollEnabled == s.scrollEnabled && r.cursorEnabled == s.cursorEnabled
    && r.textFg == s.textFg && r.textBg == s.textBg
    && r.savedFg == s.savedFg && r.savedBg == s.savedBg
    && r.savedX == s.savedX && r.savedY == s.savedY
  }

  /** Where the cursor may be between two bytes: in a column, or just past the last one with a wrap
      pending; and in a row below the larger of the two sizes, since wrapping clamps against columns. */
  predicate CursorIn(s: RawScreen) {
    && s.cursorX <= s.cols && (s.cursorY < s.rows || s.cursorY < s.cols)
    && s.savedX <= s.cols && (s.savedY < s.rows || s.savedY < s.cols)
  }
}
