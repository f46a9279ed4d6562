/** The terminal as a function of the bytes it reads (kernel/flanterm/flanterm.c). Numbers of control
    functions are the bytes that select them; their letters stand beside them. */
module Terminals {
  import opened Basics
  import opened Screens
  import opened Editing
  import opened Sgr
  import opened Wcwidth

  const MAX_VALUES := 16

  /** What is fixed once the terminal exists: colours and the tables that are data. */
  datatype Config = Config(palette: Palette, table: ColourTable, codePage: nat -> Option<byte>, combining: Table)

  datatype Charset = Default | DecSpecial

  /** Escape sequence and UTF-8 decoding state. */
  datatype RawParser = RawParser(
    escape: bool, csi: bool, controlSequence: bool, osc: bool, oscEscape: bool,
    rrr: bool, discardNext: bool, decPrivate: bool,
    escapeOffset: nat,
    count: nat, values: seq<u32>,        // esc_values_i, esc_values
    codePoint: nat, unicodeRemaining: nat,
    gSelect: nat)

  predicate ParserOk(p: RawParser) {
    |p.values| == MAX_VALUES && p.count <= MAX_VALUES && (p.rrr ==> p.count < MAX_VALUES)
  }

  type Parser = p: RawParser | ParserOk(p)
    witness RawParser(false, false, false, false, false, false, false, false, 0, 0, seq(16, _ => 0), 0, 0, 0)

  datatype Rendition = Rendition(bold: bool, bgBold: bool, reverse: bool, primary: Option<nat>, background: Option<nat>)

  predicate RenditionOk(r: Rendition) {
    && (r.primary.Some? ==> r.primary.value < 8)
    && (r.background.Some? ==> r.background.value < 8)
  }

  datatype RawTerm = RawTerm(
    screen: Screen,
    parser: Parser,
    rendition: Rendition, savedRendition: Rendition,
    charsets: seq<Charset>,
    currentCharset: nat, savedCharset: nat,
    insertMode: bool, autoflush: bool, newlineReturns: bool,
    tabSize: nat,
    savedX: nat, savedY: nat)            // CSI s

  /** The state of the screen between two bytes. */
  predicate Settled(s: Screen) {
    s.top < s.bottom && s.scrollEnabled && CursorIn(s)
  }

  predicate TermOk(t: RawTerm) {
    && Settled(t.screen)
    && RenditionOk(t.rendition) && RenditionOk(t.savedRendition)
    && |t.charsets| == 2 && t.currentCharset < 2 && t.savedCharset < 2
    && t.tabSize >= 1
    && t.savedX < t.screen.cols && t.savedY < t.screen.rows
  }

  /** A terminal between two bytes. */
  type Term = t: RawTerm | TermOk(t)
    witness RawTerm(
      RawScreen(1, 1, [[Cell(0x20, 0, 0)]], 0, 0, 0, 0, 0, 0, 0, 0, 0, 1, true, true),
      RawParser(false, false, false, false, false, false, false, false, 0, 0, seq(16, _ => 0), 0, 0, 0),
      Rendition(false, false, false, None, None), Rendition(false, false, false, None, None),
      [Default, Default], 0, 0, false, true, true, 8, 0, 0)

  function WithParser(t: Term, p: Parser): (r: Term)
    ensures r.parser == p && r.screen == t.screen && r.autoflush == t.autoflush
  {
    t.(parser := p)
  }

  function WithScreen(t: Term, s: Screen): (r: Term)
    requires Follows(t.screen, s)
    ensures r.screen == s && r.parser == t.parser && r.autoflush == t.autoflush
  {
    t.(screen := s)
  }

  /** Same size, and settled if the screen before was. */
  predicate Follows(s: Screen, r: Screen) {
    r.rows == s.rows && r.cols == s.cols && (Settled(s) ==> Settled(r))
  }

  /** `flanterm_context_reinit`: everything but the colours and the cursor position goes back to its
      initial value; the parameter values and the code point keep theirs. */
  function Reinit(t: Term): Term {
    RawTerm(t.screen.(cursorEnabled := true, top := 0, bottom := t.screen.rows), ResetParser(t.parser),
      Rendition(false, false, false, None, None), t.savedRendition,
      [Default, DecSpecial], 0, t.savedCharset, false, true, true, 8, 0, 0)
  }

  function ResetParser(p: Parser): Parser {
    RawParser(false, false, false, false, false, false, false, false, 0, 0, p.values, p.codePoint, 0, 0)
  }

  const ZeroedParser: Parser :=
    RawParser(false, false, false, false, false, false, false, false, 0, 0,
      [0, 0, 0, 0, 0, 0, 0, 0, 0, 0, 0, 0, 0, 0, 0, 0], 0, 0, 0)

  /** Zeroed memory over a fresh backend (colour 0 on colour 0), except that a tab size of zero, which
      `flanterm_context_reinit` is about to overwrite, is left out. */
  function ZeroedTerm(s: Screen): Term
    requires Settled(s)
  {
    RawTerm(s, ZeroedParser, Rendition(false, false, false, Some(0), Some(0)),
      Rendition(false, false, false, Some(0), Some(0)),
      [Default, Default], 0, 0, false, false, false, 8, 0, 0)
  }

  // ---- Rendition

  function PenOf(t: Term): Pen {
    RawPen(t.rendition.bold, t.rendition.bgBold, t.rendition.reverse, t.rendition.primary, t.rendition.background,
      t.screen.textFg, t.screen.textBg)
  }

  function WithPen(t: Term, pen: Pen): (r: Term)
    ensures r.parser == t.parser && r.autoflush == t.autoflush
  {
    t.(screen := t.screen.(textFg := pen.fg, textBg := pen.bg),
       rendition := Rendition(pen.bold, pen.bgBold, pen.reverse, pen.primary, pen.background))
  }

  // ---- Control sequences

  /** The parameter values a control sequence ends up with: 0 or 1 where none was given. */
  function DefaultValue(c: byte): u32 {
    match c
    case 0x4a | 0x4b | 0x71 => 0   // J K q
    case _ => 1
  }

  function FillValues(values: seq<u32>, count: nat, d: u32): (r: seq<u32>)
    requires count <= |values|
    ensures |r| == |values|
  {
    seq(|values|, i requires 0 <= i < |values| => if i < count then values[i] else d)
  }

  /** A parameter clamped to what is left of the way to the edge. */
  function AtMost(v: u32, limit: nat): u32 {
    if v > limit then limit else v
  }

  /** A one-based coordinate made zero-based and clamped; zero wraps to the largest value first. */
  function FromOne(v: u32, limit: nat): u32
    requires limit >= 1
  {
    var w := ToU32(v - 1);
    if w >= limit then limit - 1 else w
  }

  /** The same for CUP, where zero stays zero. */
  function FromOneOrZero(v: u32, limit: nat): u32
    requires limit >= 1
  {
    var w := if v != 0 then v - 1 else v;
    if w >= limit then limit - 1 else w
  }

  /** Destination row of cursor up: a move that meets a margin stops at the top margin. */
  function RowUp(s: Screen, y: nat, n: nat): nat
    requires n <= y
  {
    var dest := y - n;
    var meets := dest <= s.top <= y || dest <= s.bottom <= y;
    if meets && dest < s.top then s.top else dest
  }

  /** Destination row of cursor down: a move that meets a margin stops before the bottom margin. */
  function RowDown(s: Screen, y: nat, n: nat): nat {
    var dest := y + n;
    var meets := y <= s.top <= dest || y <= s.bottom <= dest;
    if meets && dest >= s.bottom then s.bottom - 1 else dest
  }

  predicate Keeps(s: Screen, r: Screen) {
    SameSettings(s, r) && (CursorIn(s) ==> CursorIn(r))
  }

  /** ED 0 writes blanks from the cursor to the end, ED 1 from the start through the cursor. */
  function EraseToEnd(s: Screen, x: nat, y: nat): (r: Screen)
    requires x < s.cols && y < s.rows
    ensures Keeps(s, r)
  {
    SetCursor(RawPuts(s, SPACE, BlanksToEnd(s.rows, s.cols, x, y)), ToU64(x), ToU64(y))
  }

  function BlanksToEnd(rows: nat, cols: nat, x: nat, y: nat): nat
    requires x < cols && y < rows
  {
    (rows - (y + 1)) * cols + (cols - (x + 1)) + 1
  }

  /** The number as the source counts it: the rows below, and what is left of the cursor's row. */
  lemma BlanksCounted(rows: nat, cols: nat, x: nat, y: nat)
    requires x < cols && y < rows
    ensures BlanksToEnd(rows, cols, x, y) == (rows - (y + 1)) * cols + (cols - (x + 1)) + 1
  {
  }

  function EraseFromStart(s: Screen, x: nat, y: nat): (r: Screen)
    ensures Keeps(s, r)
  {
    SetCursor(RawPuts(SetCursor(s, 0, 0), SPACE, y * s.cols + x + 1), ToU64(x), ToU64(y))
  }

  function EraseDisplay(s: Screen, mode: u32, x: nat, y: nat): (r: Screen)
    requires x < s.cols && y < s.rows
    ensures Keeps(s, r)
  {
    match mode
    case 0 => EraseToEnd(s, x, y)
    case 1 => EraseFromStart(s, x, y)
    case 2 | 3 => Clear(s, false)
    case _ => s
  }

  function EraseLine(s: Screen, mode: u32, x: nat, y: nat): (r: Screen)
    requires x < s.cols
    ensures Keeps(s, r)
  {
    match mode
    case 0 => SetCursor(RawPuts(s, SPACE, s.cols - x), ToU64(x), ToU64(y))
    case 1 => RawPuts(SetCursor(s, 0, ToU64(y)), SPACE, x)
    case 2 => SetCursor(RawPuts(SetCursor(s, 0, ToU64(y)), SPACE, s.cols), ToU64(x), ToU64(y))
    case _ => s
  }

  function InsertCharacters(s: Screen, n: u32, x: nat, y: nat): (r: Screen)
    requires x < s.cols
    ensures Keeps(s, r)
  {
    SetCursor(InsertDownTo(s, y, n, x), ToU64(x), ToU64(y))
  }

  function EraseCharacters(s: Screen, n: u32, x: nat, y: nat): (r: Screen)
    ensures Keeps(s, r)
  {
    SetCursor(RawPuts(s, SPACE, n), ToU64(x), ToU64(y))
  }

  /** Delete character falls through to erase character with the cursor `n` columns before the edge. */
  function DeleteCharacters(s: Screen, n: u32, x: nat, y: nat): (r: Screen)
    ensures Keeps(s, r)
  {
    var moved := DeleteUpTo(s, x, y, n, s.cols);
    EraseCharacters(SetCursor(moved, ToU64(s.cols - n), ToU64(y)), n, x, y)
  }

  function InsertLines(s: Screen, n: u32, y: nat): (r: Screen)
    requires y < s.rows
    ensures Keeps(s, r)
  {
    RevScrollTimes(s.(top := y), n).(top := s.top)
  }

  /** The margins that DECSTBM leaves: those asked for if they enclose at least two rows of the screen. */
  function Margins(rows: nat, count: nat, v0: u32, v1: u32): (nat, nat)
    requires rows >= 1
  {
    var top := if count > 0 then (if v0 == 0 then 0 else v0 - 1) else 0;
    var bottom := if count > 1 then (if v1 == 0 then 1 else v1) else rows;
    if top >= rows || bottom > rows || top >= bottom - 1 then (0, rows) else (top, bottom)
  }

  /** A margin of zero is taken as one. */
  lemma MarginsOfZero(rows: nat, count: nat, v0: u32, v1: u32)
    requires rows >= 1
    ensures Margins(rows, count, v0, v1) == Margins(rows, count, if v0 == 0 then 1 else v0, if v1 == 0 then 1 else v1)
  {
  }

  /** Cursor motions: final byte `c`, parameter values, cursor at (x, y). */
  function MoveCursor(s: Screen, c: byte, values: seq<u32>, x: nat, y: nat): (r: Screen)
    requires |values| == MAX_VALUES && x < s.cols && y < s.rows
    ensures Keeps(s, r)
  {
    var v := values[0];
    match c
    case 0x46 => SetCursor(s, 0, ToU64(RowUp(s, y, AtMost(v, y))))                                // F
    case 0x41 => SetCursor(s, ToU64(x), ToU64(RowUp(s, y, AtMost(v, y))))                         // A
    case 0x45 => SetCursor(s, 0, ToU64(RowDown(s, y, AtMost(v, s.rows - 1 - y))))                 // E
    case 0x65 | 0x42 => SetCursor(s, ToU64(x), ToU64(RowDown(s, y, AtMost(v, s.rows - 1 - y))))   // e B
    case 0x61 | 0x43 => SetCursor(s, ToU64(x + AtMost(v, s.cols - 1 - x)), ToU64(y))              // a C
    case 0x44 => SetCursor(s, ToU64(x - AtMost(v, x)), ToU64(y))                                  // D
    case 0x64 => SetCursor(s, ToU64(x), FromOne(v, s.rows))                                       // d
    case 0x47 | 0x60 => SetCursor(s, FromOne(v, s.cols), ToU64(y))                                // G `
    case 0x48 | 0x66 => SetCursor(s, FromOneOrZero(values[1], s.cols), FromOneOrZero(v, s.rows))  // H f
    case _ => s
  }

  /** Scrolling, erasing, inserting and deleting. */
  function EditScreen(s: Screen, c: byte, v: u32, x: nat, y: nat): (r: Screen)
    requires x < s.cols && y < s.rows
    ensures Keeps(s, r)
  {
    match c
    case 0x4d => ScrollTimes(s, v)              // M
    case 0x4c => InsertLines(s, v, y)           // L
    case 0x4a => EraseDisplay(s, v, x, y)       // J
    case 0x40 => InsertCharacters(s, v, x, y)   // @
    case 0x50 => DeleteCharacters(s, v, x, y)   // P
    case 0x58 => EraseCharacters(s, v, x, y)    // X
    case 0x4b => EraseLine(s, v, x, y)          // K
    case _ => s
  }

  predicate IsMotion(c: byte) {
    c in {0x46, 0x41, 0x45, 0x65, 0x42, 0x61, 0x43, 0x44, 0x64, 0x47, 0x60, 0x48, 0x66}
  }

  function SetMargins(s: Screen, values: seq<u32>, count: nat): (r: Screen)
    requires |values| == MAX_VALUES
    ensures r.top < r.bottom && r.rows == s.rows && Keeps(s, r.(top := s.top, bottom := s.bottom))
  {
    var (top, bottom) := Margins(s.rows, count, values[0], values[1]);
    SetCursor(s.(top := top, bottom := bottom), 0, 0)
  }

  function ScreenControl(s: Screen, c: byte, values: seq<u32>, count: nat, x: nat, y: nat): (r: Screen)
    requires |values| == MAX_VALUES && x < s.cols && y < s.rows
    ensures r.rows == s.rows && Keeps(s, r.(top := s.top, bottom := s.bottom))
    ensures s.top < s.bottom ==> r.top < r.bottom
  {
    if c == 0x72 then SetMargins(s, values, count)   // r
    else if IsMotion(c) then MoveCursor(s, c, values, x, y)
    else EditScreen(s, c, values[0], x, y)
  }

  /** The values that a control function leaves behind after clamping its parameters in place. */
  function ClampedValues(s: Screen, c: byte, values: seq<u32>, x: nat, y: nat): (r: seq<u32>)
    requires |values| == MAX_VALUES && x < s.cols && y < s.rows
    ensures |r| == |values|
  {
    var v := values[0];
    match c
    case 0x46 | 0x41 => values[0 := AtMost(v, y)]
    case 0x45 | 0x65 | 0x42 => values[0 := AtMost(v, s.rows - 1 - y)]
    case 0x61 | 0x43 => values[0 := AtMost(v, s.cols - 1 - x)]
    case 0x44 => values[0 := AtMost(v, x)]
    case 0x64 => values[0 := FromOne(v, s.rows)]
    case 0x47 | 0x60 => values[0 := FromOne(v, s.cols)]
    case 0x48 | 0x66 => values[0 := FromOneOrZero(v, s.rows)][1 := FromOneOrZero(values[1], s.cols)]
    case 0x72 => values[0 := if v == 0 then 1 else v][1 := if values[1] == 0 then 1 else values[1]]
    case _ => values
  }

  /** Control functions leave the parser alone but for the parameters they clamp in place. */
  predicate SameParser(t: Term, r: Term) {
    r.autoflush == t.autoflush && r.parser == t.parser.(values := r.parser.values)
  }

  /** `?h` and `?l`: mode 25 is the cursor. */
  function DecMode(t: Term, c: byte): (r: Term)
    ensures SameParser(t, r)
  {
    if t.parser.count > 0 && (c == 0x68 || c == 0x6c) && t.parser.values[0] == 25 then
      WithScreen(t, WithCursor(t.screen, c == 0x68))
    else t
  }

  function WithCursor(s: Screen, enabled: bool): (r: Screen)
    ensures Follows(s, r)
  {
    s.(cursorEnabled := enabled)
  }

  /** `h` and `l`: mode 4 is insert mode. */
  function Mode(t: Term, c: byte): (r: Term)
    ensures SameParser(t, r)
  {
    if t.parser.count > 0 && t.parser.values[0] == 4 then t.(insertMode := c == 0x68) else t
  }

  /** The control function with final byte `c`. */
  function Control(cfg: Config, t: Term, c: byte): (r: Term)
    ensures SameParser(t, r)
  {
    hide WithPen, WithScreen, SaveCursorTerm, Mode, ScreenFunction, SelectRendition, PenOf;
    match c
    case 0x6d => WithPen(t, SelectRendition(cfg.palette, cfg.table, PenOf(t), t.parser.values[..t.parser.count]))   // m
    case 0x73 => SaveCursorTerm(t)                                                                                  // s
    case 0x75 => WithScreen(t, SetCursor(t.screen, ToU64(t.savedX), ToU64(t.savedY)))                               // u
    case 0x6c | 0x68 => Mode(t, c)                                                                            // l h
    case _ => ScreenFunction(t, c)
  }

  function SaveCursorTerm(t: Term): (r: Term)
    ensures r.parser == t.parser && r.autoflush == t.autoflush
  {
    t.(savedX := GetX(t.screen), savedY := GetY(t.screen))
  }

  function ScreenFunction(t: Term, c: byte): (r: Term)
    ensures SameParser(t, r)
  {
    WithParser(WithScreen(t, OnScreen(t.screen, c, t.parser.values, t.parser.count)), Clamped(t, c))
  }

  function Clamped(t: Term, c: byte): Parser {
    t.parser.(values := ClampedValues(t.screen, c, t.parser.values, GetX(t.screen), GetY(t.screen)))
  }

  /** While a control function runs, characters written in the last row do not scroll. */
  function OnScreen(s: Screen, c: byte, values: seq<u32>, count: nat): (r: Screen)
    requires |values| == MAX_VALUES
    ensures Follows(s, r)
  {
    ScreenControl(s.(scrollEnabled := false), c, values, count, GetX(s), GetY(s)).(scrollEnabled := true)
  }

  /** The end of a control sequence: unread parameters get their default and the function is carried out. */
  function Dispatch(cfg: Config, t: Term, c: byte): (r: Term)
    ensures t.autoflush ==> r.autoflush
  {
    var f := WithParser(t, WithDefaults(t.parser, c));
    Finish(if t.parser.decPrivate then DecMode(f, c) else Control(cfg, f, c))
  }

  function WithDefaults(p: Parser, c: byte): Parser {
    p.(values := FillValues(p.values, p.count, DefaultValue(c)))
  }

  function Finish(t: Term): (r: Term)
    ensures t.autoflush ==> r.autoflush
  {
    WithParser(t, EndSequence(t.parser))
  }

  function DiscardSequence(p: Parser): Parser {
    p.(discardNext := true, controlSequence := false, escape := false)
  }

  function EndSequence(p: Parser): Parser {
    p.(decPrivate := false, controlSequence := false, escape := false)
  }

  /** Bytes that a control sequence collects: digits, `;`, and `[` or `?` in first place. */
  predicate Collects(p: Parser, c: byte) {
    (p.escapeOffset == 2 && (c == 0x5b || c == 0x3f)) || 0x30 <= c <= 0x39 || c == 0x3b
  }

  function Collect(p: Parser, c: byte): Parser
    requires Collects(p, c)
  {
    if c == 0x5b then DiscardSequence(p)
    else if c == 0x3f then p.(decPrivate := true)
    else if c == 0x3b then (if p.rrr then EndValue(p) else EmptyValue(p))
    else Digit(p, c)
  }

  /** A parameter being typed is complete. */
  function EndValue(p: Parser): (r: Parser)
    ensures !r.rrr
  {
    if p.rrr then p.(rrr := false, count := p.count + 1) else p
  }

  /** One byte of a control sequence. */
  function ControlSequence(cfg: Config, t: Term, c: byte): (r: Term)
    ensures t.autoflush ==> r.autoflush
  {
    if Collects(t.parser, c) then WithParser(t, Collect(t.parser, c))
    else Dispatch(cfg, WithParser(t, EndValue(t.parser)), c)
  }

  /** `v *= 10; v += d` in 32 bits. */
  function AppendDigit(v: u32, d: nat): u32 {
    ToU32(v * 10 + d)
  }

  /** A digit of the current parameter; values past the sixteenth are dropped. */
  function Digit(p: Parser, c: byte): Parser
    requires 0x30 <= c <= 0x39
  {
    if p.count == MAX_VALUES then p
    else
      p.(rrr := true, values := p.values[p.count := AppendDigit(p.values[p.count], c - 0x30)])
  }

  /** A parameter left out before a `;` is zero. */
  function EmptyValue(p: Parser): Parser
    requires !p.rrr
  {
    if p.count == MAX_VALUES then p
    else p.(values := p.values[p.count := 0], count := p.count + 1)
  }

  // ---- Escape sequences

  /** One byte of an operating system command, which only its terminator ends. */
  function OscByte(p: Parser, c: byte): Parser {
    if (p.oscEscape && c == 0x5c) || c == 0x07 then p.(oscEscape := false, osc := false, escape := false)
    else p.(oscEscape := c == 0x1b)
  }

  function BeginControlSequence(p: Parser): Parser {
    p.(values := ZeroedParser.values, count := 0, rrr := false, controlSequence := true, csi := false)
  }

  function SaveTerm(t: Term): (r: Term)
    ensures r.parser == t.parser && r.autoflush == t.autoflush
  {
    t.(screen := Saved(t.screen), savedRendition := t.rendition, savedCharset := t.currentCharset)
  }

  function RestoreTerm(t: Term): (r: Term)
    ensures r.parser == t.parser && r.autoflush == t.autoflush
  {
    t.(screen := Restored(t.screen), rendition := t.savedRendition, currentCharset := t.savedCharset)
  }

  function ResetTerm(t: Term): (r: Term)
    ensures r.parser == ResetParser(t.parser) && r.autoflush
  {
    WithScreen(Reinit(t), Clear(Reinit(t).screen, true))
  }

  /** Line feed: scrolls in the last row of the region, else moves down; then column `x`. */
  function Feed(s: Screen, x: nat, y: nat): (r: Screen)
    ensures Follows(s, r)
  {
    if y == s.bottom - 1 then SetCursor(Scroll(s), ToU64(x), ToU64(y)) else SetCursor(s, ToU64(x), ToU64(y + 1))
  }

  function ReverseFeed(s: Screen, y: nat): (r: Screen)
    ensures Follows(s, r)
  {
    if y == s.top then SetCursor(RevScroll(s), 0, ToU64(y)) else SetCursor(s, 0, ToU64(y - 1))
  }

  function EscapeParser(p: Parser, c: byte): Parser {
    match c
    case 0x63 => ResetParser(p)
    case 0x28 | 0x29 => p.(gSelect := c - 0x27)
    case _ => p
  }

  /** ESC 7, ESC 8 and ESC c: save, restore, reset. */
  function StateFunction(t: Term, c: byte): (r: Term)
    ensures t.autoflush ==> r.autoflush
  {
    if c == 0x37 then SaveTerm(t) else if c == 0x38 then RestoreTerm(t) else ResetTerm(t)
  }

  /** ESC D, ESC E and ESC M: index, next line, reverse index. */
  function LineFunction(t: Term, c: byte): (r: Term)
    ensures r.parser == t.parser && r.autoflush == t.autoflush
  {
    var s := t.screen;
    if c == 0x44 then WithScreen(t, Feed(s, GetX(s), GetY(s)))
    else if c == 0x45 then WithScreen(t, Feed(s, 0, GetY(s)))
    else WithScreen(t, ReverseFeed(s, GetY(s)))
  }

  /** The byte after ESC that selects a function of its own. */
  function EscapeFunction(t: Term, c: byte): (r: Term)
    ensures t.autoflush ==> r.autoflush
  {
    match c
    case 0x37 | 0x38 | 0x63 => StateFunction(t, c)                    // 7 8 c
    case 0x44 | 0x45 | 0x4d => LineFunction(t, c)                     // D E M
    case 0x28 | 0x29 => SelectNext(t, c)                              // ( )
    case _ => t
  }

  /** The next byte names character set G0 or G1. */
  function SelectNext(t: Term, c: byte): (r: Term)
    requires c == 0x28 || c == 0x29
    ensures t.autoflush ==> r.autoflush
  {
    WithParser(t, t.parser.(gSelect := c - 0x27))
  }

  /** A byte read after ESC. After the one-byte introducer 0x9B the next byte is not looked at. */
  function EscapeByte(cfg: Config, t: Term, c: byte): (r: Term)
    ensures t.autoflush ==> r.autoflush
  {
    EscapeStep(cfg, CountByte(t), c)
  }

  function CountByte(t: Term): (r: Term)
    ensures t.autoflush ==> r.autoflush
  {
    WithParser(t, t.parser.(escapeOffset := t.parser.escapeOffset + 1))
  }

  function EscapeStep(cfg: Config, t: Term, c: byte): (r: Term)
    ensures t.autoflush ==> r.autoflush
  {
    var p := t.parser;
    if p.osc then WithParser(t, OscByte(p, c))
    else if p.controlSequence then ControlSequence(cfg, t, c)
    else if p.csi || c == 0x5b then WithParser(t, BeginControlSequence(p))        // [
    else if c == 0x5d then WithParser(t, p.(oscEscape := false, osc := true))     // ]
    else EndEscape(EscapeFunction(t, c))
  }

  function EndEscape(t: Term): (r: Term)
    ensures t.autoflush ==> r.autoflush
  {
    WithParser(t, t.parser.(escape := false))
  }

  // ---- Characters

  /** The line drawing characters. */
  function DecSpecialGlyph(c: byte): Option<byte> {
    match c
    case 0x60 => Some(0x04)
    case 0x30 => Some(0xdb)
    case 0x2d => Some(0x18)
    case 0x2c => Some(0x1b)
    case 0x2e => Some(0x19)
    case 0x61 => Some(0xb1)
    case 0x66 => Some(0xf8)
    case 0x67 => Some(0xf1)
    case 0x68 => Some(0xb0)
    case 0x6a => Some(0xd9)
    case 0x6b => Some(0xbf)
    case 0x6c => Some(0xda)
    case 0x6d => Some(0xc0)
    case 0x6e => Some(0xc5)
    case 0x71 => Some(0xc4)
    case 0x73 => Some(0x5f)
    case 0x74 => Some(0xc3)
    case 0x75 => Some(0xb4)
    case 0x76 => Some(0xc1)
    case 0x77 => Some(0xc2)
    case 0x78 => Some(0xb3)
    case 0x79 => Some(0xf3)
    case 0x7a => Some(0xf2)
    case 0x7e => Some(0xfa)
    case 0x5f => Some(0xff)
    case 0x2b => Some(0x1a)
    case 0x7b => Some(0xe3)
    case 0x7d => Some(0x9c)
    case _ => None
  }

  /** Characters written between control sequences, where the last row scrolls. */
  function Print(s: Screen, c: byte, n: nat): (r: Screen)
    ensures r == RawPuts(s, c, n) && Follows(s, r)
  {
    if n == 0 then s else RawPut(Print(s, c, n - 1), c)
  }

  /** A decoded code point: its code page glyph, or a box followed by blanks as wide as the character. */
  ghost function WriteCodePoint(cfg: Config, s: Screen, cp: nat): (r: Screen)
    ensures Follows(s, r)
  {
    match cfg.codePage(cp)
    case Some(glyph) => Print(s, glyph, 1)
    case None =>
      var width := Width(cfg.combining, ToU32(cp));
      if width > 0 then Print(Print(s, 0xfe, 1), SPACE, width - 1) else s
  }

  /** `tab_size` columns per tab stop; the last column when the stop's number is not below the number of columns. */
  function Tab(t: Term, x: nat, y: nat): (r: Screen)
    ensures Follows(t.screen, r)
  {
    var stop := x / t.tabSize + 1;
    if stop >= t.screen.cols then SetCursor(t.screen, ToU64(t.screen.cols - 1), ToU64(y))
    else SetCursor(t.screen, ToU64(stop * t.tabSize), ToU64(y))
  }

  /** C0 controls and DEL. */
  predicate IsControlByte(c: byte) {
    c in {0x00, 0x7f, 0x9b, 0x1b, 0x09, 0x0b, 0x0c, 0x0a, 0x08, 0x0d, 0x07, 0x0e, 0x0f}
  }

  function BeginEscape(p: Parser, csi: bool): Parser {
    p.(csi := csi, escapeOffset := 0, escape := true)
  }

  function ControlByte(t: Term, c: byte): (r: Term)
    ensures t.autoflush ==> r.autoflush
  {
    var s := t.screen;
    var x, y := GetX(s), GetY(s);
    match c
    case 0x9b => WithParser(t, BeginEscape(t.parser, true))
    case 0x1b => WithParser(t, BeginEscape(t.parser, t.parser.csi))
    case 0x09 => WithScreen(t, Tab(t, x, y))
    case 0x0b | 0x0c | 0x0a => WithScreen(t, Feed(s, if t.newlineReturns then 0 else x, y))
    case 0x08 => WithScreen(t, SetCursor(s, ToU64(x - 1), ToU64(y)))
    case 0x0d => WithScreen(t, SetCursor(s, 0, ToU64(y)))
    case 0x0e => t.(currentCharset := 1)
    case 0x0f => t.(currentCharset := 0)
    case _ => t
  }

  function CharsetOf(t: Term): Charset {
    t.charsets[t.currentCharset]
  }

  /** A character of the selected set. */
  function Glyph(t: Term, c: byte): Option<byte> {
    if CharsetOf(t).DecSpecial? && DecSpecialGlyph(c).Some? then DecSpecialGlyph(c)
    else if 0x20 <= c <= 0x7e then Some(c)
    else None
  }

  function WriteByte(t: Term, c: byte): (r: Term)
    ensures t.autoflush ==> r.autoflush
  {
    var s := if t.insertMode then ShiftDownTo(t.screen, GetY(t.screen), GetX(t.screen)) else t.screen;
    match Glyph(t, c)
    case Some(g) => WithScreen(t, Print(s, g, 1))
    case None => WithScreen(t, s)
  }

  /** The byte after ESC ( or ESC ) names a character set. */
  function SelectCharset(t: Term, c: byte): (r: Term)
    ensures t.autoflush ==> r.autoflush
  {
    EndSelect(NameCharset(t, if t.parser.gSelect == 1 then 0 else 1, c))
  }

  function NameCharset(t: Term, k: nat, c: byte): (r: Term)
    requires k < 2
    ensures r.parser == t.parser && r.autoflush == t.autoflush
  {
    match c
    case 0x42 => WithCharset(t, k, Default)
    case 0x30 => WithCharset(t, k, DecSpecial)
    case _ => t
  }

  function EndSelect(t: Term): Term {
    WithParser(t, t.parser.(gSelect := 0))
  }

  function WithCharset(t: Term, k: nat, charset: Charset): Term
    requires k < 2
  {
    t.(charsets := t.charsets[k := charset])
  }

  /** CAN and SUB, or the byte that a second `[` discards, cancel everything under way. */
  function Cancelled(p: Parser): Parser {
    RawParser(false, false, false, false, false, p.rrr, false, p.decPrivate, p.escapeOffset,
      p.count, p.values, p.codePoint, 0, 0)
  }

  /** The first byte of a UTF-8 sequence of two, three or four. */
  function LeadByte(p: Parser, c: byte): (r: Parser)
    requires 0xc0 <= c <= 0xf7
    ensures r == p.(unicodeRemaining := r.unicodeRemaining, codePoint := r.codePoint)
  {
    if c <= 0xdf then p.(unicodeRemaining := 1, codePoint := c % 0x20 * 0x40)
    else if c <= 0xef then p.(unicodeRemaining := 2, codePoint := c % 0x10 * 0x1000)
    else p.(unicodeRemaining := 3, codePoint := c % 8 * 0x40000)
  }

  /** A continuation byte fills in its six bits. */
  function ContinuationByte(p: Parser, c: byte): Parser
    requires p.unicodeRemaining > 0
  {
    var n := p.unicodeRemaining - 1;
    p.(unicodeRemaining := n, codePoint := BitOr(p.codePoint, c % 0x40 * Pow64(n)))
  }

  function Pow64(n: nat): (r: nat)
    ensures r >= 1
  {
    if n == 0 then 1 else 64 * Pow64(n - 1)
  }

  /** A byte outside any UTF-8 sequence. */
  function FreshByte(cfg: Config, t: Term, c: byte): (r: Term)
    ensures t.autoflush ==> r.autoflush
  {
    var p := t.parser;
    if 0xc0 <= c <= 0xf7 then WithParser(t, LeadByte(p, c))
    else if p.escape then EscapeByte(cfg, t, c)
    else if p.gSelect != 0 then SelectCharset(t, c)
    else if IsControlByte(c) then ControlByte(t, c)
    else WriteByte(t, c)
  }

  /** `flanterm_putchar` */
  ghost function PutChar(cfg: Config, t: Term, c: byte): (r: Term)
    ensures t.autoflush ==> r.autoflush
  {
    var p := t.parser;
    if p.discardNext || c == 0x18 || c == 0x1a then WithParser(t, Cancelled(p))
    else if p.unicodeRemaining != 0 then
      if c / 0x40 != 2 then FreshByte(cfg, WithParser(t, p.(unicodeRemaining := 0)), c)
      else
        var q := ContinuationByte(p, c);
        if q.unicodeRemaining != 0 then WithParser(t, q)
        else WithScreen(WithParser(t, q), WriteCodePoint(cfg, t.screen, q.codePoint))
    else FreshByte(cfg, t, c)
  }

  /** `flanterm_write` without the flush. */
  ghost function PutAll(cfg: Config, t: Term, buf: seq<byte>): (r: Term)
    ensures t.autoflush ==> r.autoflush
  {
    if |buf| == 0 then t else PutChar(cfg, PutAll(cfg, t, buf[..|buf| - 1]), buf[|buf| - 1])
  }
}
