/** The terminal context and its methods (kernel/flanterm/flanterm.c), over the framebuffer backend. */
module TerminalObjects {
  import opened Basics
  import opened Screens
  import opened Editing
  import opened Sgr
  import opened Wcwidth
  import opened ParserSteps
  import opened Terminals
  import opened Pixels
  import opened GlyphPixels
  import opened FlatScreens
  import opened Framebuffers

  /** The terminal context. Its flags and numbers are grouped as in the specification: `parser` holds
      the escape sequence and UTF-8 state, `rendition` the attributes and colour numbers. */
  class Terminal {
    const cfg: Config
    const fb: FbContext

    var parser: Parser
    var rendition: Rendition
    var savedRendition: Rendition
    var charsets: seq<Charset>
    var currentCharset: nat
    var savedCharset: nat
    var insertMode: bool
    var autoflush: bool
    var newlineReturns: bool          // oob_output & ONLCR
    var tabSize: nat
    var savedCursorX: nat
    var savedCursorY: nat

    ghost predicate Shape()
      reads fb, fb.grid, fb.queue, fb.pending, fb.framebuffer
    {
      fb.Valid() && fb.palette == cfg.palette
    }

    ghost function RawView(): RawTerm
      requires Shape()
      reads this, fb, fb.grid, fb.queue, fb.pending, fb.framebuffer
    {
      RawTerm(fb.View(), parser, rendition, savedRendition, charsets, currentCharset, savedCharset,
        insertMode, autoflush, newlineReturns, tabSize, savedCursorX, savedCursorY)
    }

    ghost predicate Valid()
      reads this, fb, fb.grid, fb.queue, fb.pending, fb.framebuffer
    {
      Shape() && TermOk(RawView())
    }

    ghost function View(): Term
      requires Valid()
      reads this, fb, fb.grid, fb.queue, fb.pending, fb.framebuffer
    {
      RawView()
    }

    /** The part of `flanterm_fb_init` that concerns the terminal: zeroed memory, then
        `flanterm_context_reinit`, over a backend that has just been set up. */
    constructor (config: Config, backend: FbContext)
      requires backend.Valid() && backend.palette == config.palette && Settled(backend.View())
      modifies backend`scrollTop, backend`scrollBottom, backend`scrollEnabled, backend`cursorEnabled
      ensures Valid() && cfg == config && fb == backend
      ensures View() == Terminals.Reinit(ZeroedTerm(old(backend.View())))
    {
      cfg, fb := config, backend;
      parser := ZeroedParser;
      rendition := Rendition(false, false, false, Some(0), Some(0));
      savedRendition := Rendition(false, false, false, Some(0), Some(0));
      charsets, currentCharset, savedCharset := [Default, Default], 0, 0;
      insertMode, autoflush, newlineReturns, tabSize := false, false, false, 8;
      savedCursorX, savedCursorY := 0, 0;
      new;
      Reinit();
    }

    method Reinit()
      requires Valid()
      modifies this, fb`scrollTop, fb`scrollBottom, fb`scrollEnabled, fb`cursorEnabled
      ensures Valid()
      ensures View() == Terminals.Reinit(old(View()))
    {
      fb.SetModes(true, true);
      fb.SetMargins(0, fb.display.rows);
      ResetState();
    }

    method ResetState()
      modifies this
      ensures parser == ResetParser(old(parser)) && rendition == Rendition(false, false, false, None, None)
      ensures savedRendition == old(savedRendition) && savedCharset == old(savedCharset)
      ensures charsets == [Default, DecSpecial] && currentCharset == 0
      ensures tabSize == 8 && autoflush && !insertMode && newlineReturns && savedCursorX == 0 && savedCursorY == 0
    {
      parser := RawParser(false, false, false, false, false, false, false, false, 0, 0, parser.values, parser.codePoint,
        0, 0);
      rendition := Rendition(false, false, false, None, None);
      charsets, currentCharset := [Default, DecSpecial], 0;
      tabSize, autoflush, insertMode, newlineReturns := 8, true, false, true;
      savedCursorX, savedCursorY := 0, 0;
    }

    // ---- Loops of the control functions

    method PutTimes(c: byte, n: nat)
      requires fb.Valid()
      modifies fb`queueLen, fb`cursorX, fb`cursorY, fb.queue, fb.pending
      ensures fb.Valid()
      ensures fb.View() == RawPuts(old(fb.View()), c, n)
    {
      hide FbContext.Valid, FbContext.View, RawPut;
      var i := 0;
      while i < n
        invariant i <= n && fb.Valid()
        invariant fb.View() == RawPuts(old(fb.View()), c, i)
      {
        fb.RawPutchar(c);
        i := i + 1;
      }
    }

    method ScrollUp(n: nat)
      requires fb.Valid()
      modifies fb`queueLen, fb.queue, fb.pending
      ensures fb.Valid()
      ensures fb.View() == ScrollTimes(old(fb.View()), n)
    {
      hide FbContext.Valid, FbContext.View, Scroll;
      var i := 0;
      while i < n
        invariant i <= n && fb.Valid()
        invariant fb.View() == ScrollTimes(old(fb.View()), i)
      {
        fb.Scroll();
        i := i + 1;
      }
    }

    method RevScrollDown(n: nat)
      requires fb.Valid()
      modifies fb`queueLen, fb.queue, fb.pending
      ensures fb.Valid()
      ensures fb.View() == RevScrollTimes(old(fb.View()), n)
    {
      hide FbContext.Valid, FbContext.View, RevScroll;
      var i := 0;
      while i < n
        invariant i <= n && fb.Valid()
        invariant fb.View() == RevScrollTimes(old(fb.View()), i)
      {
        fb.RevScroll();
        i := i + 1;
      }
    }

    method InsertLines(n: nat, y: nat)
      requires fb.Valid() && y < fb.display.rows && n < U32_LIMIT
      modifies fb`queueLen, fb`scrollTop, fb.queue, fb.pending
      ensures fb.Valid()
      ensures fb.View() == Terminals.InsertLines(old(fb.View()), n, y)
    {
      var oldTop := fb.scrollTop;
      fb.scrollTop := y;
      RevScrollDown(n);
      fb.scrollTop := oldTop;
    }

    /** Row `yc` of erase in display: blanks up to the end of the row, or up to (x, y). */
    method EraseRow(x: nat, y: nat, yc: nat) returns (done: bool)
      requires fb.Valid() && x < fb.display.cols && yc <= y
      modifies fb`queueLen, fb`cursorX, fb`cursorY, fb.queue, fb.pending
      ensures fb.Valid() && (done <==> yc == y)
      ensures fb.View() == if done then SetCursor(RawPuts(old(fb.View()), SPACE, x + 1), ToU64(x), ToU64(y))
        else RawPuts(old(fb.View()), SPACE, fb.display.cols)
    {
      hide FbContext.Valid, FbContext.View, RawPut, SetCursor;
      ghost var s := fb.View();
      var xc := 0;
      done := false;
      while xc < fb.display.cols
        invariant xc <= fb.display.cols && fb.Valid()
        invariant yc == y ==> xc <= x
        invariant fb.View() == RawPuts(s, SPACE, xc)
      {
        fb.RawPutchar(SPACE);
        if xc == x && yc == y {
          fb.SetCursorPos(ToU64(x), ToU64(y));
          return true;
        }
        xc := xc + 1;
      }
    }

    method EraseFromStart(x: nat, y: nat)
      requires fb.Valid() && x < fb.display.cols && y < fb.display.rows
      modifies fb`queueLen, fb`cursorX, fb`cursorY, fb.queue, fb.pending
      ensures fb.Valid()
      ensures fb.View() == Terminals.EraseFromStart(old(fb.View()), x, y)
    {
      hide FbContext.Valid, FbContext.View, RawPut;
      fb.SetCursorPos(0, 0);
      ghost var s, cols, written := fb.View(), fb.display.cols, 0;
      var yc := 0;
      while yc < fb.display.rows
        invariant yc <= y && fb.Valid()
        invariant written == yc * cols
        invariant fb.View() == RawPuts(s, SPACE, written)
      {
        RawPutsAdd(s, SPACE, written, x + 1);
        RawPutsAdd(s, SPACE, written, cols);
        var done := EraseRow(x, y, yc);
        if done {
          break;
        }
        NextMultiple(yc, cols);
        yc, written := yc + 1, written + cols;
      }
    }

    /** One step of insert character. */
    method InsertOne(n: u32, y: nat, i: nat)
      requires fb.Valid() && i < fb.display.cols
      modifies fb`queueLen, fb`cursorX, fb`cursorY, fb.queue, fb.pending
      ensures fb.Valid()
      ensures fb.View() == InsertStep(old(fb.View()), y, n, i)
    {
      hide FbContext.Valid, FbContext.View, RawPut, SetCursor, MoveCharacter;
      fb.MoveCharacter(i + n, y, i, y);
      fb.SetCursorPos(ToU64(i), ToU64(y));
      fb.RawPutchar(SPACE);
    }

    method InsertCharacters(n: u32, x: nat, y: nat)
      requires fb.Valid() && x < fb.display.cols
      modifies fb`queueLen, fb`cursorX, fb`cursorY, fb.queue, fb.pending
      ensures fb.Valid()
      ensures fb.View() == Terminals.InsertCharacters(old(fb.View()), n, x, y)
    {
      hide FbContext.Valid, FbContext.View, InsertStep, SetCursor;
      ghost var s := fb.View();
      var i := fb.display.cols - 1;
      while true
        invariant x <= i < fb.display.cols && fb.Valid()
        invariant fb.View() == if i == fb.display.cols - 1 then s else InsertDownTo(s, y, n, i + 1)
        decreases i
      {
        InsertOne(n, y, i);
        if i == x {
          break;
        }
        i := i - 1;
      }
      fb.SetCursorPos(ToU64(x), ToU64(y));
    }

    /** The loop of delete character. */
    method CloseGap(n: u32, x: nat, y: nat)
      requires fb.Valid()
      modifies fb`queueLen, fb.queue, fb.pending
      ensures fb.Valid()
      ensures fb.View() == DeleteUpTo(old(fb.View()), x, y, n, fb.display.cols)
    {
      hide FbContext.Valid, FbContext.View, MoveCharacter;
      ghost var s := fb.View();
      var i := x + n;
      while i < fb.display.cols
        invariant x + n <= i && (i <= fb.display.cols || i == x + n) && fb.Valid()
        invariant fb.View() == DeleteUpTo(s, x, y, n, i)
      {
        fb.MoveCharacter(i - n, y, i, y);
        i := i + 1;
      }
    }

    method DeleteCharacters(n: u32, x: nat, y: nat)
      requires fb.Valid()
      modifies fb`queueLen, fb`cursorX, fb`cursorY, fb.queue, fb.pending
      ensures fb.Valid()
      ensures fb.View() == Terminals.DeleteCharacters(old(fb.View()), n, x, y)
    {
      hide FbContext.Valid, FbContext.View, DeleteUpTo, SetCursor, RawPuts;
      CloseGap(n, x, y);
      fb.SetCursorPos(ToU64(fb.display.cols - n), ToU64(y));
      EraseCharacters(n, x, y);
    }

    method EraseCharacters(n: u32, x: nat, y: nat)
      requires fb.Valid()
      modifies fb`queueLen, fb`cursorX, fb`cursorY, fb.queue, fb.pending
      ensures fb.Valid()
      ensures fb.View() == Terminals.EraseCharacters(old(fb.View()), n, x, y)
    {
      hide FbContext.Valid, FbContext.View, SetCursor, RawPuts;
      PutTimes(SPACE, n);
      fb.SetCursorPos(ToU64(x), ToU64(y));
    }

    method ShiftRight(x: nat, y: nat)
      requires fb.Valid() && x < fb.display.cols
      modifies fb`queueLen, fb.queue, fb.pending
      ensures fb.Valid()
      ensures fb.View() == ShiftDownTo(old(fb.View()), y, x)
    {
      hide FbContext.Valid, FbContext.View, MoveCharacter;
      ghost var s := fb.View();
      var i := fb.display.cols - 1;
      while true
        invariant x <= i < fb.display.cols && fb.Valid()
        invariant fb.View() == if i == fb.display.cols - 1 then s else ShiftDownTo(s, y, i + 1)
        decreases i
      {
        fb.MoveCharacter(i + 1, y, i, y);
        if i == x {
          break;
        }
        i := i - 1;
      }
    }

    method EraseToEnd(x: nat, y: nat)
      requires fb.Valid() && x < fb.display.cols && y < fb.display.rows
      modifies fb`queueLen, fb`cursorX, fb`cursorY, fb.queue, fb.pending
      ensures fb.Valid()
      ensures fb.View() == Terminals.EraseToEnd(old(fb.View()), x, y)
    {
      hide FbContext.Valid, FbContext.View, RawPuts, SetCursor, BlanksToEnd;
      var rowsRemaining := fb.display.rows - (y + 1);
      var colsDiff := fb.display.cols - (x + 1);
      BlanksCounted(fb.display.rows, fb.display.cols, x, y);
      PutTimes(SPACE, rowsRemaining * fb.display.cols + colsDiff + 1);
      fb.SetCursorPos(ToU64(x), ToU64(y));
    }

    method EraseDisplay(mode: u32, x: nat, y: nat)
      requires fb.Valid() && x < fb.display.cols && y < fb.display.rows
      modifies fb`queueLen, fb`cursorX, fb`cursorY, fb.queue, fb.pending
      ensures fb.Valid()
      ensures fb.View() == Terminals.EraseDisplay(old(fb.View()), mode, x, y)
    {
      hide FbContext.Valid, FbContext.View, RawPuts, SetCursor, Clear, Terminals.EraseToEnd, Terminals.EraseFromStart;
      match mode
      case 0 => EraseToEnd(x, y);
      case 1 => EraseFromStart(x, y);
      case 2 | 3 => fb.Clear(false);
      case _ =>
    }

    method EraseLine(mode: u32, x: nat, y: nat)
      requires fb.Valid() && x < fb.display.cols && y < fb.display.rows
      modifies fb`queueLen, fb`cursorX, fb`cursorY, fb.queue, fb.pending
      ensures fb.Valid()
      ensures fb.View() == Terminals.EraseLine(old(fb.View()), mode, x, y)
    {
      hide FbContext.Valid, FbContext.View, RawPuts, SetCursor;
      match mode
      case 0 =>
        PutTimes(SPACE, fb.display.cols - x);
        fb.SetCursorPos(ToU64(x), ToU64(y));
      case 1 =>
        fb.SetCursorPos(0, ToU64(y));
        PutTimes(SPACE, x);
      case 2 =>
        fb.SetCursorPos(0, ToU64(y));
        PutTimes(SPACE, fb.display.cols);
        fb.SetCursorPos(ToU64(x), ToU64(y));
      case _ =>
    }

    method Edit(c: byte, v: u32, x: nat, y: nat)
      requires fb.Valid() && x < fb.display.cols && y < fb.display.rows
      modifies fb`queueLen, fb`cursorX, fb`cursorY, fb`scrollTop, fb.queue, fb.pending
      ensures fb.Valid()
      ensures fb.View() == EditScreen(old(fb.View()), c, v, x, y)
    {
      hide FbContext.Valid, FbContext.View, ScrollTimes, Terminals.InsertLines, Terminals.EraseDisplay,
        Terminals.InsertCharacters, Terminals.DeleteCharacters, Terminals.EraseCharacters, Terminals.EraseLine;
      match c
      case 0x4d => ScrollUp(v);
      case 0x4c => InsertLines(v, y);
      case 0x4a => EraseDisplay(v, x, y);
      case 0x40 => InsertCharacters(v, x, y);
      case 0x50 => DeleteCharacters(v, x, y);
      case 0x58 => EraseCharacters(v, x, y);
      case 0x4b => EraseLine(v, x, y);
      case _ =>
    }

    method SetValue(i: nat, v: u32)
      requires i < MAX_VALUES
      modifies this`parser
      ensures parser == old(parser).(values := old(parser).values[i := v])
    {
      parser := parser.(values := parser.values[i := v]);
    }

    /** The row an upward move ends in. */
    method UpRow(y: nat, v: nat) returns (dest: nat)
      requires fb.Valid() && v <= y
      ensures dest == RowUp(fb.View(), y, v)
    {
      hide FbContext.Valid, FbContext.Cells, Lines;
      dest := y - v;
      var willBeInRegion := (fb.scrollTop >= dest && fb.scrollTop <= y)
        || (fb.scrollBottom >= dest && fb.scrollBottom <= y);
      if willBeInRegion && dest < fb.scrollTop {
        dest := fb.scrollTop;
      }
    }

    method CursorUp(x: nat, y: nat)
      requires fb.Valid() && x < fb.display.cols && y < fb.display.rows
      modifies this`parser, fb`cursorX, fb`cursorY
      ensures fb.Valid()
      ensures var v := AtMost(old(parser).values[0], y);
        && fb.View() == SetCursor(old(fb.View()), ToU64(x), ToU64(RowUp(old(fb.View()), y, v)))
        && parser == old(parser).(values := old(parser).values[0 := v])
    {
      hide FbContext.Valid, FbContext.View, SetCursor, RowUp;
      var v := parser.values[0];
      if v > y {
        v := y;
      }
      var dest := UpRow(y, v);
      fb.SetCursorPos(ToU64(x), ToU64(dest));
      SetValue(0, v);
    }

    /** The row a downward move ends in. */
    method DownRow(y: nat, v: nat) returns (dest: nat)
      requires fb.Valid()
      ensures dest == RowDown(fb.View(), y, v)
    {
      hide FbContext.Valid, FbContext.Cells, Lines;
      dest := y + v;
      var willBeInRegion := (fb.scrollTop >= y && fb.scrollTop <= dest)
        || (fb.scrollBottom >= y && fb.scrollBottom <= dest);
      if willBeInRegion && dest >= fb.scrollBottom {
        assert fb.View().bottom == fb.scrollBottom;
        dest := fb.scrollBottom - 1;
      }
    }

    method CursorDown(x: nat, y: nat)
      requires fb.Valid() && x < fb.display.cols && y < fb.display.rows
      modifies this`parser, fb`cursorX, fb`cursorY
      ensures fb.Valid()
      ensures var v := AtMost(old(parser).values[0], fb.display.rows - 1 - y);
        && fb.View() == SetCursor(old(fb.View()), ToU64(x), ToU64(RowDown(old(fb.View()), y, v)))
        && parser == old(parser).(values := old(parser).values[0 := v])
    {
      hide FbContext.Valid, FbContext.View, SetCursor, RowDown;
      var v := parser.values[0];
      if y + v > fb.display.rows - 1 {
        v := fb.display.rows - 1 - y;
      }
      var dest := DownRow(y, v);
      fb.SetCursorPos(ToU64(x), ToU64(dest));
      SetValue(0, v);
    }

    method CursorAcross(c: byte, x: nat, y: nat)
      requires fb.Valid() && x < fb.display.cols && y < fb.display.rows && c in {0x61, 0x43, 0x44}
      modifies this`parser, fb`cursorX, fb`cursorY
      ensures fb.Valid()
      ensures fb.View() == MoveCursor(old(fb.View()), c, old(parser).values, x, y)
      ensures parser == old(parser).(values := ClampedValues(old(fb.View()), c, old(parser).values, x, y))
    {
      hide FbContext.Valid, FbContext.View, SetCursor;
      var v := parser.values[0];
      if c == 0x44 {
        if v > x {
          v := x;
        }
        fb.SetCursorPos(ToU64(x - v), ToU64(y));
      } else {
        if x + v > fb.display.cols - 1 {
          v := fb.display.cols - 1 - x;
        }
        fb.SetCursorPos(ToU64(x + v), ToU64(y));
      }
      SetValue(0, v);
    }

    method CursorTo(c: byte, x: nat, y: nat)
      requires fb.Valid() && x < fb.display.cols && y < fb.display.rows && c in {0x64, 0x47, 0x60}
      modifies this`parser, fb`cursorX, fb`cursorY
      ensures fb.Valid()
      ensures fb.View() == MoveCursor(old(fb.View()), c, old(parser).values, x, y)
      ensures parser == old(parser).(values := ClampedValues(old(fb.View()), c, old(parser).values, x, y))
    {
      hide FbContext.Valid, FbContext.View, SetCursor;
      var v: u32 := ToU32(parser.values[0] as int - 1);
      var limit := if c == 0x64 then fb.display.rows else fb.display.cols;
      if v >= limit {
        v := limit - 1;
      }
      if c == 0x64 {
        fb.SetCursorPos(ToU64(x), v);
      } else {
        fb.SetCursorPos(v, ToU64(y));
      }
      SetValue(0, v);
    }

    static method ZeroBased(v: u32, limit: nat) returns (r: u32)
      requires limit >= 1
      ensures r == FromOneOrZero(v, limit)
    {
      r := v;
      if r != 0 {
        r := r - 1;
      }
      if r >= limit {
        r := limit - 1;
      }
    }

    method CursorPosition(c: byte, x: nat, y: nat)
      requires fb.Valid() && x < fb.display.cols && y < fb.display.rows && c in {0x48, 0x66}
      modifies this`parser, fb`cursorX, fb`cursorY
      ensures fb.Valid()
      ensures fb.View() == MoveCursor(old(fb.View()), c, old(parser).values, x, y)
      ensures parser == old(parser).(values := ClampedValues(old(fb.View()), c, old(parser).values, x, y))
    {
      hide FbContext.Valid, FbContext.View, SetCursor;
      var v0 := ZeroBased(parser.values[0], fb.display.rows);
      var v1 := ZeroBased(parser.values[1], fb.display.cols);
      assert parser.values[0 := v0][1 := v1] == ClampedValues(old(fb.View()), c, parser.values, x, y);
      fb.SetCursorPos(v1, v0);
      SetValues(v0, v1);
    }

    method SetValues(v0: u32, v1: u32)
      modifies this`parser
      ensures parser == old(parser).(values := old(parser).values[0 := v0][1 := v1])
    {
      parser := parser.(values := parser.values[0 := v0][1 := v1]);
    }

    method Motion(c: byte, x: nat, y: nat)
      requires fb.Valid() && x < fb.display.cols && y < fb.display.rows && IsMotion(c)
      modifies this`parser, fb`cursorX, fb`cursorY
      ensures fb.Valid()
      ensures fb.View() == MoveCursor(old(fb.View()), c, old(parser).values, x, y)
      ensures parser == old(parser).(values := ClampedValues(old(fb.View()), c, old(parser).values, x, y))
    {
      hide FbContext.Valid, FbContext.View, SetCursor, RowUp, RowDown;
      match c
      case 0x46 | 0x41 => CursorUp(if c == 0x46 then 0 else x, y);
      case 0x45 | 0x65 | 0x42 => CursorDown(if c == 0x45 then 0 else x, y);
      case 0x61 | 0x43 | 0x44 => CursorAcross(c, x, y);
      case 0x48 | 0x66 => CursorPosition(c, x, y);
      case _ => CursorTo(c, x, y);
    }

    static method MarginsFor(rows: nat, count: nat, v0: u32, v1: u32) returns (top: nat, bottom: nat)
      requires rows >= 1 && v0 >= 1 && v1 >= 1
      ensures (top, bottom) == Terminals.Margins(rows, count, v0, v1)
      ensures top < bottom <= rows
    {
      top, bottom := 0, rows;
      if count > 0 {
        top := v0 - 1;
      }
      if count > 1 {
        bottom := v1;
      }
      if top >= rows || bottom > rows || top >= bottom - 1 {
        top, bottom := 0, rows;
      }
    }

    method Margins()
      requires fb.Valid()
      modifies this`parser, fb`scrollTop, fb`scrollBottom, fb`cursorX, fb`cursorY
      ensures fb.Valid()
      ensures fb.View() == SetMargins(old(fb.View()), old(parser).values, parser.count)
      ensures var v0, v1 := old(parser).values[0], old(parser).values[1];
        parser == old(parser).(values := old(parser).values[0 := if v0 == 0 then 1 else v0][1 := if v1 == 0 then 1
          else v1])
    {
      hide FbContext.Valid, FbContext.View, SetCursor, Terminals.Margins;
      MarginsOfZero(fb.display.rows, parser.count, parser.values[0], parser.values[1]);
      var v0, v1 := parser.values[0], parser.values[1];
      if v0 == 0 {
        v0 := 1;
      }
      if v1 == 0 {
        v1 := 1;
      }
      var top, bottom := MarginsFor(fb.display.rows, parser.count, v0, v1);
      fb.SetMargins(top, bottom);
      fb.SetCursorPos(0, 0);
      SetValues(v0, v1);
    }

    // ---- Select graphic rendition

    ghost function PenNow(): Pen
      requires RenditionOk(rendition)
      reads this`rendition, fb`textFg, fb`textBg
    {
      RawPen(rendition.bold, rendition.bgBold, rendition.reverse, rendition.primary, rendition.background, fb.textFg,
        fb.textBg)
    }

    /** Writes the foreground plane, which reverse video exchanges with the background. */
    method SetPlane(foreground: bool, colour: u32)
      modifies fb`textFg, fb`textBg
      ensures foreground ==> fb.textFg == colour && fb.textBg == old(fb.textBg)
      ensures !foreground ==> fb.textBg == colour && fb.textFg == old(fb.textFg)
    {
      if foreground {
        fb.textFg := colour;
      } else {
        fb.textBg := colour;
      }
    }

    method SgrReset()
      requires RenditionOk(rendition)
      modifies this`rendition, fb`textFg, fb`textBg
      ensures RenditionOk(rendition) && PenNow() == Reset(cfg.palette)
    {
      if rendition.reverse {
        fb.textFg, fb.textBg := fb.textBg, fb.textFg;
      }
      rendition := Rendition(false, false, false, None, None);
      SetPlane(false, TRANSPARENT);
      SetPlane(true, cfg.palette.defaultFg);
    }

    method SgrIntensity(code: u32)
      requires RenditionOk(rendition) && code in {1, 5, 22, 25}
      modifies this`rendition, fb`textFg, fb`textBg
      ensures RenditionOk(rendition) && PenNow() == Code(cfg.palette, old(PenNow()), code)
    {
      var p, plane := cfg.palette, !rendition.reverse;
      match code
      case 1 =>
        if rendition.primary.Some? {
          SetPlane(plane, p.bright[rendition.primary.value]);
        } else {
          SetPlane(plane, if plane then p.defaultFgBright else p.defaultBgBright);
        }
        rendition := rendition.(bold := true);
      case 5 =>
        if rendition.background.Some? {
          SetPlane(!plane, p.bright[rendition.background.value]);
        } else {
          SetPlane(!plane, if plane then p.defaultBgBright else p.defaultFgBright);
        }
        rendition := rendition.(bgBold := true);
      case 22 =>
        if rendition.primary.Some? {
          SetPlane(plane, p.ansi[rendition.primary.value]);
        } else {
          SetPlane(plane, if plane then p.defaultFg else TRANSPARENT);
        }
        rendition := rendition.(bold := false);
      case _ =>
        if rendition.background.Some? {
          SetPlane(!plane, p.ansi[rendition.background.value]);
        } else {
          SetPlane(!plane, if plane then TRANSPARENT else p.defaultFg);
        }
        rendition := rendition.(bgBold := false);
    }

    /** `set_fg` and `set_bg` of the source. */
    method SetColour(foreground: bool, k: nat)
      requires k < 8 && RenditionOk(rendition)
      modifies fb`textFg, fb`textBg
      ensures PenNow() == if foreground then PutFg(cfg.palette, old(PenNow()), k)
        else PutBg(cfg.palette, old(PenNow()), k)
    {
      var bright := if foreground
        then (rendition.bold && !rendition.reverse) || (rendition.bgBold && rendition.reverse)
        else (rendition.bold && rendition.reverse) || (rendition.bgBold && !rendition.reverse);
      SetPlane(foreground, if bright then cfg.palette.bright[k] else cfg.palette.ansi[k]);
    }

    method SgrColour(code: u32)
      requires RenditionOk(rendition)
      requires 30 <= code <= 37 || 40 <= code <= 47 || 90 <= code <= 97 || 100 <= code <= 107
      modifies this`rendition, fb`textFg, fb`textBg
      ensures RenditionOk(rendition) && PenNow() == Code(cfg.palette, old(PenNow()), code)
    {
      var reverse := rendition.reverse;
      if code <= 37 {
        rendition := rendition.(primary := Some(code - 30));
        SetColour(!reverse, code - 30);
      } else if code <= 47 {
        rendition := rendition.(background := Some(code - 40));
        SetColour(reverse, code - 40);
      } else if code <= 97 {
        rendition := rendition.(primary := Some(code - 90));
        SetPlane(!reverse, cfg.palette.bright[code - 90]);
      } else {
        rendition := rendition.(background := Some(code - 100));
        SetPlane(reverse, cfg.palette.bright[code - 100]);
      }
    }

    method SgrDefault(code: u32)
      requires RenditionOk(rendition) && (code == 39 || code == 49)
      modifies this`rendition, fb`textFg, fb`textBg
      ensures RenditionOk(rendition) && PenNow() == Code(cfg.palette, old(PenNow()), code)
    {
      rendition := if code == 39 then rendition.(primary := None) else rendition.(background := None);
      if rendition.reverse {
        fb.textFg, fb.textBg := fb.textBg, fb.textFg;
      }
      if code == 39 {
        SetPlane(true, if rendition.bold then cfg.palette.defaultFgBright else cfg.palette.defaultFg);
      } else {
        SetPlane(false, if rendition.bgBold then cfg.palette.defaultBgBright else TRANSPARENT);
      }
      if rendition.reverse {
        fb.textFg, fb.textBg := fb.textBg, fb.textFg;
      }
    }

    method SgrReverse(code: u32)
      requires RenditionOk(rendition) && (code == 7 || code == 27)
      modifies this`rendition, fb`textFg, fb`textBg
      ensures RenditionOk(rendition) && PenNow() == Code(cfg.palette, old(PenNow()), code)
    {
      if rendition.reverse != (code == 7) {
        rendition := rendition.(reverse := code == 7);
        fb.textFg, fb.textBg := fb.textBg, fb.textFg;
      }
    }

    method SgrCode(code: u32)
      requires RenditionOk(rendition)
      modifies this`rendition, fb`textFg, fb`textBg
      ensures RenditionOk(rendition) && PenNow() == Code(cfg.palette, old(PenNow()), code)
    {
      if code == 0 {
        SgrReset();
      } else if code in {1, 5, 22, 25} {
        SgrIntensity(code);
      } else if 30 <= code <= 37 || 40 <= code <= 47 || 90 <= code <= 97 || 100 <= code <= 107 {
        SgrColour(code);
      } else if code == 39 || code == 49 {
        SgrDefault(code);
      } else if code == 7 || code == 27 {
        SgrReverse(code);
      }
    }

    /** Code 38 or 48 at position `i`: returns the position of the next code, or None to stop. */
    method SgrExtended(codes: seq<u32>, i: nat) returns (next: Option<nat>)
      requires RenditionOk(rendition) && i < |codes| && (codes[i] == 38 || codes[i] == 48)
      modifies fb`textFg, fb`textBg
      ensures next.Some? ==> i < next.value
      ensures Codes(cfg.palette, cfg.table, old(PenNow()), codes, i) ==
        if next.Some? then Codes(cfg.palette, cfg.table, PenNow(), codes, next.value) else PenNow()
    {
      var isFg := codes[i] == 38;
      if i + 1 >= |codes| {
        return None;
      }
      match codes[i + 1]
      case 2 =>
        if i + 4 >= |codes| {
          return None;
        }
        SetPlane(isFg, Rgb(codes[i + 2], codes[i + 3], codes[i + 4]));
        next := Some(i + 5);
      case 5 =>
        if i + 2 >= |codes| {
          return None;
        }
        var col := codes[i + 2];
        var colour := if col < 8 then cfg.palette.ansi[col] else if col < 16 then cfg.palette.bright[col - 8]
                      else if col < 256 then cfg.table[col - 16] else 0;
        SetPlane(isFg, colour);
        next := Some(i + 3);
      case _ => next := Some(i + 2);
    }

    method Sgr(codes: seq<u32>)
      requires RenditionOk(rendition)
      modifies this`rendition, fb`textFg, fb`textBg
      ensures RenditionOk(rendition)
      ensures PenNow() == SelectRendition(cfg.palette, cfg.table, old(PenNow()), codes)
    {
      if |codes| == 0 {
        SgrReset();
        return;
      }
      var i := 0;
      while i < |codes|
        invariant RenditionOk(rendition)
        invariant Codes(cfg.palette, cfg.table, PenNow(), codes, i) ==
          Codes(cfg.palette, cfg.table, old(PenNow()), codes, 0)
      {
        if codes[i] == 38 || codes[i] == 48 {
          var next := SgrExtended(codes, i);
          if next.None? {
            return;
          }
          i := next.value;
        } else {
          SgrCode(codes[i]);
          i := i + 1;
        }
      }
    }

    // ---- Control sequences

    method SetParser(p: Parser)
      requires Valid()
      modifies this`parser
      ensures Valid() && parser == p
      ensures View() == WithParser(old(View()), p)
    {
      hide FbContext.Valid, FbContext.View;
      parser := p;
    }

    lemma ParserInView()
      requires Valid()
      ensures View().parser == parser
    {
    }

    method FillDefaults(c: byte)
      requires Valid()
      modifies this`parser
      ensures Valid()
      ensures View() == WithParser(old(View()), WithDefaults(old(parser), c))
    {
      hide FbContext.Valid, FbContext.View, TermOk;
      var values, i, d := parser.values, parser.count, DefaultValue(c);
      while i < MAX_VALUES
        invariant parser.count <= i <= MAX_VALUES && |values| == MAX_VALUES
        invariant forall j :: 0 <= j < MAX_VALUES ==> values[j] == if parser.count <= j < i then d else parser.values[j]
      {
        values := values[i := d];
        i := i + 1;
      }
      assert values == FillValues(parser.values, parser.count, d);
      SetParser(parser.(values := values));
    }

    method OnScreenControl(c: byte, x: nat, y: nat)
      requires fb.Valid() && x < fb.display.cols && y < fb.display.rows
      modifies this`parser, fb`queueLen, fb`cursorX, fb`cursorY, fb`scrollTop, fb`scrollBottom, fb.queue, fb.pending
      ensures fb.Valid()
      ensures fb.View() == ScreenControl(old(fb.View()), c, old(parser).values, old(parser).count, x, y)
      ensures parser == old(parser).(values := ClampedValues(old(fb.View()), c, old(parser).values, x, y))
    {
      hide FbContext.Valid, FbContext.View, SetMargins, MoveCursor, EditScreen;
      if c == 0x72 {
        Margins();
      } else if IsMotion(c) {
        Motion(c, x, y);
      } else {
        Edit(c, parser.values[0], x, y);
      }
    }

    /** The same with scrolling switched off meanwhile. */
    method QuietControl(c: byte)
      requires fb.Valid()
      modifies this`parser, fb`queueLen, fb`cursorX, fb`cursorY, fb`scrollTop, fb`scrollBottom, fb`scrollEnabled,
        fb`cursorEnabled, fb.queue, fb.pending
      ensures fb.Valid()
      ensures fb.View() ==
        ScreenControl(old(fb.View()).(scrollEnabled := false), c, old(parser).values, old(parser).count,
          GetX(old(fb.View())), GetY(old(fb.View())))
          .(scrollEnabled := old(fb.scrollEnabled))
      ensures parser == old(parser).(values := ClampedValues(old(fb.View()), c, old(parser).values,
        GetX(old(fb.View())), GetY(old(fb.View()))))
    {
      hide FbContext.Valid, ScreenControl, Lines;
      var r := fb.scrollEnabled;
      fb.SetModes(false, fb.cursorEnabled);
      var x, y := fb.GetCursorPos();
      OnScreenControl(c, x, y);
      fb.SetModes(r, fb.cursorEnabled);
    }

    method Mode(c: byte)
      requires Valid() && (c == 0x68 || c == 0x6c)
      modifies this`insertMode
      ensures Valid()
      ensures View() == Terminals.Mode(old(View()), c)
    {
      if parser.count == 0 {
        return;
      }
      if parser.values[0] == 4 {
        insertMode := c == 0x68;
      }
    }

    method DecMode(c: byte)
      requires Valid()
      modifies fb`scrollEnabled, fb`cursorEnabled
      ensures Valid()
      ensures View() == Terminals.DecMode(old(View()), c)
    {
      hide FbContext.Valid, Lines;
      if parser.count == 0 || (c != 0x68 && c != 0x6c) {
        return;
      }
      if parser.values[0] == 25 {
        fb.SetModes(fb.scrollEnabled, c == 0x68);
      }
    }

    method SelectGraphicRendition()
      requires Valid()
      modifies this`rendition, fb`textFg, fb`textBg
      ensures Valid()
      ensures View() == WithPen(old(View()),
        SelectRendition(cfg.palette, cfg.table, PenOf(old(View())), parser.values[..parser.count]))
    {
      hide FbContext.Valid, Lines, SelectRendition;
      Sgr(parser.values[..parser.count]);
      assert fb.View() == old(fb.View()).(textFg := fb.textFg, textBg := fb.textBg);
    }

    method SaveCursor()
      requires Valid()
      modifies this`savedCursorX, this`savedCursorY
      ensures Valid()
      ensures View() == SaveCursorTerm(old(View()))
    {
      hide FbContext.Valid, FbContext.View;
      savedCursorX, savedCursorY := fb.GetCursorPos();
    }

    /** Moves the cursor of a terminal between two bytes. */
    method PlaceCursor(x: u64, y: u64)
      requires Valid()
      modifies fb`cursorX, fb`cursorY
      ensures Valid()
      ensures View() == WithScreen(old(View()), SetCursor(old(View()).screen, x, y))
    {
      hide FbContext.Valid, FbContext.View;
      fb.SetCursorPos(x, y);
    }

    method ScreenFunction(c: byte)
      requires Valid()
      modifies this`parser, fb`queueLen, fb`cursorX, fb`cursorY, fb`scrollTop, fb`scrollBottom, fb`scrollEnabled,
        fb`cursorEnabled, fb.queue, fb.pending
      ensures Valid()
      ensures View() == Terminals.ScreenFunction(old(View()), c)
    {
      hide FbContext.Valid, ScreenControl, ClampedValues, Lines;
      assert View().screen.scrollEnabled;
      QuietControl(c);
    }

    method ControlFunction(c: byte)
      requires Valid()
      modifies this, fb, fb.queue, fb.pending
      ensures Valid()
      ensures View() == Control(cfg, old(View()), c)
    {
      hide FbContext.Valid, FbContext.View, Terminals.ScreenFunction, SelectRendition, SetCursor, Terminals.Mode,
        TermOk;
      match c
      case 0x6d => SelectGraphicRendition();
      case 0x73 => SaveCursor();
      case 0x75 => PlaceCursor(ToU64(savedCursorX), ToU64(savedCursorY));
      case 0x6c | 0x68 => Mode(c);
      case _ => ScreenFunction(c);
    }

    method Dispatch(c: byte)
      requires Valid()
      modifies this, fb, fb.queue, fb.pending
      ensures Valid()
      ensures View() == Terminals.Dispatch(cfg, old(View()), c)
    {
      hide FbContext.Valid, FbContext.View, Control, Terminals.DecMode, TermOk, FillValues;
      FillDefaults(c);
      if parser.decPrivate {
        DecMode(c);
      } else {
        ControlFunction(c);
      }
      SetParser(EndSequence(parser));
    }

    /** `control_sequence_parse` */
    method ControlSequenceParse(c: byte)
      requires Valid()
      modifies this, fb, fb.queue, fb.pending
      ensures Valid()
      ensures View() == ControlSequence(cfg, old(View()), c)
    {
      ParserInView();
      hide Valid, View, FbContext.Valid, FbContext.View, Terminals.Dispatch, TermOk, WithParser, Collect, Collects,
        EndValue;
      var p, more := TakeByte(parser, c);
      SetParser(p);
      if !more {
        Dispatch(c);
      }
    }

    // ---- Escape sequences

    method FeedScreen(x: nat, y: nat)
      requires fb.Valid() && x < fb.display.cols && y < fb.display.rows
      modifies fb`queueLen, fb`cursorX, fb`cursorY, fb.queue, fb.pending
      ensures fb.Valid()
      ensures fb.View() == Terminals.Feed(old(fb.View()), x, y)
    {
      hide FbContext.Valid, Scroll, SetCursor, Lines;
      if y == fb.scrollBottom - 1 {
        fb.Scroll();
        fb.SetCursorPos(ToU64(x), ToU64(y));
      } else {
        fb.SetCursorPos(ToU64(x), ToU64(y + 1));
      }
    }

    method ReverseFeedScreen(y: nat)
      requires fb.Valid() && y < fb.display.rows
      modifies fb`queueLen, fb`cursorX, fb`cursorY, fb.queue, fb.pending
      ensures fb.Valid()
      ensures fb.View() == Terminals.ReverseFeed(old(fb.View()), y)
    {
      hide FbContext.Valid, RevScroll, SetCursor, Lines;
      if y == fb.scrollTop {
        fb.RevScroll();
        fb.SetCursorPos(0, ToU64(y));
      } else {
        fb.SetCursorPos(0, ToU64(y - 1));
      }
    }

    method Feed(x: nat, y: nat)
      requires Valid() && x < fb.display.cols && y < fb.display.rows
      modifies fb`queueLen, fb`cursorX, fb`cursorY, fb.queue, fb.pending
      ensures Valid()
      ensures View() == WithScreen(old(View()), Terminals.Feed(old(View()).screen, x, y))
    {
      hide FbContext.Valid, FbContext.View, Terminals.Feed;
      FeedScreen(x, y);
    }

    method ReverseFeed(y: nat)
      requires Valid() && y < fb.display.rows
      modifies fb`queueLen, fb`cursorX, fb`cursorY, fb.queue, fb.pending
      ensures Valid()
      ensures View() == WithScreen(old(View()), Terminals.ReverseFeed(old(View()).screen, y))
    {
      hide FbContext.Valid, FbContext.View, Terminals.ReverseFeed;
      ReverseFeedScreen(y);
    }

    method SaveState()
      requires Valid()
      modifies this`savedRendition, this`savedCharset, fb`savedFg, fb`savedBg, fb`savedX, fb`savedY
      ensures Valid()
      ensures View() == SaveTerm(old(View()))
    {
      hide FbContext.Valid, FbContext.View;
      fb.SaveState();
      savedRendition, savedCharset := rendition, currentCharset;
    }

    method RestoreState()
      requires Valid()
      modifies this`rendition, this`currentCharset, fb`textFg, fb`textBg, fb`cursorX, fb`cursorY
      ensures Valid()
      ensures View() == RestoreTerm(old(View()))
    {
      hide FbContext.Valid, FbContext.View;
      rendition, currentCharset := savedRendition, savedCharset;
      fb.RestoreState();
    }

    method HardReset()
      requires Valid()
      modifies this, fb, fb.queue, fb.pending
      ensures Valid()
      ensures View() == ResetTerm(old(View()))
    {
      hide FbContext.Valid, FbContext.View, Terminals.Reinit;
      Reinit();
      fb.Clear(true);
    }

    method LineEscape(c: byte)
      requires Valid()
      modifies fb`queueLen, fb`cursorX, fb`cursorY, fb.queue, fb.pending
      ensures Valid()
      ensures View() == LineFunction(old(View()), c)
    {
      hide FbContext.Valid, FbContext.View, TermOk, Terminals.Feed, Terminals.ReverseFeed, WithScreen;
      var x, y := fb.GetCursorPos();
      if c == 0x44 {
        Feed(x, y);
      } else if c == 0x45 {
        Feed(0, y);
      } else {
        ReverseFeed(y);
      }
    }

    method StateEscape(c: byte)
      requires Valid()
      modifies this, fb, fb.queue, fb.pending
      ensures Valid()
      ensures View() == StateFunction(old(View()), c)
    {
      hide FbContext.Valid, FbContext.View, TermOk, SaveTerm, RestoreTerm, ResetTerm;
      if c == 0x37 {
        SaveState();
      } else if c == 0x38 {
        RestoreState();
      } else {
        HardReset();
      }
    }

    method NameCharsetNext(c: byte)
      requires Valid() && (c == 0x28 || c == 0x29)
      modifies this`parser
      ensures Valid()
      ensures View() == Terminals.EscapeFunction(old(View()), c)
    {
      ParserInView();
      hide Valid, View, FbContext.Valid, FbContext.View, TermOk, WithParser;
      SetParser(parser.(gSelect := c - 0x27));
    }

    method EscapeFunction(c: byte)
      requires Valid()
      modifies this, fb, fb.queue, fb.pending
      ensures Valid()
      ensures View() == Terminals.EscapeFunction(old(View()), c)
    {
      hide Valid, View, FbContext.Valid, FbContext.View, TermOk, StateFunction, LineFunction, WithParser;
      if c == 0x37 || c == 0x38 || c == 0x63 {
        StateEscape(c);
      } else if c == 0x44 || c == 0x45 || c == 0x4d {
        LineEscape(c);
      } else if c == 0x28 || c == 0x29 {
        NameCharsetNext(c);
      }
    }

    /** `escape_parse`, past the count of its bytes. */
    method EscapeParseStep(c: byte)
      requires Valid()
      modifies this, fb, fb.queue, fb.pending
      ensures Valid()
      ensures View() == EscapeStep(cfg, old(View()), c)
    {
      ParserInView();
      hide Valid, View, FbContext.Valid, FbContext.View, TermOk, ControlSequence, Terminals.EscapeFunction,
        BeginControlSequence, Terminals.OscByte, WithParser;
      var p := parser;
      if p.osc {
        var q := TakeOscByte(p, c);
        SetParser(q);
      } else if p.controlSequence {
        ControlSequenceParse(c);
      } else if p.csi || c == 0x5b {
        var q := StartControlSequence(p);
        SetParser(q);
      } else if c == 0x5d {
        SetParser(p.(oscEscape := false, osc := true));
      } else {
        EscapeFunction(c);
        LeaveEscape();
      }
    }

    /** The end of `escape_parse`: the sequence is over. */
    method LeaveEscape()
      requires Valid()
      modifies this`parser
      ensures Valid()
      ensures View() == EndEscape(old(View()))
    {
      ParserInView();
      hide Valid, View, FbContext.Valid, FbContext.View, TermOk, WithParser;
      SetParser(parser.(escape := false));
    }

    /** `escape_parse` */
    method EscapeParse(c: byte)
      requires Valid()
      modifies this, fb, fb.queue, fb.pending
      ensures Valid()
      ensures View() == EscapeByte(cfg, old(View()), c)
    {
      hide Valid, View, FbContext.Valid, FbContext.View, TermOk, WithParser, EscapeStep, Terminals.CountByte;
      CountByte();
      EscapeParseStep(c);
    }

    /** `ctx->escape_offset++` */
    method CountByte()
      requires Valid()
      modifies this`parser
      ensures Valid()
      ensures View() == Terminals.CountByte(old(View()))
    {
      ParserInView();
      CountByteIs(View());
      hide *;
      SetParser(parser.(escapeOffset := parser.escapeOffset + 1));
    }

    static lemma CountByteIs(t: Term)
      ensures Terminals.CountByte(t) == WithParser(t, t.parser.(escapeOffset := t.parser.escapeOffset + 1))
    {
    }

    // ---- Characters

    method WriteCharacters(c: byte, n: nat)
      requires Valid()
      modifies fb`queueLen, fb`cursorX, fb`cursorY, fb.queue, fb.pending
      ensures Valid()
      ensures View() == WithScreen(old(View()), Print(old(View()).screen, c, n))
    {
      hide FbContext.Valid, FbContext.View, RawPuts;
      assert Follows(fb.View(), Print(fb.View(), c, n));
      PutTimes(c, n);
    }

    method WriteCodePoint(cp: nat)
      requires Valid()
      modifies fb`queueLen, fb`cursorX, fb`cursorY, fb.queue, fb.pending
      ensures Valid()
      ensures View() == WithScreen(old(View()), Terminals.WriteCodePoint(cfg, old(View()).screen, cp))
    {
      hide FbContext.Valid, FbContext.View, Print, TermOk, Width;
      match cfg.codePage(cp)
      case Some(glyph) => WriteCharacters(glyph, 1);
      case None =>
        var width := MkWcwidth(cfg.combining, ToU32(cp));
        if width > 0 {
          WriteCharacters(0xfe, 1);
          WriteCharacters(SPACE, width - 1);
        }
    }

    method Tab(x: nat, y: nat)
      requires Valid() && x < fb.display.cols && y < fb.display.rows
      modifies fb`cursorX, fb`cursorY
      ensures Valid()
      ensures View() == WithScreen(old(View()), Terminals.Tab(old(View()), x, y))
    {
      hide FbContext.Valid, FbContext.View, SetCursor, Settled;
      if x / tabSize + 1 >= fb.display.cols {
        PlaceCursor(ToU64(fb.display.cols - 1), ToU64(y));
      } else {
        PlaceCursor(ToU64((x / tabSize + 1) * tabSize), ToU64(y));
      }
    }

    method SetCharset(k: nat)
      requires Valid() && k < 2
      modifies this`currentCharset
      ensures Valid()
      ensures View() == old(View()).(currentCharset := k)
    {
      hide FbContext.Valid, FbContext.View;
      currentCharset := k;
    }

    method ControlCharacter(c: byte)
      requires Valid() && IsControlByte(c)
      modifies this, fb, fb.queue, fb.pending
      ensures Valid()
      ensures View() == ControlByte(old(View()), c)
    {
      hide FbContext.Valid, FbContext.View, TermOk, Terminals.Feed, Terminals.Tab, SetCursor;
      var x, y := fb.GetCursorPos();
      match c
      case 0x9b => SetParser(BeginEscape(parser, true));
      case 0x1b => SetParser(BeginEscape(parser, parser.csi));
      case 0x09 => Tab(x, y);
      case 0x0b | 0x0c | 0x0a => Feed(if newlineReturns then 0 else x, y);
      case 0x08 => PlaceCursor(ToU64(x as int - 1), ToU64(y));
      case 0x0d => PlaceCursor(0, ToU64(y));
      case 0x0e => SetCharset(1);
      case 0x0f => SetCharset(0);
      case _ =>
    }

    method SelectCharset(c: byte)
      requires Valid() && parser.gSelect != 0
      modifies this`parser, this`charsets
      ensures Valid()
      ensures View() == Terminals.SelectCharset(old(View()), c)
    {
      hide FbContext.Valid, FbContext.View, TermOk, Terminals.NameCharset;
      NameCharset(if parser.gSelect - 1 == 0 then 0 else 1, c);
      SetParser(parser.(gSelect := 0));
    }

    method NameCharset(k: nat, c: byte)
      requires Valid() && k < 2
      modifies this`charsets
      ensures Valid()
      ensures View() == Terminals.NameCharset(old(View()), k, c) && parser == old(parser)
    {
      hide FbContext.Valid, FbContext.View, TermOk;
      match c
      case 0x42 => SetCharsetSlot(k, Default);
      case 0x30 => SetCharsetSlot(k, DecSpecial);
      case _ =>
    }

    method SetCharsetSlot(k: nat, charset: Charset)
      requires Valid() && k < 2
      modifies this`charsets
      ensures Valid()
      ensures View() == WithCharset(old(View()), k, charset) && parser == old(parser)
    {
      hide FbContext.Valid, FbContext.View;
      charsets := charsets[k := charset];
    }

    method MakeRoom()
      requires Valid()
      modifies fb`queueLen, fb.queue, fb.pending
      ensures Valid()
      ensures View() == WithScreen(old(View()),
        ShiftDownTo(old(View()).screen, GetY(old(View()).screen), GetX(old(View()).screen)))
    {
      hide FbContext.Valid, FbContext.View, ShiftDownTo;
      var x, y := fb.GetCursorPos();
      ShiftRight(x, y);
    }

    method WriteByte(c: byte)
      requires Valid()
      modifies fb`queueLen, fb`cursorX, fb`cursorY, fb.queue, fb.pending
      ensures Valid()
      ensures View() == Terminals.WriteByte(old(View()), c)
    {
      hide FbContext.Valid, FbContext.View, ShiftDownTo, Print, DecSpecialGlyph, Settled;
      if insertMode {
        MakeRoom();
      }
      var glyph := DecSpecialGlyph(c);
      if charsets[currentCharset] == DecSpecial && glyph.Some? {
        WriteCharacters(glyph.value, 1);
        return;
      }
      if c >= 0x20 && c <= 0x7e {
        WriteCharacters(c, 1);
      }
    }

    method FreshByte(c: byte)
      requires Valid()
      modifies this, fb, fb.queue, fb.pending
      ensures Valid()
      ensures View() == Terminals.FreshByte(cfg, old(View()), c)
    {
      hide FbContext.Valid, FbContext.View, TermOk, EscapeByte, Terminals.SelectCharset, ControlByte,
        Terminals.WriteByte, IsControlByte, LeadByte;
      if c >= 0xc0 && c <= 0xf7 {
        var p := TakeLeadByte(parser, c);
        SetParser(p);
        return;
      }
      if parser.escape {
        EscapeParse(c);
        return;
      }
      if parser.gSelect != 0 {
        SelectCharset(c);
        return;
      }
      if IsControlByte(c) {
        ControlCharacter(c);
        return;
      }
      WriteByte(c);
    }

    /** `flanterm_putchar` */
    method Putchar(c: byte)
      requires Valid()
      modifies this, fb, fb.queue, fb.pending
      ensures Valid()
      ensures View() == PutChar(cfg, old(View()), c)
    {
      hide FbContext.Valid, FbContext.View, TermOk, Terminals.FreshByte, Terminals.WriteCodePoint, Pow64;
      if parser.discardNext || c == 0x18 || c == 0x1a {
        var p := Cancel(parser);
        SetParser(p);
        return;
      }
      if parser.unicodeRemaining != 0 {
        if c / 0x40 == 2 {
          var p := TakeContinuation(parser, c);
          SetParser(p);
          if parser.unicodeRemaining == 0 {
            WriteCodePoint(parser.codePoint);
          }
          return;
        }
        SetParser(parser.(unicodeRemaining := 0));
      }
      FreshByte(c);
    }

    /** The bytes of `flanterm_write`, without its flush. */
    method PutBytes(buf: seq<byte>)
      requires Valid()
      modifies this, fb, fb.queue, fb.pending
      ensures Valid()
      ensures View() == PutAll(cfg, old(View()), buf)
    {
      hide FbContext.Valid, FbContext.View, TermOk, PutChar;
      var i := 0;
      while i < |buf|
        invariant i <= |buf| && Valid()
        invariant View() == PutAll(cfg, old(View()), buf[..i])
      {
        Putchar(buf[i]);
        assert buf[..i + 1][..i] == buf[..i];
        i := i + 1;
      }
      assert buf[..i] == buf;
    }

    /** The flush at the end of `flanterm_write`. */
    method AutoFlush()
      requires Valid()
      modifies fb`queueLen, fb`oldCursorX, fb`oldCursorY, fb.grid, fb.pending, fb.framebuffer
      ensures Valid() && View() == old(View())
      ensures fb.framebuffer[..] == if autoflush then Render(fb.display, old(fb.framebuffer[..]), View().screen)
        else old(fb.framebuffer[..])
      ensures autoflush ==> ScreenShown(fb.display, fb.framebuffer[..], View().screen)
    {
      hide FbContext.Valid, FbContext.View, Render, ScreenShown;
      if autoflush {
        fb.Flush();
      }
    }

    /** `flanterm_write` */
    method Write(buf: seq<byte>)
      requires Valid()
      modifies this, fb, fb.grid, fb.queue, fb.pending, fb.framebuffer
      ensures Valid()
      ensures View() == PutAll(cfg, old(View()), buf)
      ensures fb.framebuffer[..] == if autoflush then Render(fb.display, old(fb.framebuffer[..]), View().screen)
        else old(fb.framebuffer[..])
      ensures autoflush ==> ScreenShown(fb.display, fb.framebuffer[..], View().screen)
    {
      hide FbContext.Valid, FbContext.View, TermOk, Render, PutAll, ScreenShown;
      PutBytes(buf);
      AutoFlush();
    }
  }
}
