/** Control sequences end to end: from their bytes to the screen they leave. */
module ControlLaws {
  import opened Basics
  import opened Screens
  import opened Editing
  import opened ScreenLaws
  import opened EditingLaws
  import opened Sgr
  import opened RunOn
  import opened Terminals
  import opened ParserLaws
  import opened SequenceLaws

  /** The bytes of a control sequence. */
  function Csi(vs: seq<u32>, c: byte): seq<byte> {
    [0x1b, 0x5b] + Parameters(vs) + [c]
  }

  /** The screen while a control function runs. */
  function Quiet(s: Screen): Screen {
    s.(scrollEnabled := false)
  }

  /** Editing functions act on the screen with their first parameter, and on nothing else of it. */
  lemma EditSequence(cfg: Config, t: Term, n: u32, c: byte)
    requires Idle(t.parser) && c in {0x4d, 0x4c, 0x4a, 0x40, 0x50, 0x58, 0x4b}
    ensures PutAll(cfg, t, Csi([n], c)).screen ==
      EditScreen(Quiet(t.screen), c, n, GetX(t.screen), GetY(t.screen)).(scrollEnabled := true)
  {
    hide PutAll, EditScreen, Parameters, WithParser, WithScreen, Clamped, IsMotion;
    ControlSequenceRoundTrip(cfg, t, [n], c);
    var u := WithParser(t, Parsed(t.parser, [n], c));
    assert ReadValues([n], DefaultValue(c))[0] == n;
    EditFunction(cfg, u, c);
  }

  lemma EditFunction(cfg: Config, t: Term, c: byte)
    requires c in {0x4d, 0x4c, 0x4a, 0x40, 0x50, 0x58, 0x4b}
    ensures Control(cfg, t, c).screen ==
      EditScreen(Quiet(t.screen), c, t.parser.values[0], GetX(t.screen), GetY(t.screen)).(scrollEnabled := true)
  {
    hide EditScreen, WithParser, WithScreen, Clamped, WithPen, SaveCursorTerm, Mode, SetMargins, MoveCursor, TermOk;
    assert Control(cfg, t, c) == ScreenFunction(t, c);
  }

  /** Whether scrolling is on does not matter to where characters run on to. */
  lemma QuietCells(s: Screen, d: Screen, n: nat)
    requires d.cols == s.cols
    ensures Replaced(s.lines, CellsWritten(Quiet(d), n), Blank(s)) == Replaced(s.lines, CellsWritten(d, n), Blank(s))
  {
    hide Replaced;
    ReplacedAlike(s.lines, CellsWritten(Quiet(d), n), CellsWritten(d, n), Blank(s));
  }

  /** `CSI n @`: the row moves right from the cursor, the gap is blank, the cursor stays; for n = 0 the row is
      blanked from the cursor on instead. */
  lemma InsertSequence(cfg: Config, t: Term, n: u32)
    requires Idle(t.parser)
    ensures var s, x, y := t.screen, GetX(t.screen), GetY(t.screen);
      PutAll(cfg, t, Csi([n], 0x40)).screen == RowChanged(s, y,
        if n >= 1 then Inserted(s.lines[y], x, n, Blank(s)) else Overwritten(s.lines[y], x, s.cols - x, Blank(s)), x, y)
  {
    hide PutAll, Csi, InsertCharacters;
    EditSequence(cfg, t, n, 0x40);
    if n >= 1 {
      InsertCharactersExact(Quiet(t.screen), n, GetX(t.screen), GetY(t.screen));
    } else {
      InsertZeroBlanks(Quiet(t.screen), GetX(t.screen), GetY(t.screen));
    }
  }

  /** `CSI n P`, for every n: the row moves left, and then the blanks are written that the law of delete
      character describes; with no more characters than remain they are the end of the row. */
  lemma DeleteSequence(cfg: Config, t: Term, n: u32)
    requires Idle(t.parser)
    ensures var s, x, y := t.screen, GetX(t.screen), GetY(t.screen);
      var d := BeforeBlanks(s, n, x, y);
      PutAll(cfg, t, Csi([n], 0x50)).screen ==
        s.(lines := Replaced(d.lines, CellsWritten(d, n), Blank(s)), cursorX := x, cursorY := y)
    ensures var s, x, y := t.screen, GetX(t.screen), GetY(t.screen);
      n <= s.cols - x ==>
        PutAll(cfg, t, Csi([n], 0x50)).screen == RowChanged(s, y, Deleted(s.lines[y], x, n, Blank(s)), x, y)
  {
    hide PutAll, Csi, DeleteCharacters, Replaced;
    EditSequence(cfg, t, n, 0x50);
    var s, x, y := t.screen, GetX(t.screen), GetY(t.screen);
    DeleteRunsOn(Quiet(s), n, x, y);
    QuietBlanks(s, n, x, y);
    if n <= s.cols - x {
      DeleteCharactersExact(Quiet(s), n, x, y);
    }
  }

  lemma QuietBlanks(s: Screen, n: u32, x: nat, y: nat)
    requires x < s.cols && y < s.rows
    ensures var d, q := BeforeBlanks(s, n, x, y), BeforeBlanks(Quiet(s), n, x, y);
      Replaced(q.lines, CellsWritten(q, n), Blank(s)) == Replaced(d.lines, CellsWritten(d, n), Blank(s))
  {
    hide Replaced, DeletedUpTo;
    var d, q := BeforeBlanks(s, n, x, y), BeforeBlanks(Quiet(s), n, x, y);
    assert q == Quiet(d);
    QuietCells(d, d, n);
  }

  /** `CSI n X`, for every n and cursor: blanks in the cells that n characters are written to. */
  lemma EraseCharactersSequence(cfg: Config, t: Term, n: u32)
    requires Idle(t.parser)
    ensures var s, x, y := t.screen, GetX(t.screen), GetY(t.screen);
      PutAll(cfg, t, Csi([n], 0x58)).screen ==
        s.(lines := Replaced(s.lines, CellsWritten(s, n), Blank(s)), cursorX := x, cursorY := y)
  {
    hide PutAll, Csi, EraseCharacters, Replaced;
    EditSequence(cfg, t, n, 0x58);
    EraseCharactersExact(Quiet(t.screen), n);
    QuietCells(t.screen, t.screen, n);
  }

  /** `CSI n K`, in every state of the cursor. */
  lemma EraseLineSequence(cfg: Config, t: Term, mode: u32)
    requires Idle(t.parser)
    ensures var s, x, y := t.screen, GetX(t.screen), GetY(t.screen);
      PutAll(cfg, t, Csi([mode], 0x4b)).screen ==
        if mode == 0 then s.(lines := Replaced(s.lines, CellsWritten(s, s.cols - x), Blank(s)), cursorX := x,
          cursorY := y)
        else if mode == 1 then RowChanged(s, y, Overwritten(s.lines[y], 0, x, Blank(s)), x, y)
        else if mode == 2 then RowChanged(s, y, Overwritten(s.lines[y], 0, s.cols, Blank(s)), x, y)
        else s
  {
    hide PutAll, Csi, Replaced, RawPuts, Touched, SetCursor;
    EditSequence(cfg, t, mode, 0x4b);
    if mode == 0 {
      EraseLineRunsOn(Quiet(t.screen));
      QuietCells(t.screen, t.screen, t.screen.cols - GetX(t.screen));
    } else if mode <= 2 {
      EraseLineExact(Quiet(t.screen), mode, GetX(t.screen), GetY(t.screen));
    }
  }

  /** `CSI n J`, in every state of margins and cursor: the cells that the laws of erasing describe, or all of
      them; nothing scrolls and the cursor stays. */
  lemma EraseDisplaySequence(cfg: Config, t: Term, mode: u32)
    requires Idle(t.parser)
    ensures var s, x, y := t.screen, GetX(t.screen), GetY(t.screen);
      PutAll(cfg, t, Csi([mode], 0x4a)).screen ==
        if mode == 0 then s.(lines := Replaced(s.lines, BlankedToEnd(s), Blank(s)), cursorX := x, cursorY := y)
        else if mode == 1 then s.(lines := Replaced(s.lines, BlankedFromStart(s, x, y), Blank(s)), cursorX := x,
          cursorY := y)
        else if mode == 2 || mode == 3 then s.(lines := BlankLines(s))
        else s
  {
    hide PutAll, Csi, Replaced, EraseToEnd, EraseFromStart;
    EditSequence(cfg, t, mode, 0x4a);
    var s, q := t.screen, Quiet(t.screen);
    if mode == 0 {
      EraseToEndExact(q);
      QuietErase(s, GetX(s), GetY(s));
    } else if mode == 1 {
      EraseFromStartExact(q, GetX(s), GetY(s));
      QuietErase(s, GetX(s), GetY(s));
    } else if mode <= 3 {
      assert BlankLine(q) == BlankLine(s);
      assert BlankLines(q) == BlankLines(s);
    }
  }

  lemma QuietErase(s: Screen, x: nat, y: nat)
    ensures Replaced(s.lines, BlankedToEnd(Quiet(s)), Blank(s)) == Replaced(s.lines, BlankedToEnd(s), Blank(s))
    ensures Replaced(s.lines, BlankedFromStart(Quiet(s), x, y), Blank(s)) ==
      Replaced(s.lines, BlankedFromStart(s, x, y), Blank(s))
  {
    hide Replaced;
    var q := Quiet(s);
    forall r: nat, i: nat
      ensures BlankedToEnd(q)(r, i) == BlankedToEnd(s)(r, i)
      ensures BlankedFromStart(q, x, y)(r, i) == BlankedFromStart(s, x, y)(r, i)
    {
      assert Reaches(q, r) == Reaches(s, r);
    }
    ReplacedAlike(s.lines, BlankedToEnd(q), BlankedToEnd(s), Blank(s));
    ReplacedAlike(s.lines, BlankedFromStart(q, x, y), BlankedFromStart(s, x, y), Blank(s));
  }

  /** `CSI n M`: row r of the scroll region shows what was n rows below it. */
  lemma DeleteLinesSequence(cfg: Config, t: Term, n: u32, r: nat)
    requires Idle(t.parser) && r < t.screen.rows
    ensures var s := t.screen;
      var after := PutAll(cfg, t, Csi([n], 0x4d)).screen;
      && after.rows == s.rows && after.cursorX == s.cursorX && after.cursorY == s.cursorY
      && after.lines[r] == if s.top <= r < s.bottom then (if r + n < s.bottom then s.lines[r + n] else BlankLine(s))
        else s.lines[r]
  {
    hide PutAll, Csi, ScrollTimes;
    EditSequence(cfg, t, n, 0x4d);
    ScrollTimesShifts(Quiet(t.screen), n, r);
    assert BlankLine(Quiet(t.screen)) == BlankLine(t.screen);
  }

  /** Row `r` after `n` lines are deleted at row `y`, as the standard wants: nothing above the cursor's row
      moves, and nothing at all if that row is outside the region (section 8.3.32 of ECMA-48). */
  function DeletedLine(s: Screen, n: nat, y: nat, r: nat): seq<Cell>
    requires r < s.rows
  {
    if s.top <= y <= r < s.bottom then (if r + n < s.bottom then s.lines[r + n] else BlankLine(s)) else s.lines[r]
  }

  /** The code scrolls the whole region, whatever the cursor's row, and leaves the cursor where it is: it does what
      delete line is for exactly if the rows that should not have moved were like the ones n below them already, and
      the cursor was in the first column already. */
  lemma DeleteLinesMeetsStandard(cfg: Config, t: Term, n: u32)
    requires Idle(t.parser)
    ensures var s, y := t.screen, GetY(t.screen);
      var after := PutAll(cfg, t, Csi([n], 0x4d)).screen;
      && after.rows == s.rows
      && ((forall r :: 0 <= r < s.rows ==> after.lines[r] == DeletedLine(s, n, y, r)) <==>
        forall r :: 0 <= r < s.rows ==>
          s.top <= r < s.bottom && !(s.top <= y <= r) ==> RowIs(s, r, ScrolledRow(s, n, r)))
      && (after.cursorX == 0 && after.cursorY == y <==> s.cursorX == 0 && s.cursorY < s.rows)
  {
    hide PutAll, Csi, BlankLine;
    var s, y := t.screen, GetY(t.screen);
    var after := PutAll(cfg, t, Csi([n], 0x4d)).screen;
    DeleteLinesSequence(cfg, t, n, 0);
    forall r | 0 <= r < s.rows
      ensures after.lines[r] == DeletedLine(s, n, y, r) <==>
        (s.top <= r < s.bottom && !(s.top <= y <= r) ==> RowIs(s, r, ScrolledRow(s, n, r)))
    {
      DeleteLinesSequence(cfg, t, n, r);
    }
  }

  /** Row `r` after `n` lines are inserted at row `y`, as the standard wants (section 8.3.67 of ECMA-48). */
  function InsertedLine(s: Screen, n: nat, y: nat, r: nat): seq<Cell>
    requires r < s.rows
  {
    if s.top <= y <= r < s.bottom then (if y <= r - n then s.lines[r - n] else BlankLine(s)) else s.lines[r]
  }

  /** The code moves rows above the region too, and blanks the cursor's row below it: it does what insert line is for
      exactly if the cursor is in the region, or the rows that should not have changed were as they become already;
      and the cursor was in the first column already. */
  lemma InsertLinesMeetsStandard(cfg: Config, t: Term, n: u32)
    requires Idle(t.parser)
    ensures var s, y := t.screen, GetY(t.screen);
      var after := PutAll(cfg, t, Csi([n], 0x4c)).screen;
      && after.rows == s.rows
      && ((forall r :: 0 <= r < s.rows ==> after.lines[r] == InsertedLine(s, n, y, r)) <==>
        (s.top <= y < s.bottom || forall r :: 0 <= r < s.rows ==>
          (y <= r < s.bottom ==> RowIs(s, r, RaisedRow(s, n, y, r))) &&
          (r == y >= s.bottom && n > 0 ==> RowIs(s, r, BlankLine(s)))))
      && (after.cursorX == 0 && after.cursorY == y <==> s.cursorX == 0 && s.cursorY < s.rows)
  {
    hide PutAll, Csi, BlankLine;
    var s, y := t.screen, GetY(t.screen);
    var after := PutAll(cfg, t, Csi([n], 0x4c)).screen;
    InsertLinesSequence(cfg, t, n, 0);
    forall r | 0 <= r < s.rows
      ensures after.lines[r] == InsertedLine(s, n, y, r) <==>
        (s.top <= y < s.bottom ||
          ((y <= r < s.bottom ==> RowIs(s, r, RaisedRow(s, n, y, r))) &&
          (r == y >= s.bottom && n > 0 ==> RowIs(s, r, BlankLine(s)))))
    {
      InsertLinesSequence(cfg, t, n, r);
    }
  }

  /** The row `n` above that is not above row `y`, or a blank one. */
  function RaisedRow(s: Screen, n: nat, y: nat, r: nat): seq<Cell>
    requires r < s.rows
  {
    if y <= r - n then s.lines[r - n] else BlankLine(s)
  }

  /** The row `n` below, or a blank one. */
  function ScrolledRow(s: Screen, n: nat, r: nat): seq<Cell>
    requires r < s.rows
  {
    if r + n < s.bottom then s.lines[r + n] else BlankLine(s)
  }

  predicate RowIs(s: Screen, r: nat, row: seq<Cell>)
    requires r < s.rows
  {
    s.lines[r] == row
  }

  /** `CSI n L`: from the cursor's row to the bottom margin, row r shows what was n rows above it. */
  lemma InsertLinesSequence(cfg: Config, t: Term, n: u32, r: nat)
    requires Idle(t.parser) && r < t.screen.rows
    ensures var s, y := t.screen, GetY(t.screen);
      var after := PutAll(cfg, t, Csi([n], 0x4c)).screen;
      && after.rows == s.rows && after.cursorX == s.cursorX && after.cursorY == s.cursorY
      && after.lines[r] ==
        if y < s.bottom then
          (if y <= r < s.bottom then (if y <= r - n then s.lines[r - n] else BlankLine(s)) else s.lines[r])
        else if r == y && n > 0 then BlankLine(s) else s.lines[r]
  {
    hide PutAll, Csi, RevScrollTimes;
    EditSequence(cfg, t, n, 0x4c);
    InsertedLines(Quiet(t.screen), n, GetY(t.screen), r);
    assert BlankLine(Quiet(t.screen)) == BlankLine(t.screen);
  }

  function Min(a: int, b: int): int {
    if a < b then a else b
  }

  function Max(a: int, b: int): int {
    if a > b then a else b
  }

  /** `CSI n A` and `CSI n B`: a cursor at or below the top margin does not pass it going up; a cursor
      above the bottom margin does not pass it going down; one exactly at the row of the bottom margin is
      pulled up above it; elsewhere only the edge of the screen stops it. */
  lemma VerticalMoves(cfg: Config, t: Term, n: u32)
    requires Idle(t.parser)
    ensures var s, x, y := t.screen, GetX(t.screen), GetY(t.screen);
      var up, down := PutAll(cfg, t, Csi([n], 0x41)).screen, PutAll(cfg, t, Csi([n], 0x42)).screen;
      && up == s.(cursorX := x, cursorY := if y >= s.top then Max(s.top, y - n) else Max(0, y - n))
      && down == s.(cursorX := x, cursorY := if y <= s.bottom then Min(s.bottom - 1, y + n) else Min(s.rows - 1, y + n))
  {
    hide PutAll, Csi, RowUp, RowDown, SetCursor;
    MoveSequence(cfg, t, n, 0x41);
    MoveSequence(cfg, t, n, 0x42);
    VerticalRows(t.screen, GetY(t.screen), n);
    var s, x, y := t.screen, GetX(t.screen), GetY(t.screen);
    CursorReturns(s, x, RowUp(s, y, AtMost(n, y)));
    CursorReturns(s, x, RowDown(s, y, AtMost(n, s.rows - 1 - y)));
  }

  lemma VerticalRows(s: Screen, y: nat, n: u32)
    requires y < s.rows && s.top < s.bottom
    ensures RowUp(s, y, AtMost(n, y)) == if y >= s.top then Max(s.top, y - n) else Max(0, y - n)
    ensures RowDown(s, y, AtMost(n, s.rows - 1 - y)) == if y <= s.bottom then Min(s.bottom - 1, y + n)
      else Min(s.rows - 1, y + n)
    ensures RowUp(s, y, AtMost(n, y)) < s.rows && RowDown(s, y, AtMost(n, s.rows - 1 - y)) < s.rows
  {
  }

  lemma MoveSequence(cfg: Config, t: Term, n: u32, c: byte)
    requires Idle(t.parser) && (c == 0x41 || c == 0x42)
    ensures PutAll(cfg, t, Csi([n], c)).screen ==
      SetCursor(t.screen, ToU64(GetX(t.screen)),
        ToU64(if c == 0x41 then RowUp(t.screen, GetY(t.screen), AtMost(n, GetY(t.screen)))
        else RowDown(t.screen, GetY(t.screen), AtMost(n, t.screen.rows - 1 - GetY(t.screen)))))
  {
    hide PutAll, Parameters, WithParser, WithScreen, Clamped, SetCursor, RowUp, RowDown;
    ControlSequenceRoundTrip(cfg, t, [n], c);
    var u := WithParser(t, Parsed(t.parser, [n], c));
    assert ReadValues([n], DefaultValue(c))[0] == n;
    MoveFunction(cfg, u, c);
    MoveWhileQuiet(t.screen, n, c, u.parser.values);
  }

  /** One-based, at least 1 and at most `limit`. */
  function Within(v: u32, limit: nat): nat
    requires limit >= 1
  {
    Min(Max(v, 1), limit)
  }

  /** `CSI row ; column H`: the cursor goes to that one-based position, or as near as the screen allows;
      zero, which is no position, goes to the first. */
  lemma PositionSequence(cfg: Config, t: Term, row: u32, column: u32)
    requires Idle(t.parser)
    ensures var s := t.screen;
      PutAll(cfg, t, Csi([row, column], 0x48)).screen ==
        s.(cursorX := Within(column, s.cols) - 1, cursorY := Within(row, s.rows) - 1)
  {
    hide PutAll, Parameters, WithParser, WithScreen, Clamped, SetCursor;
    ControlSequenceRoundTrip(cfg, t, [row, column], 0x48);
    var u := WithParser(t, Parsed(t.parser, [row, column], 0x48));
    var values := ReadValues([row, column], DefaultValue(0x48));
    assert values[0] == row && values[1] == column;
    PositionFunction(cfg, u);
    Placed(Quiet(t.screen), row, column);
  }

  lemma PositionFunction(cfg: Config, t: Term)
    ensures Control(cfg, t, 0x48).screen == SetCursor(Quiet(t.screen),
      FromOneOrZero(t.parser.values[1], t.screen.cols),
        FromOneOrZero(t.parser.values[0], t.screen.rows)).(scrollEnabled := true)
  {
    hide EditScreen, WithParser, WithScreen, Clamped, WithPen, SaveCursorTerm, Mode, SetMargins, TermOk, SetCursor;
    assert Control(cfg, t, 0x48) == ScreenFunction(t, 0x48);
  }

  lemma Placed(s: Screen, row: u32, column: u32)
    ensures SetCursor(s, FromOneOrZero(column, s.cols), FromOneOrZero(row, s.rows)) ==
      s.(cursorX := Within(column, s.cols) - 1, cursorY := Within(row, s.rows) - 1)
  {
  }

  /** `CSI first ; last r`: rows first to last, one-based with zero as one, become the scroll region if they
      are at least two rows of the screen; otherwise the whole screen does. The cursor goes home. */
  lemma MarginsSequence(cfg: Config, t: Term, first: u32, last: u32)
    requires Idle(t.parser)
    ensures PutAll(cfg, t, Csi([first, last], 0x72)).screen == WithRegion(t.screen, Max(first, 1), Max(last, 1))
  {
    hide PutAll, Parameters, WithParser, WithScreen, Clamped, SetMargins;
    ControlSequenceRoundTrip(cfg, t, [first, last], 0x72);
    var u := WithParser(t, Parsed(t.parser, [first, last], 0x72));
    var values := ReadValues([first, last], DefaultValue(0x72));
    assert values[0] == first && values[1] == last;
    MarginsFunction(cfg, u);
    NewMargins(Quiet(t.screen), values);
  }

  lemma MarginsFunction(cfg: Config, t: Term)
    ensures Control(cfg, t, 0x72).screen ==
      SetMargins(Quiet(t.screen), t.parser.values, t.parser.count).(scrollEnabled := true)
  {
    hide EditScreen, WithParser, WithScreen, Clamped, WithPen, SaveCursorTerm, Mode, SetMargins, TermOk, MoveCursor;
    assert Control(cfg, t, 0x72) == ScreenFunction(t, 0x72);
  }

  lemma NewMargins(s: Screen, values: seq<u32>)
    requires |values| == MAX_VALUES
    ensures SetMargins(s, values, 2) == WithRegion(s, Max(values[0], 1), Max(values[1], 1))
  {
  }

  function WithRegion(s: Screen, first: nat, last: nat): Screen
    requires first >= 1
  {
    if first < last <= s.rows then s.(top := first - 1, bottom := last, cursorX := 0, cursorY := 0)
    else s.(top := 0, bottom := s.rows, cursorX := 0, cursorY := 0)
  }

  lemma MoveFunction(cfg: Config, t: Term, c: byte)
    requires IsMotion(c)
    ensures Control(cfg, t, c).screen ==
      MoveCursor(Quiet(t.screen), c, t.parser.values, GetX(t.screen), GetY(t.screen)).(scrollEnabled := true)
  {
    hide MoveCursor, EditScreen, WithParser, WithScreen, Clamped, WithPen, SaveCursorTerm, Mode, SetMargins, TermOk;
    assert Control(cfg, t, c) == ScreenFunction(t, c);
  }

  lemma MoveWhileQuiet(s: Screen, n: u32, c: byte, values: seq<u32>)
    requires (c == 0x41 || c == 0x42) && |values| == MAX_VALUES && values[0] == n && s.scrollEnabled
    ensures MoveCursor(Quiet(s), c, values, GetX(s), GetY(s)).(scrollEnabled := true) ==
      SetCursor(s, ToU64(GetX(s)), ToU64(if c == 0x41 then RowUp(s, GetY(s), AtMost(n, GetY(s)))
        else RowDown(s, GetY(s), AtMost(n, s.rows - 1 - GetY(s)))))
  {
    hide RowUp, RowDown, Clamp;
    QuietRows(s, GetY(s), AtMost(n, GetY(s)));
    QuietRows(s, GetY(s), AtMost(n, s.rows - 1 - GetY(s)));
  }

  lemma QuietRows(s: Screen, y: nat, n: nat)
    ensures n <= y ==> RowUp(Quiet(s), y, n) == RowUp(s, y, n)
    ensures RowDown(Quiet(s), y, n) == RowDown(s, y, n)
  {
  }

  // ---- The first state

  /** A terminal that has just been initialised over a backend in its default colours is in a state that the
      laws of parsing, of control sequences and of colours start from. */
  lemma InitialTerminal(cfg: Config, s: Screen)
    requires Settled(s) && s.textFg == cfg.palette.defaultFg && s.textBg == TRANSPARENT
    ensures var t := Reinit(ZeroedTerm(s));
      Idle(t.parser) && Consistent(t.parser) && Agrees(cfg.palette, PenOf(t)) && t.autoflush
    ensures var t := Reinit(ZeroedTerm(s));
      && t.screen == s.(cursorEnabled := true, top := 0, bottom := s.rows)
      && t.rendition == Rendition(false, false, false, None, None)
      && t.savedRendition == Rendition(false, false, false, Some(0), Some(0))
      && t.charsets == [Default, DecSpecial] && t.currentCharset == 0 && t.savedCharset == 0
      && !t.insertMode && t.newlineReturns && t.tabSize == 8 && t.savedX == 0 && t.savedY == 0
  {
  }

  // ---- Graphic rendition

  /** The parameters that are kept of each sequence. */
  function Kept(vs: seq<u32>): (r: seq<u32>)
    ensures |r| == MinValues(|vs|)
  {
    vs[..MinValues(|vs|)]
  }

  function AllKept(runs: seq<seq<u32>>): (r: seq<seq<u32>>)
    ensures |r| == |runs|
  {
    seq(|runs|, i requires 0 <= i < |runs| => Kept(runs[i]))
  }

  /** `CSI ... m` selects the rendition of its first sixteen parameters; of the screen it changes only the
      colours, and the next sequence can follow. */
  lemma RenditionSequence(cfg: Config, t: Term, vs: seq<u32>)
    requires Idle(t.parser)
    ensures var after := PutAll(cfg, t, Csi(vs, 0x6d));
      && PenOf(after) == SelectRendition(cfg.palette, cfg.table, PenOf(t), Kept(vs))
      && after.screen == t.screen.(textFg := after.screen.textFg, textBg := after.screen.textBg)
      && Idle(after.parser)
  {
    hide PutAll, Parameters, SelectRendition, TermOk;
    ControlSequenceRoundTrip(cfg, t, vs, 0x6d);
    var p := Parsed(t.parser, vs, 0x6d);
    assert p.values[..p.count] == Kept(vs);
    SelectFunction(cfg, WithParser(t, p));
  }

  lemma SelectFunction(cfg: Config, t: Term)
    ensures var after := Finish(Control(cfg, t, 0x6d));
      && PenOf(after) == SelectRendition(cfg.palette, cfg.table, PenOf(t), t.parser.values[..t.parser.count])
      && after.screen == t.screen.(textFg := after.screen.textFg, textBg := after.screen.textBg)
      && after.parser == Finish(t).parser
  {
    hide SelectRendition, ScreenFunction, Mode, SaveCursorTerm;
  }

  /** The bytes of several such sequences. */
  function Renditions(runs: seq<seq<u32>>): seq<byte> {
    if |runs| == 0 then [] else Renditions(runs[..|runs| - 1]) + Csi(runs[|runs| - 1], 0x6d)
  }

  /** Bytes of any number of sequences do what their parameter lists do one after the other. */
  lemma {:induction false} RenditionsSelect(cfg: Config, t: Term, runs: seq<seq<u32>>)
    requires Idle(t.parser)
    ensures var after := PutAll(cfg, t, Renditions(runs));
      Idle(after.parser) && PenOf(after) == Selections(cfg.palette, cfg.table, PenOf(t), AllKept(runs))
  {
    hide SelectRendition, Csi, Idle, PenOf, PutChar, Kept;
    if |runs| > 0 {
      var front, last := runs[..|runs| - 1], runs[|runs| - 1];
      RenditionsSelect(cfg, t, front);
      PutAllConcat(cfg, t, Renditions(front), Csi(last, 0x6d));
      RenditionSequence(cfg, PutAll(cfg, t, Renditions(front)), last);
      assert AllKept(runs)[..|runs| - 1] == AllKept(front);
    }
  }

  /** From the bytes to the colours: after any number of sequences of standard codes that never write a
      default colour of the wrong plane, the colours in use are those of the rendition state. */
  lemma RenditionsAgree(cfg: Config, t: Term, runs: seq<seq<u32>>)
    requires Idle(t.parser) && Agrees(cfg.palette, PenOf(t))
    requires SafeSelections(cfg.palette, cfg.table, PenOf(t), AllKept(runs))
    ensures Agrees(cfg.palette, PenOf(PutAll(cfg, t, Renditions(runs))))
  {
    hide PutAll, Renditions, Agrees, SafeSelections, AllKept;
    RenditionsSelect(cfg, t, runs);
    SelectionsAgree(cfg.palette, cfg.table, PenOf(t), AllKept(runs));
  }
}
