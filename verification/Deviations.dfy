/** Inputs on which the terminal does not do what its control functions are for, with what it does instead: bytes
    read by a terminal that has just been initialised. The exact conditions stand beside the laws of each function. */
module Deviations {
  import opened Setups
  import opened Basics
  import opened Screens
  import opened Editing
  import opened EditingLaws
  import opened RunOn
  import opened ScreenLaws
  import opened Sgr
  import opened Terminals
  import opened ParserLaws
  import opened SequenceLaws
  import opened EscapeLaws
  import opened ControlLaws
  import opened TextLaws
  import opened InsertModeLaws

  // ---- Within a row

  /** `CSI 0 @` should insert nothing. */
  lemma InsertZero(cfg: Config)
    ensures PutAll(cfg, Start(cfg, 1, 3), Text("ABC") + Csi([0], 0x40)).screen.lines == [Row(cfg, "AB ")]
  {
    hide PutAll, Csi, TermOk;
    PutAllConcat(cfg, Start(cfg, 1, 3), Text("ABC"), Csi([0], 0x40));
    FilledScreen(cfg);
    InsertSequence(cfg, Filled(cfg), 0);
    var s := Filled(cfg).screen;
    assert Overwritten(s.lines[0], 2, 1, Blank(s)) == Row(cfg, "AB ");
  }

  /** `CSI 2 P` in the last of three columns should leave the first two alone. */
  lemma DeletePastEnd(cfg: Config)
    ensures PutAll(cfg, Start(cfg, 1, 3), Text("ABC") + Csi([2], 0x50)).screen.lines == [Row(cfg, "A  ")]
  {
    hide PutAll, Csi, TermOk;
    PutAllConcat(cfg, Start(cfg, 1, 3), Text("ABC"), Csi([2], 0x50));
    FilledScreen(cfg);
    DeleteSequence(cfg, Filled(cfg), 2);
    TwoBlanked(cfg, Filled(cfg).screen);
  }

  lemma TwoBlanked(cfg: Config, s: Screen)
    requires s == Display(cfg, [Row(cfg, "ABC")], 3, 0, 1)
    ensures var d := BeforeBlanks(s, 2, 2, 0);
      Replaced(d.lines, CellsWritten(d, 2), Blank(s)) == [Row(cfg, "A  ")]
  {
    var d := BeforeBlanks(s, 2, 2, 0);
    assert DeletedUpTo(s.lines[0], 2, 2, 3) == s.lines[0];
    assert Replaced(d.lines, CellsWritten(d, 2), Blank(s))[0] == Row(cfg, "A  ");
  }

  /** `CSI 0 K` with a wrap pending should erase the cursor's cell. */
  lemma ErasePending(cfg: Config)
    ensures PutAll(cfg, Start(cfg, 1, 3), Text("ABC") + Csi([0], 0x4b)).screen.lines == [Row(cfg, "ABC")]
  {
    hide PutAll, Csi, TermOk;
    PutAllConcat(cfg, Start(cfg, 1, 3), Text("ABC"), Csi([0], 0x4b));
    FilledScreen(cfg);
    EraseLineSequence(cfg, Filled(cfg), 0);
    var s := Filled(cfg).screen;
    assert Replaced(s.lines, CellsWritten(s, 1), Blank(s))[0] == Row(cfg, "ABC");
  }

  /** `CSI 1 K` should erase the cursor's cell too. */
  lemma EraseToCursor(cfg: Config)
    ensures PutAll(cfg, Start(cfg, 1, 3), Text("ABC") + Csi([1], 0x4b)).screen.lines == [Row(cfg, "  C")]
  {
    hide PutAll, Csi, TermOk;
    PutAllConcat(cfg, Start(cfg, 1, 3), Text("ABC"), Csi([1], 0x4b));
    FilledScreen(cfg);
    EraseLineSequence(cfg, Filled(cfg), 1);
    var s := Filled(cfg).screen;
    assert Overwritten(s.lines[0], 0, 2, Blank(s)) == Row(cfg, "  C");
  }

  /** `CSI 0 G` should go to the column nearest to no column, the first, and goes to the last. */
  lemma ColumnZero(cfg: Config)
    ensures PutAll(cfg, Start(cfg, 1, 3), Text("ABC") + Csi([1, 1], 0x48) + Csi([0], 0x47)).screen.cursorX == 2
  {
    hide PutAll, Csi, TermOk;
    PutAllConcat(cfg, Start(cfg, 1, 3), Text("ABC") + Csi([1, 1], 0x48), Csi([0], 0x47));
    FilledHomeScreen(cfg);
    MotionSequence(cfg, FilledHome(cfg), 0, 0x47);
    assert ReadValues([0], 1)[0] == 0;
  }

  // ---- Past the end of the row, and margins

  /** `CSI 2 X` in the last column should erase one cell. */
  lemma ErasePastEnd(cfg: Config)
    ensures PutAll(cfg, Start(cfg, 2, 2), SquareBytes() + Csi([1, 2], 0x48) + Csi([2], 0x58)).screen.lines ==
      [Row(cfg, "A "), Row(cfg, "  ")]
  {
    hide PutAll, Csi, TermOk, SquareBytes;
    var t, u := Start(cfg, 2, 2), Square(cfg);
    SquareScreen(cfg);
    PutAllConcat(cfg, t, SquareBytes(), Csi([1, 2], 0x48));
    PutAllConcat(cfg, t, SquareBytes() + Csi([1, 2], 0x48), Csi([2], 0x58));
    PositionSequence(cfg, u, 1, 2);
    PlainSequence(cfg, u, [1, 2], 0x48);
    var v := PutAll(cfg, u, Csi([1, 2], 0x48));
    EraseCharactersSequence(cfg, v, 2);
    var s := v.screen;
    assert RowsOn(s, 1) == 1;
    assert Replaced(s.lines, CellsWritten(s, 2), Blank(s))[0] == Row(cfg, "A ");
    assert Replaced(s.lines, CellsWritten(s, 2), Blank(s))[1] == Row(cfg, "  ");
  }

  /** `CSI 1 M` in the second row should leave the first alone. */
  lemma DeleteLineBelow(cfg: Config)
    ensures PutAll(cfg, Start(cfg, 2, 2), SquareBytes() + Csi([2, 1], 0x48) + Csi([1], 0x4d)).screen.lines ==
      [Row(cfg, "C "), Row(cfg, "  ")]
  {
    hide PutAll, Csi, TermOk, SquareBytes;
    var t, u := Start(cfg, 2, 2), Square(cfg);
    SquareScreen(cfg);
    PutAllConcat(cfg, t, SquareBytes(), Csi([2, 1], 0x48));
    PutAllConcat(cfg, t, SquareBytes() + Csi([2, 1], 0x48), Csi([1], 0x4d));
    PositionSequence(cfg, u, 2, 1);
    PlainSequence(cfg, u, [2, 1], 0x48);
    var v := PutAll(cfg, u, Csi([2, 1], 0x48));
    DeleteLinesSequence(cfg, v, 1, 0);
    DeleteLinesSequence(cfg, v, 1, 1);
    assert BlankLine(v.screen) == Row(cfg, "  ");
  }

  /** `CSI 1 M` should also take the cursor to the first column. */
  lemma DeleteLineCursor(cfg: Config)
    ensures PutAll(cfg, Start(cfg, 1, 3), Text("ABC") + Csi([1], 0x4d)).screen.cursorX == 3
  {
    hide PutAll, Csi, TermOk;
    PutAllConcat(cfg, Start(cfg, 1, 3), Text("ABC"), Csi([1], 0x4d));
    FilledScreen(cfg);
    DeleteLinesSequence(cfg, Filled(cfg), 1, 0);
  }

  /** `CSI 1 L` below the scroll region should change nothing. */
  lemma InsertLineBelow(cfg: Config)
    ensures PutAll(cfg, Start(cfg, 3, 4), BelowBytes() + Csi([1], 0x4c)).screen.lines ==
      [Row(cfg, "    "), Row(cfg, "    "), Row(cfg, "    ")]
  {
    hide PutAll, Csi, TermOk, BelowBytes;
    PutAllConcat(cfg, Start(cfg, 3, 4), BelowBytes(), Csi([1], 0x4c));
    BelowScreen(cfg);
    InsertLinesSequence(cfg, Below(cfg), 1, 0);
    InsertLinesSequence(cfg, Below(cfg), 1, 1);
    InsertLinesSequence(cfg, Below(cfg), 1, 2);
    assert BlankLine(Below(cfg).screen) == Row(cfg, "    ");
  }

  /** `CSI 1 J` below the scroll region should erase the rows through the cursor. */
  lemma EraseFromStartBelow(cfg: Config)
    ensures PutAll(cfg, Start(cfg, 3, 4), BelowBytes() + Csi([1], 0x4a)).screen.lines ==
      [Row(cfg, "    "), Row(cfg, "    "), Row(cfg, "A   ")]
  {
    hide PutAll, Csi, TermOk, BelowBytes;
    PutAllConcat(cfg, Start(cfg, 3, 4), BelowBytes(), Csi([1], 0x4a));
    BelowScreen(cfg);
    EraseDisplaySequence(cfg, Below(cfg), 1);
    var s := Below(cfg).screen;
    FromStartRow(s, 1, 2, 0);
    FromStartRow(s, 1, 2, 1);
    FromStartRow(s, 1, 2, 2);
  }

  /** `CSI 0 J` inside the scroll region should erase the rows below it as well. */
  lemma EraseToEndAbove(cfg: Config)
    ensures PutAll(cfg, Start(cfg, 3, 4), BelowBytes() + Csi([1, 1], 0x48) + Csi([0], 0x4a)).screen.lines ==
      [Row(cfg, "    "), Row(cfg, "    "), Row(cfg, "A   ")]
  {
    hide PutAll, Csi, TermOk, BelowBytes;
    var t, u := Start(cfg, 3, 4), Below(cfg);
    BelowScreen(cfg);
    PutAllConcat(cfg, t, BelowBytes(), Csi([1, 1], 0x48));
    PutAllConcat(cfg, t, BelowBytes() + Csi([1, 1], 0x48), Csi([0], 0x4a));
    PositionSequence(cfg, u, 1, 1);
    PlainSequence(cfg, u, [1, 1], 0x48);
    var v := PutAll(cfg, u, Csi([1, 1], 0x48));
    EraseDisplaySequence(cfg, v, 0);
    var s := v.screen;
    assert !Reaches(s, 2);
    ToEndRow(s, 0);
    ToEndRow(s, 1);
    ToEndRow(s, 2);
  }

  // ---- Wrapping

  /** With one column, the second character should go to the second row: it goes to the first again. */
  lemma WrapClamped(cfg: Config)
    ensures PutAll(cfg, Start(cfg, 3, 1), Text("A") + Text("B")).screen.lines ==
      [Row(cfg, "B"), Row(cfg, " "), Row(cfg, " ")]
  {
    hide PutAll, TermOk, Scroll;
    var t := Start(cfg, 3, 1);
    Started(cfg, 3, 1);
    PutAllConcat(cfg, t, Text("A"), Text("B"));
    TextWritten(cfg, t, Text("A"));
    var u := PutAll(cfg, t, Text("A"));
    assert Text("B") == [0x42];
    OneTyped(cfg, u, 0x42);
    var s := u.screen;
    assert s.cursorX == 1 && s.cursorY == 0 && s.bottom == 3;
    assert s.lines[1] == Row(cfg, " ") && s.lines[2] == Row(cfg, " ");
    assert s.lines[0][0 := Cell(0x42, s.textFg, s.textBg)] == Row(cfg, "B");
  }

  lemma OneTyped(cfg: Config, t: Term, c: byte)
    requires Plain(t) && !t.insertMode && 0x20 <= c <= 0x7e
    ensures PutAll(cfg, t, [c]).screen == RawPut(t.screen, c)
  {
    hide PutAll, RawPut, TermOk, Idle;
    PlainText(cfg, t, [c]);
    assert [c][..0] == [];
    assert PutText(t.screen, []) == t.screen;
  }

  /** In the last row of the screen, below the scroll region, a character past the end should appear in that row: it
      appears nowhere, and the cursor is below the screen. */
  lemma WrapLost(cfg: Config)
    ensures var r := PutAll(cfg, Start(cfg, 3, 4), BelowBytes() + Text("BCD") + Text("E")).screen;
      r.lines == [Row(cfg, "    "), Row(cfg, "    "), Row(cfg, "ABCD")] && r.cursorY == r.rows
  {
    hide PutAll, TermOk, BelowBytes, Scroll;
    var t, u := Start(cfg, 3, 4), Below(cfg);
    BelowScreen(cfg);
    PutAllConcat(cfg, t, BelowBytes(), Text("BCD"));
    PutAllConcat(cfg, t, BelowBytes() + Text("BCD"), Text("E"));
    TextWritten(cfg, u, Text("BCD"));
    assert Spelled(u.screen, 2, 1, Text("BCD")) == Row(cfg, "ABCD");
    assert Text("E") == [0x45];
    OneTyped(cfg, PutAll(cfg, u, Text("BCD")), 0x45);
  }

  // ---- Insert mode

  /** With a wrap pending, insert mode should move the row that wrapping leads to: `C` is overwritten. */
  lemma InsertModePending(cfg: Config)
    ensures PutAll(cfg, Start(cfg, 2, 2), SquareBytes() + Csi([4], 0x68) + Text("D")).screen.lines ==
      [Row(cfg, "AB"), Row(cfg, "D ")]
  {
    hide PutAll, Csi, TermOk, SquareBytes, WriteByte;
    var t, u := Start(cfg, 2, 2), Square(cfg);
    SquareScreen(cfg);
    PutAllConcat(cfg, t, SquareBytes(), Csi([4], 0x68));
    PutAllConcat(cfg, t, SquareBytes() + Csi([4], 0x68), Text("D"));
    InsertModeOn(cfg, u);
    var v := PutAll(cfg, u, Csi([4], 0x68));
    PlainByte(cfg, v, 0x44);
    assert Text("D") == [0x44];
    InsertModeWrites(v, 0x44, 0x44);
    var s := v.screen;
    assert s.lines[1][0 := Cell(0x44, s.textFg, s.textBg)] == Row(cfg, "D ");
  }

  /** A byte that prints nothing should change nothing: it doubles `A` and pushes `C` out. */
  lemma InsertModeControl(cfg: Config)
    ensures PutAll(cfg, Start(cfg, 1, 3), Text("ABC") + Csi([1, 1], 0x48) + Csi([4], 0x68) + [0x01]).screen.lines ==
      [Row(cfg, "AAB")]
  {
    hide PutAll, Csi, TermOk, WriteByte;
    var t, u := Start(cfg, 1, 3), FilledHome(cfg);
    FilledHomeScreen(cfg);
    PutAllConcat(cfg, t, Text("ABC") + Csi([1, 1], 0x48), Csi([4], 0x68));
    PutAllConcat(cfg, t, Text("ABC") + Csi([1, 1], 0x48) + Csi([4], 0x68), [0x01]);
    InsertModeOn(cfg, u);
    var v := PutAll(cfg, u, Csi([4], 0x68));
    PlainByte(cfg, v, 0x01);
    InsertModeUnprintable(v, 0x01);
    var s := v.screen;
    assert Inserted(s.lines[0], 0, 1, s.lines[0][0]) == Row(cfg, "AAB");
  }

  /** A character outside ASCII should move the row: it overwrites `A`. */
  lemma InsertModeAccent(cfg: Config, glyph: byte)
    requires cfg.codePage(0xe9) == Some(glyph)
    ensures PutAll(cfg, Start(cfg, 1, 3), Text("ABC") + Csi([1, 1], 0x48) + Csi([4], 0x68) + Utf8(0xe9)).screen.lines ==
      [Row(cfg, "ABC")[0 := Cell(glyph, cfg.palette.defaultFg, TRANSPARENT)]]
  {
    hide PutAll, Csi, TermOk, Utf8, RawPuts;
    var t, u := Start(cfg, 1, 3), FilledHome(cfg);
    FilledHomeScreen(cfg);
    PutAllConcat(cfg, t, Text("ABC") + Csi([1, 1], 0x48), Csi([4], 0x68));
    PutAllConcat(cfg, t, Text("ABC") + Csi([1, 1], 0x48) + Csi([4], 0x68), Utf8(0xe9));
    InsertModeOn(cfg, u);
    var v := PutAll(cfg, u, Csi([4], 0x68));
    Utf8RoundTrip(cfg, v, 0xe9);
    OnePut(v.screen, glyph);
  }

  // ---- Colours

  /** `CSI 7;1 m` should be bold text in reverse video: its background is not that of the text. */
  lemma ReverseBold(cfg: Config)
    requires cfg.palette.defaultFgBright == 0x00ff_ffff && cfg.palette.defaultBgBright == 0x0055_5555
    ensures !Agrees(cfg.palette, PenOf(PutAll(cfg, Start(cfg, 1, 3), Csi([7, 1], 0x6d))))
  {
    hide PutAll, Csi, TermOk, SelectRendition, Agrees;
    var t := Start(cfg, 1, 3);
    Started(cfg, 1, 3);
    RenditionSequence(cfg, t, [7, 1]);
    assert Kept([7, 1]) == [7, 1];
    assert PenOf(t) == Reset(cfg.palette);
    ReverseThenBoldDisagrees(cfg.palette, cfg.table);
  }

  // ---- Sequences

  /** `9B 2 J` should clear the screen: it is read as `CSI J`. */
  lemma EightBitErase(cfg: Config)
    ensures PutAll(cfg, Start(cfg, 1, 3), Text("ABC") + ([0x9b] + (Parameters([2]) + [0x4a]))).screen.lines ==
      [Row(cfg, "ABC")]
  {
    hide PutAll, Csi, TermOk, Parameters, EraseToEnd;
    PutAllConcat(cfg, Start(cfg, 1, 3), Text("ABC"), [0x9b] + (Parameters([2]) + [0x4a]));
    FilledScreen(cfg);
    var t := Filled(cfg);
    EightBitOneDigit(cfg, t, 2, 0x4a);
    EraseWithoutParameter(cfg, t);
    EraseDisplaySequence(cfg, t, 0);
    var s := t.screen;
    assert !Reaches(s, 0);
    ToEndRow(s, 0);
  }

  lemma EraseWithoutParameter(cfg: Config, t: Term)
    requires Idle(t.parser)
    ensures PutAll(cfg, t, Csi([], 0x4a)).screen == PutAll(cfg, t, Csi([0], 0x4a)).screen
  {
    hide PutAll, Parameters, EditScreen, WithParser;
    ControlSequenceRoundTrip(cfg, t, [], 0x4a);
    EditFunction(cfg, WithParser(t, Parsed(t.parser, [], 0x4a)), 0x4a);
    EditSequence(cfg, t, 0, 0x4a);
  }

  /** An operating system command should show nothing: a character outside ASCII in it is written. */
  lemma CommandShows(cfg: Config, glyph: byte)
    requires cfg.codePage(0xe9) == Some(glyph)
    ensures PutAll(cfg, Start(cfg, 1, 3), Text("ABC") + Csi([1, 1], 0x48) + [0x1b, 0x5d] + Utf8(0xe9)).screen.lines ==
      [Row(cfg, "ABC")[0 := Cell(glyph, cfg.palette.defaultFg, TRANSPARENT)]]
  {
    hide PutAll, Csi, TermOk, Utf8, RawPuts;
    var t, u := Start(cfg, 1, 3), FilledHome(cfg);
    FilledHomeScreen(cfg);
    PutAllConcat(cfg, t, Text("ABC") + Csi([1, 1], 0x48), [0x1b, 0x5d]);
    PutAllConcat(cfg, t, Text("ABC") + Csi([1, 1], 0x48) + [0x1b, 0x5d], Utf8(0xe9));
    CommandBegins(cfg, u);
    var v := PutAll(cfg, u, [0x1b, 0x5d]);
    CommandCharacterShows(cfg, v, 0xe9);
    OnePut(v.screen, glyph);
  }

  /** `CSI ?` cancelled by CAN, and then `CSI 2 J`, from any state in which a sequence can start: the screen
      should be cleared, and nothing happens. */
  lemma PrivateMarkSurvivesCancel(cfg: Config, t: Term)
    requires AtRest(t.parser)
    ensures PutAll(cfg, t, [0x1b, 0x5b, 0x3f] + ([0x18] + Csi([2], 0x4a))).screen == t.screen
  {
    hide PutAll, PutChar, Parameters, TermOk, AtRest;
    PrivateMark(cfg, t);
    var u := PutAll(cfg, t, [0x1b, 0x5b, 0x3f]);
    PutAllConcat(cfg, t, [0x1b, 0x5b, 0x3f], [0x18] + Csi([2], 0x4a));
    assert u.parser.decPrivate && u.screen == t.screen;
    SequenceAfterCancel(cfg, u, 0x18, [2], 0x4a);
    var v := WithParser(u, Parsed(PutChar(cfg, u, 0x18).parser, [2], 0x4a));
    assert DecMode(v, 0x4a) == v;
    assert [0x18] + Csi([2], 0x4a) == [0x18] + ([0x1b, 0x5b] + Parameters([2]) + [0x4a]);
    assert PutAll(cfg, u, [0x18] + Csi([2], 0x4a)) == Finish(v);
    assert Finish(v).screen == t.screen;
  }
}
