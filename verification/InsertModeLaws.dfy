/** Insert mode: which bytes and characters move the row, and when the outcome is what it is for. */
module InsertModeLaws {
  import opened Basics
  import opened Screens
  import opened Editing
  import opened RunOn
  import opened ScreenLaws
  import opened Terminals
  import opened SequenceLaws
  import opened Wcwidth

  /** Every cell from column `x` on but the first is like the one `n` before it. */
  predicate Repeats(line: seq<Cell>, x: nat, n: nat) {
    forall i :: x + n <= i < |line| ==> line[i] == line[i - n]
  }

  // ---- The loop

  /** The loop of insert mode moves the row right by one from column `i` on, which keeps its own
      character as well. */
  lemma {:induction false} ShiftDownToRow(s: Screen, y: nat, i: nat)
    requires y < s.rows && i < s.cols
    ensures ShiftDownTo(s, y, i) == s.(lines := s.lines[y := Inserted(s.lines[y], i, 1, s.lines[y][i])])
    decreases s.cols - i
  {
    var line := s.lines[y];
    if i == s.cols - 1 {
      assert Inserted(line, i, 1, line[i]) == line;
      assert s.lines[y := line] == s.lines;
    } else {
      ShiftDownToRow(s, y, i + 1);
      var t := ShiftDownTo(s, y, i + 1);
      assert Inserted(line, i, 1, line[i]) == t.lines[y][i + 1 := t.lines[y][i]];
    }
  }

  // ---- Bytes

  /** A byte that prints a glyph, in every state of the cursor: the glyph lands in the cursor's cell and the rest of
      the row moves right by one; with a wrap pending it is written as without insert mode; and with the cursor
      below the screen it is lost, but the last row moves all the same. */
  lemma InsertModeWrites(t: Term, c: byte, glyph: byte)
    requires t.insertMode && Glyph(t, c) == Some(glyph)
    ensures var s, x, y := t.screen, t.screen.cursorX, t.screen.cursorY;
      WriteByte(t, c).screen ==
        if x >= s.cols then RawPut(s, glyph)
        else if y < s.rows then RowChanged(s, y, Inserted(s.lines[y], x, 1, Cell(glyph, s.textFg, s.textBg)), x + 1, y)
        else RowChanged(s, s.rows - 1, Inserted(s.lines[s.rows - 1], x, 1, s.lines[s.rows - 1][x]), x + 1, y)
  {
    hide TermOk, WriteByte, ShiftDownTo, Glyph, Scroll;
    WriteAfterShift(t, c, glyph);
    var s, x, y := t.screen, GetX(t.screen), GetY(t.screen);
    var line, cell := s.lines[y], Cell(glyph, s.textFg, s.textBg);
    ShiftDownToRow(s, y, x);
    if s.cursorX >= s.cols {
      assert Inserted(line, x, 1, line[x]) == line;
      assert s.lines[y := line] == s.lines;
    } else if s.cursorY < s.rows {
      assert Inserted(line, x, 1, line[x])[x := cell] == Inserted(line, x, 1, cell);
    }
  }

  lemma WriteAfterShift(t: Term, c: byte, glyph: byte)
    requires t.insertMode && Glyph(t, c) == Some(glyph)
    ensures WriteByte(t, c).screen == RawPut(ShiftDownTo(t.screen, GetY(t.screen), GetX(t.screen)), glyph)
  {
    hide TermOk, RawPuts, RawPut, ShiftDownTo, Glyph;
    OnePut(ShiftDownTo(t.screen, GetY(t.screen), GetX(t.screen)), glyph);
  }

  /** A byte that prints nothing moves the row all the same, and its cursor cell appears twice: nothing changes, as it
      should not, exactly if all cells from the cursor on are alike. */
  lemma InsertModeUnprintable(t: Term, c: byte)
    requires t.insertMode && Glyph(t, c) == None
    ensures var s, x, y := t.screen, GetX(t.screen), GetY(t.screen);
      && WriteByte(t, c).screen == s.(lines := s.lines[y := Inserted(s.lines[y], x, 1, s.lines[y][x])])
      && (WriteByte(t, c).screen == s <==> Repeats(s.lines[y], x, 1))
  {
    hide TermOk, ShiftDownTo, Glyph;
    var s, x, y := t.screen, GetX(t.screen), GetY(t.screen);
    ShiftDownToRow(s, y, x);
    var line := s.lines[y];
    var shifted := Inserted(line, x, 1, line[x]);
    if Repeats(line, x, 1) {
      assert shifted == line;
      assert s.lines[y := line] == s.lines;
    } else {
      var i :| x + 1 <= i < |line| && line[i] != line[i - 1];
      assert shifted[i] == line[i - 1];
      assert s.lines[y := shifted][y] != s.lines[y];
    }
  }

  // ---- Characters written without moving the row

  /** Writing a character over a cell, in every state of the cursor: it is what inserting it would be exactly if all
      cells from there on are alike; past the last row of the screen it is lost. */
  lemma OverwriteMeetsInsert(s: Screen, glyph: byte)
    requires s.scrollEnabled
    ensures var w, r := Wrap(s), RawPut(s, glyph);
      && w.cursorX < w.cols
      && (w.cursorY >= s.rows ==> r.lines == w.lines)
      && (w.cursorY < s.rows ==>
        (r.lines == w.lines[w.cursorY := Inserted(w.lines[w.cursorY], w.cursorX, 1,
          Cell(glyph, s.textFg, s.textBg))] <==>
        Repeats(w.lines[w.cursorY], w.cursorX, 1)))
  {
    assert SameSettings(s, Wrap(s)) && Wrap(s).cursorX < s.cols;
    hide Wrap;
    var w, r := Wrap(s), RawPut(s, glyph);
    if w.cursorY < s.rows {
      var line, cell := w.lines[w.cursorY], Cell(glyph, s.textFg, s.textBg);
      assert r.lines == w.lines[w.cursorY := line[w.cursorX := cell]];
      OverwrittenIsInserted(line, w.cursorX, cell);
      assert r.lines[w.cursorY] == line[w.cursorX := cell];
    }
  }

  lemma OverwrittenIsInserted(line: seq<Cell>, x: nat, cell: Cell)
    requires x < |line|
    ensures line[x := cell] == Inserted(line, x, 1, cell) <==> Repeats(line, x, 1)
  {
    var row, ideal := line[x := cell], Inserted(line, x, 1, cell);
    if row == ideal {
      forall i | x + 1 <= i < |line| ensures line[i] == line[i - 1] {
        assert row[i] == ideal[i];
      }
    }
  }

  /** With a wrap pending, a byte that prints does what insert mode is for exactly if all cells of the row that
      wrapping leads to are alike; past the last row of the screen it is lost. */
  lemma InsertModePendingMeetsStandard(t: Term, c: byte, glyph: byte)
    requires t.insertMode && Glyph(t, c) == Some(glyph) && t.screen.cursorX >= t.screen.cols
    ensures var s, w, r := t.screen, Wrap(t.screen), WriteByte(t, c).screen;
      && w.cursorX == 0
      && (w.cursorY >= s.rows ==> r.lines == w.lines)
      && (w.cursorY < s.rows ==>
        (r.lines == w.lines[w.cursorY := Inserted(w.lines[w.cursorY], 0, 1, Cell(glyph, s.textFg, s.textBg))] <==>
        Repeats(w.lines[w.cursorY], 0, 1)))
  {
    assert Wrap(t.screen).cursorX == 0;
    hide WriteByte, Wrap, Glyph, RawPut;
    InsertModeWrites(t, c, glyph);
    OverwriteMeetsInsert(t.screen, glyph);
  }

  /** A decoded character with a code page glyph never moves the row, in every state of the cursor: it does what
      insert mode is for exactly if all cells from where it lands are alike. */
  lemma InsertModeCharacter(cfg: Config, t: Term, cp: nat, glyph: byte)
    requires t.insertMode && NothingPending(t.parser) && 0x80 <= cp < 0x11_0000 && cfg.codePage(cp) == Some(glyph)
    ensures var s, w, r := t.screen, Wrap(t.screen), PutAll(cfg, t, Utf8(cp)).screen;
      && w.cursorX < w.cols
      && (w.cursorY >= s.rows ==> r.lines == w.lines)
      && (w.cursorY < s.rows ==>
        (r.lines == w.lines[w.cursorY := Inserted(w.lines[w.cursorY], w.cursorX, 1,
          Cell(glyph, s.textFg, s.textBg))] <==>
        Repeats(w.lines[w.cursorY], w.cursorX, 1)))
  {
    assert t.screen.scrollEnabled;
    hide PutAll, Utf8, Wrap, RawPut, RawPuts, TermOk;
    Utf8RoundTrip(cfg, t, cp);
    OnePut(t.screen, glyph);
    OverwriteMeetsInsert(t.screen, glyph);
  }

  /** One without, which is written as a box: of the same width as a glyph, the same; of width nothing, nothing; and of
      two cells, where two remain in the row, exactly if every later cell is like the one two before it. */
  lemma InsertModeBox(cfg: Config, t: Term, cp: nat)
    requires t.insertMode && NothingPending(t.parser) && 0x80 <= cp < 0x11_0000 && cfg.codePage(cp) == None
    requires t.screen.cursorX + Width(cfg.combining, cp) <= t.screen.cols && t.screen.cursorY < t.screen.rows
    ensures var s, x, y, n := t.screen, t.screen.cursorX, t.screen.cursorY, Width(cfg.combining, cp);
      PutAll(cfg, t, Utf8(cp)).screen.lines ==
        s.lines[y := Boxed(s, Inserted(s.lines[y], x, n, Cell(SPACE, s.textFg, s.textBg)), x, n)]
      <==> Repeats(s.lines[y], x, n)
  {
    hide PutAll, Utf8, TermOk, InTable, Print, RawPuts;
    Utf8RoundTrip(cfg, t, cp);
    BoxWritten(cfg, t.screen, cp);
    var s, x, y, n := t.screen, t.screen.cursorX, t.screen.cursorY, Width(cfg.combining, cp);
    BoxIsInserted(s, s.lines[y], x, n);
    var lines := PutAll(cfg, t, Utf8(cp)).screen.lines;
    assert lines[y] == Boxed(s, Overwritten(s.lines[y], x, n, Cell(SPACE, s.textFg, s.textBg)), x, n);
  }

  /** The box at column `x`, if it takes any cell at all. */
  function Boxed(s: Screen, line: seq<Cell>, x: nat, n: nat): (r: seq<Cell>)
    requires x + n <= |line|
    ensures |r| == |line|
  {
    if n == 0 then line else line[x := Cell(0xfe, s.textFg, s.textBg)]
  }

  lemma BoxWritten(cfg: Config, s: Screen, cp: nat)
    requires cp < 0x11_0000 && cfg.codePage(cp) == None
    requires s.cursorX + Width(cfg.combining, cp) <= s.cols && s.cursorY < s.rows
    ensures var x, y, n := s.cursorX, s.cursorY, Width(cfg.combining, cp);
      WriteCodePoint(cfg, s, cp).lines ==
        s.lines[y := Boxed(s, Overwritten(s.lines[y], x, n, Cell(SPACE, s.textFg, s.textBg)), x, n)]
  {
    hide RawPuts, InTable, Wide;
    var x, y, n := s.cursorX, s.cursorY, Width(cfg.combining, cp);
    var line := s.lines[y];
    if n == 0 {
      assert Overwritten(line, x, 0, Cell(SPACE, s.textFg, s.textBg)) == line;
      assert s.lines[y := line] == s.lines;
    } else {
      BoxAndBlanks(s, n);
    }
  }

  lemma BoxAndBlanks(s: Screen, n: nat)
    requires 1 <= n && s.cursorX + n <= s.cols && s.cursorY < s.rows
    ensures var x, y := s.cursorX, s.cursorY;
      RawPuts(RawPuts(s, 0xfe, 1), SPACE, n - 1).lines ==
        s.lines[y := Boxed(s, Overwritten(s.lines[y], x, n, Cell(SPACE, s.textFg, s.textBg)), x, n)]
  {
    hide RawPuts;
    var x, y, blank, box := s.cursorX, s.cursorY, Cell(SPACE, s.textFg, s.textBg), Cell(0xfe, s.textFg, s.textBg);
    WritesStayInRow(s, 0xfe, 1);
    WritesStayInRow(RawPuts(s, 0xfe, 1), SPACE, n - 1);
    assert Overwritten(Overwritten(s.lines[y], x, 1, box), x + 1, n - 1, blank) ==
      Overwritten(s.lines[y], x, n, blank)[x := box];
  }

  lemma BoxIsInserted(s: Screen, line: seq<Cell>, x: nat, n: nat)
    requires x + n <= |line|
    ensures var blank := Cell(SPACE, s.textFg, s.textBg);
      Boxed(s, Overwritten(line, x, n, blank), x, n) == Boxed(s, Inserted(line, x, n, blank), x, n) <==>
        Repeats(line, x, n)
  {
    var blank := Cell(SPACE, s.textFg, s.textBg);
    var row, ideal := Boxed(s, Overwritten(line, x, n, blank), x, n), Boxed(s, Inserted(line, x, n, blank), x, n);
    if row == ideal {
      forall i | x + n <= i < |line| ensures line[i] == line[i - n] {
        assert row[i] == ideal[i];
      }
    }
  }
}
