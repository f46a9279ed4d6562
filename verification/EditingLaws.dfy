/** Insert, delete and erase as the control functions carry them out. */
module EditingLaws {
  import opened Basics
  import opened Screens
  import opened Editing
  import opened RunOn
  import opened ScreenLaws
  import opened Terminals

  lemma CursorReturns(s: Screen, x: nat, y: nat)
    requires x < s.cols && y < s.rows
    ensures SetCursor(s, ToU64(x), ToU64(y)) == s.(cursorX := x, cursorY := y)
  {
  }

  // ---- Insert character

  lemma InsertCharactersExact(s: Screen, n: u32, x: nat, y: nat)
    requires x < s.cols && y < s.rows && n >= 1
    ensures InsertCharacters(s, n, x, y) == RowChanged(s, y, Inserted(s.lines[y], x, n, Blank(s)), x, y)
  {
    hide InsertDownTo, SetCursor;
    InsertDownToRow(s, y, n, x);
    CursorReturns(InsertDownTo(s, y, n, x), x, y);
  }

  /** A parameter of zero blanks the row from the cursor on instead of inserting nothing. */
  lemma InsertZeroBlanks(s: Screen, x: nat, y: nat)
    requires x < s.cols && y < s.rows
    ensures InsertCharacters(s, 0, x, y) == RowChanged(s, y, Overwritten(s.lines[y], x, s.cols - x, Blank(s)), x, y)
  {
    hide InsertDownTo, SetCursor;
    InsertZeroDownTo(s, y, x);
    CursorReturns(InsertDownTo(s, y, 0, x), x, y);
  }

  lemma {:induction false} InsertZeroDownTo(s: Screen, y: nat, i: nat)
    requires y < s.rows && i < s.cols
    ensures InsertDownTo(s, y, 0, i) == RowChanged(s, y, Overwritten(s.lines[y], i, s.cols - i, Blank(s)), i + 1, y)
    decreases s.cols - i
  {
    hide InsertStep;
    var line := s.lines[y];
    if i == s.cols - 1 {
      InsertZeroStep(s, y, i);
      assert Overwritten(line, i, 1, Blank(s)) == line[i := Blank(s)];
    } else {
      InsertZeroDownTo(s, y, i + 1);
      InsertZeroStep(InsertDownTo(s, y, 0, i + 1), y, i);
      assert Overwritten(line, i, s.cols - i, Blank(s)) ==
        Overwritten(line, i + 1, s.cols - i - 1, Blank(s))[i := Blank(s)];
    }
  }

  lemma InsertZeroStep(s: Screen, y: nat, i: nat)
    requires y < s.rows && i < s.cols
    ensures InsertStep(s, y, 0, i) == RowChanged(s, y, s.lines[y][i := Blank(s)], i + 1, y)
  {
    hide Wrap, RawPut;
    var t := MoveCharacter(s, i, y, i, y);
    assert s.lines[y][i := s.lines[y][i]] == s.lines[y];
    assert t.lines == s.lines && t == s;
    CursorReturns(t, i, y);
    var u := t.(cursorX := i, cursorY := y);
    WritesStayInRow(u, SPACE, 1);
    assert RawPuts(u, SPACE, 1) == RawPut(u, SPACE) by { assert RawPuts(u, SPACE, 0) == u; }
    assert Overwritten(u.lines[y], i, 1, Blank(s)) == u.lines[y][i := Blank(s)];
  }

  /** Insert character does what it is for exactly if its parameter is positive, or the row is blank
      from the cursor on already. In ECMA-48 (sections 5.4.2 and 8.3.64) only a parameter left out takes the default;
      zero is the number zero, and no characters are to be inserted. */
  lemma InsertMeetsStandard(s: Screen, n: u32, x: nat, y: nat)
    requires x < s.cols && y < s.rows
    ensures InsertCharacters(s, n, x, y).lines[y] == Inserted(s.lines[y], x, n, Blank(s))
      <==> n >= 1 || forall i :: x <= i < s.cols ==> s.lines[y][i] == Blank(s)
  {
    hide InsertCharacters;
    var line := s.lines[y];
    if n >= 1 {
      InsertCharactersExact(s, n, x, y);
    } else {
      InsertZeroBlanks(s, x, y);
      assert Inserted(line, x, 0, Blank(s)) == line;
      var blanked := Overwritten(line, x, s.cols - x, Blank(s));
      if blanked == line {
        forall i | x <= i < s.cols ensures line[i] == Blank(s) {
          assert blanked[i] == line[i];
        }
      }
    }
  }

  // ---- Delete character

  /** For up to `cols` characters: the row moves left and its last n columns become blank, which may
      include columns before the cursor. */
  lemma DeleteCharactersRow(s: Screen, n: u32, x: nat, y: nat)
    requires x < s.cols && y < s.rows && n <= s.cols
    ensures DeleteCharacters(s, n, x, y) ==
      RowChanged(s, y, Overwritten(DeletedUpTo(s.lines[y], x, n, s.cols), s.cols - n, n, Blank(s)), x, y)
  {
    hide DeleteUpTo, RawPuts;
    DeleteUpToRow(s, x, y, n, s.cols);
    var moved := DeleteUpTo(s, x, y, n, s.cols);
    var t := SetCursor(moved, ToU64(s.cols - n), ToU64(y));
    if n == 0 {
      assert RawPuts(t, SPACE, 0) == t by { NoWrites(t, SPACE); }
      assert Overwritten(moved.lines[y], s.cols, 0, Blank(s)) == moved.lines[y];
    } else {
      WritesStayInRow(t, SPACE, n);
    }
    CursorReturns(RawPuts(t, SPACE, n), x, y);
  }

  lemma NoWrites(s: Screen, c: byte)
    ensures RawPuts(s, c, 0) == s
  {
  }

  lemma DeleteCharactersExact(s: Screen, n: u32, x: nat, y: nat)
    requires x < s.cols && y < s.rows && n <= s.cols - x
    ensures DeleteCharacters(s, n, x, y) == RowChanged(s, y, Deleted(s.lines[y], x, n, Blank(s)), x, y)
  {
    hide DeleteCharacters;
    DeleteCharactersRow(s, n, x, y);
    assert Overwritten(DeletedUpTo(s.lines[y], x, n, s.cols), s.cols - n, n, Blank(s)) ==
      Deleted(s.lines[y], x, n, Blank(s));
  }

  /** The column from which delete character blanks: n before the edge, or, past the edge on the other
      side, the first column, or the last if the distance does not fit an `int`. */
  function BlanksFrom(cols: nat, n: u32): (x: nat)
    requires cols >= 1
    ensures x <= cols && (n >= 1 ==> x < cols)
  {
    if n <= cols then cols - n else if n - cols <= 0x8000_0000 then 0 else cols - 1
  }

  lemma BlanksFromThere(cols: nat, n: u32)
    requires 1 <= cols < U64_LIMIT && n >= 1
    ensures Clamp(ToU64(cols - n), cols) == BlanksFrom(cols, n)
  {
    if n > cols {
      var k := n - cols;
      assert ToU64(cols - n) == U64_LIMIT - k;
      assert (U64_LIMIT - k) % U32_LIMIT == U32_LIMIT - k by {
        DivModUnique(U32_LIMIT - 1, U32_LIMIT, U32_LIMIT - k);
      }
    }
  }

  /** The screen just before delete character writes its blanks. */
  function BeforeBlanks(s: Screen, n: u32, x: nat, y: nat): Screen
    requires y < s.rows
  {
    s.(lines := s.lines[y := DeletedUpTo(s.lines[y], x, n, s.cols)], cursorX := BlanksFrom(s.cols, n), cursorY := y)
  }

  /** For every n: the rest of the row moves left, then n blanks are written from that column on, which run
      on into later rows. */
  lemma DeleteRunsOn(s: Screen, n: u32, x: nat, y: nat)
    requires x < s.cols && y < s.rows && !s.scrollEnabled
    ensures var d := BeforeBlanks(s, n, x, y);
      DeleteCharacters(s, n, x, y) ==
        s.(lines := Replaced(d.lines, CellsWritten(d, n), Blank(s)), cursorX := x, cursorY := y)
  {
    hide DeleteUpTo, RawPuts, Clamp, Replaced, Touched;
    var d := BeforeBlanks(s, n, x, y);
    DeleteUpToRow(s, x, y, n, s.cols);
    var t := SetCursor(DeleteUpTo(s, x, y, n, s.cols), ToU64(s.cols - n), ToU64(y));
    CursorReturns(s, 0, y);
    if n == 0 {
      NoWrites(t, SPACE);
      NoWrites(d, SPACE);
    } else {
      BlanksFromThere(s.cols, n);
      assert t == d;
    }
    WritesRunOn(d, SPACE, n);
    CursorReturns(RawPuts(t, SPACE, n), x, y);
  }

  /** Delete character does what it is for exactly if n characters remain in the row, or every cell that is
      blanked by mistake, or not blanked that should be, was blank already. */
  lemma DeleteMeetsStandard(s: Screen, n: u32, x: nat, y: nat)
    requires x < s.cols && y < s.rows && !s.scrollEnabled
    ensures var d := BeforeBlanks(s, n, x, y);
      DeleteCharacters(s, n, x, y).lines == s.lines[y := Deleted(s.lines[y], x, n, Blank(s))] <==>
        n <= s.cols - x || forall r, i ::
          0 <= r < s.rows && 0 <= i < s.cols && Touched(d, n, r, i) != (r == y && i >= x) ==>
          s.lines[r][i] == Blank(s)
  {
    hide DeleteCharacters, Touched;
    if n <= s.cols - x {
      DeleteCharactersExact(s, n, x, y);
    } else {
      var d := BeforeBlanks(s, n, x, y);
      DeleteRunsOn(s, n, x, y);
      assert DeletedUpTo(s.lines[y], x, n, s.cols) == s.lines[y];
      assert d.lines == s.lines;
      RestOfRow(s.lines, x, y, n, Blank(s));
      ReplacedAlike(s.lines, CellsWritten(d, n), (r: nat, i: nat) => r == y && i >= x, Blank(s));
    }
  }

  lemma RestOfRow(lines: seq<seq<Cell>>, x: nat, y: nat, n: nat, blank: Cell)
    requires y < |lines| && x < |lines[y]| < x + n
    ensures lines[y := Deleted(lines[y], x, n, blank)] == Replaced(lines, (r: nat, i: nat) => r == y && i >= x, blank)
  {
    var a, b := lines[y := Deleted(lines[y], x, n, blank)],
      Replaced(lines, (r: nat, i: nat) => r == y && i >= x, blank);
    forall r | 0 <= r < |lines| ensures a[r] == b[r] {
    }
  }

  // ---- Erase character

  /** Erase character blanks the cells that n characters are written to, in every state of the cursor; where
      they fit in the row, those are n cells from the cursor on. */
  lemma EraseCharactersExact(s: Screen, n: u32)
    requires !s.scrollEnabled && s.cursorX <= s.cols
    ensures EraseCharacters(s, n, GetX(s), GetY(s)) ==
      s.(lines := Replaced(s.lines, CellsWritten(s, n), Blank(s)), cursorX := GetX(s), cursorY := GetY(s))
    ensures s.cursorX + n <= s.cols && s.cursorX < s.cols && s.cursorY < s.rows ==>
      var x, y := s.cursorX, s.cursorY;
      EraseCharacters(s, n, x, y) == RowChanged(s, y, Overwritten(s.lines[y], x, n, Blank(s)), x, y)
  {
    hide RawPuts, SetCursor, Replaced;
    WritesRunOn(s, SPACE, n);
    CursorReturns(RawPuts(s, SPACE, n), GetX(s), GetY(s));
    if s.cursorX + n <= s.cols && s.cursorX < s.cols && s.cursorY < s.rows {
      WritesStayInRow(s, SPACE, n);
    }
  }

  /** It does what it is for exactly if every cell blanked by mistake or forgotten was blank already. */
  lemma EraseCharactersMeetsStandard(s: Screen, n: u32)
    requires !s.scrollEnabled && s.cursorX <= s.cols
    ensures var x, y := GetX(s), GetY(s);
      EraseCharacters(s, n, x, y).lines ==
        Replaced(s.lines, (r: nat, i: nat) => r == y && x <= i < x + n, Blank(s)) <==>
        forall r, i :: 0 <= r < s.rows && 0 <= i < s.cols && Touched(s, n, r, i) != (r == y && x <= i < x + n) ==>
          s.lines[r][i] == Blank(s)
  {
    hide EraseCharacters, Touched;
    var x, y := GetX(s), GetY(s);
    EraseCharactersExact(s, n);
    ReplacedAlike(s.lines, CellsWritten(s, n), (r: nat, i: nat) => r == y && x <= i < x + n, Blank(s));
  }

  /** Insert then delete brings back all columns that insertion did not push out of the row. */
  lemma InsertThenDeleteRestores(s: Screen, n: u32, x: nat, y: nat)
    requires x < s.cols && y < s.rows && 1 <= n <= s.cols - x
    ensures DeleteCharacters(InsertCharacters(s, n, x, y), n, x, y) ==
      RowChanged(s, y, s.lines[y][..s.cols - n] + seq(n, _ => Blank(s)), x, y)
  {
    hide DeleteCharacters, InsertCharacters;
    InsertCharactersExact(s, n, x, y);
    var t := InsertCharacters(s, n, x, y);
    DeleteCharactersExact(t, n, x, y);
    InsertThenDelete(s.lines[y], x, n, Blank(s));
  }

  // ---- Erase in line

  /** Mode 0 in every state of the cursor: the cells that as many characters are written to as there are
      columns from the reported cursor on. */
  lemma EraseLineRunsOn(s: Screen)
    requires !s.scrollEnabled && s.cursorX <= s.cols
    ensures EraseLine(s, 0, GetX(s), GetY(s)) ==
      s.(lines := Replaced(s.lines, CellsWritten(s, s.cols - GetX(s)), Blank(s)), cursorX := GetX(s),
        cursorY := GetY(s))
  {
    hide RawPuts, SetCursor, Replaced;
    WritesRunOn(s, SPACE, s.cols - GetX(s));
    CursorReturns(RawPuts(s, SPACE, s.cols - GetX(s)), GetX(s), GetY(s));
  }

  lemma EraseLineExact(s: Screen, mode: u32, x: nat, y: nat)
    requires x < s.cols && y < s.rows && mode <= 2
    requires mode == 0 ==> s.cursorX == x && s.cursorY == y
    ensures EraseLine(s, mode, x, y) == RowChanged(s, y,
      match mode
      case 0 => Overwritten(s.lines[y], x, s.cols - x, Blank(s))
      case 1 => Overwritten(s.lines[y], 0, x, Blank(s))
      case _ => Overwritten(s.lines[y], 0, s.cols, Blank(s)),
      x, y)
  {
    hide RawPuts, SetCursor;
    CursorReturns(s, 0, y);
    assert ToU64(0) == 0;
    var start := s.(cursorX := 0, cursorY := y);
    if mode == 0 {
      WritesStayInRow(s, SPACE, s.cols - x);
      CursorReturns(RawPuts(s, SPACE, s.cols - x), x, y);
    } else if mode == 1 {
      WritesStayInRow(start, SPACE, x);
    } else {
      WritesStayInRow(start, SPACE, s.cols);
      CursorReturns(RawPuts(start, SPACE, s.cols), x, y);
    }
  }

  /** With a wrap pending, erasing to the end of the line misses its row: it blanks the first cell of the row
      that wrapping leads to, or nothing in the last row of the region and below it, the screen's end included. */
  lemma EraseLineWrapPending(s: Screen)
    requires s.cursorX == s.cols && !s.scrollEnabled
    ensures EraseLine(s, 0, s.cols - 1, GetY(s)) ==
      if s.cursorY < s.bottom - 1 then Put(s, Blank(s), 0, NextRow(s)).(cursorX := s.cols - 1)
      else s.(cursorX := s.cols - 1, cursorY := GetY(s))
  {
    hide Scroll;
    OnePut(s, SPACE);
    CursorReturns(RawPut(s, SPACE), s.cols - 1, GetY(s));
  }

  /** Erasing to the end of the line does what it is for exactly if every cell blanked by mistake or forgotten
      was blank already. */
  lemma EraseLineMeetsStandard(s: Screen)
    requires !s.scrollEnabled && s.cursorX <= s.cols
    ensures var x, y := GetX(s), GetY(s);
      EraseLine(s, 0, x, y).lines == Replaced(s.lines, (r: nat, i: nat) => r == y && i >= x, Blank(s)) <==>
        forall r, i :: 0 <= r < s.rows && 0 <= i < s.cols && Touched(s, s.cols - x, r, i) != (r == y && i >= x) ==>
          s.lines[r][i] == Blank(s)
  {
    hide EraseLine, Touched;
    var x, y := GetX(s), GetY(s);
    EraseLineRunsOn(s);
    ReplacedAlike(s.lines, CellsWritten(s, s.cols - x), (r: nat, i: nat) => r == y && i >= x, Blank(s));
  }

  /** With a wrap pending that is: the cursor's cell was blank already, and the first cell of the row that
      wrapping leads to, if it leads anywhere else, was too. */
  lemma ErasePendingMeetsStandard(s: Screen)
    requires s.cursorX == s.cols && !s.scrollEnabled
    ensures var y := GetY(s);
      var ideal := Replaced(s.lines, (r: nat, i: nat) => r == y && i >= s.cols - 1, Blank(s));
      EraseLine(s, 0, s.cols - 1, y).lines == ideal <==>
      (y < s.bottom - 1 && NextRow(s) == y && s.cols == 1) ||
      (s.lines[y][s.cols - 1] == Blank(s) && (y < s.bottom - 1 ==> s.lines[NextRow(s)][0] == Blank(s)))
  {
    hide EraseLine, Touched, Replaced;
    assert GetX(s) == s.cols - 1;
    EraseLineMeetsStandard(s);
    forall r: nat, i: nat | r < s.rows && i < s.cols
      ensures Touched(s, 1, r, i) <==> s.cursorY < s.bottom - 1 && r == NextRow(s) && i == 0
    {
      TouchedPending(s, r, i);
    }
    var last, y := s.cols - 1, GetY(s);
    assert y < s.bottom - 1 <==> s.cursorY < s.bottom - 1;
    assert y < s.bottom - 1 ==> Touched(s, 1, NextRow(s), 0);
    assert Touched(s, 1, y, last) <==> y < s.bottom - 1 && NextRow(s) == y && last == 0;
  }

  lemma TouchedPending(s: Screen, r: nat, i: nat)
    requires s.cursorX == s.cols && r < s.rows && i < s.cols
    ensures Touched(s, 1, r, i) <==> s.cursorY < s.bottom - 1 && r == NextRow(s) && i == 0
  {
    if Reaches(s, r) && RowsOn(s, r) > 1 {
      MulMonotone(1, RowsOn(s, r) - 1, s.cols);
    }
  }

  /** Erasing from the start of the line through the cursor leaves out the cursor's own cell: it does what
      it is for exactly if that cell was blank already. */
  lemma EraseToCursorMeetsStandard(s: Screen, x: nat, y: nat)
    requires x < s.cols && y < s.rows
    ensures EraseLine(s, 1, x, y).lines[y] == Overwritten(s.lines[y], 0, x + 1, Blank(s)) <==> s.lines[y][x] == Blank(s)
  {
    hide EraseLine;
    EraseLineExact(s, 1, x, y);
    var row, ideal := Overwritten(s.lines[y], 0, x, Blank(s)), Overwritten(s.lines[y], 0, x + 1, Blank(s));
    assert row[x] == s.lines[y][x] && ideal[x] == Blank(s);
  }

  // ---- Erase in display

  /** The cells that erasing to the end of the display blanks: the rest of the cursor's row and every row
      that writing on from there reaches. */
  ghost function BlankedToEnd(s: Screen): (nat, nat) -> bool {
    (r: nat, i: nat) => (r == s.cursorY && i >= s.cursorX) || Reaches(s, r)
  }

  lemma EraseToEndExact(s: Screen)
    requires !s.scrollEnabled && s.cursorX <= s.cols
    ensures EraseToEnd(s, GetX(s), GetY(s)) ==
      s.(lines := Replaced(s.lines, BlankedToEnd(s), Blank(s)), cursorX := GetX(s), cursorY := GetY(s))
  {
    hide RawPuts, SetCursor, Touched, Replaced, Reaches;
    var x, y := GetX(s), GetY(s);
    var n := BlanksToEnd(s.rows, s.cols, x, y);
    WritesRunOn(s, SPACE, n);
    forall r: nat, i: nat | r < s.rows && i < s.cols ensures CellsWritten(s, n)(r, i) == BlankedToEnd(s)(r, i) {
      TouchedToEnd(s, r, i);
    }
    ReplacedAlike(s.lines, CellsWritten(s, n), BlankedToEnd(s), Blank(s));
    CursorReturns(RawPuts(s, SPACE, n), x, y);
  }

  lemma TouchedToEnd(s: Screen, r: nat, i: nat)
    requires s.cursorX <= s.cols && r < s.rows && i < s.cols
    ensures Touched(s, BlanksToEnd(s.rows, s.cols, GetX(s), GetY(s)), r, i) <==>
      (r == s.cursorY && i >= s.cursorX) || Reaches(s, r)
  {
    var m := s.rows - 1 - GetY(s);
    assert BlanksToEnd(s.rows, s.cols, GetX(s), GetY(s)) == m * s.cols + (s.cols - GetX(s));
    MulMonotone(0, m, s.cols);
    if Reaches(s, r) {
      MulMonotone(RowsOn(s, r), m, s.cols);
    }
  }

  /** Erasing to the end of the display does what it is for exactly if every cell blanked by mistake or
      forgotten was blank already; with full-screen margins, no more rows than columns and the cursor on the
      screen there is no such cell. */
  lemma EraseToEndMeetsStandard(s: Screen)
    requires !s.scrollEnabled && s.cursorX <= s.cols
    ensures var x, y := GetX(s), GetY(s);
      EraseToEnd(s, x, y).lines == Replaced(s.lines, (r: nat, i: nat) => r > y || (r == y && i >= x), Blank(s)) <==>
        forall r, i :: 0 <= r < s.rows && 0 <= i < s.cols && BlankedToEnd(s)(r, i) != (r > y || (r == y && i >= x)) ==>
          s.lines[r][i] == Blank(s)
    ensures s.bottom == s.rows <= s.cols && s.cursorX < s.cols && s.cursorY < s.rows ==>
      forall r, i :: 0 <= r < s.rows && 0 <= i < s.cols ==>
        BlankedToEnd(s)(r, i) == (r > s.cursorY || (r == s.cursorY && i >= s.cursorX))
  {
    hide EraseToEnd, BlankedToEnd, Replaced;
    var x, y := GetX(s), GetY(s);
    EraseToEndExact(s);
    forall r: nat, i: nat | r < s.rows && i < s.cols
      ensures s.bottom == s.rows <= s.cols && s.cursorX < s.cols && s.cursorY < s.rows ==>
        BlankedToEnd(s)(r, i) == (r > s.cursorY || (r == s.cursorY && i >= s.cursorX))
    {
      WholeScreenToEnd(s, r, i);
    }
    ReplacedAlike(s.lines, BlankedToEnd(s), (r: nat, i: nat) => r > y || (r == y && i >= x), Blank(s));
  }

  lemma WholeScreenToEnd(s: Screen, r: nat, i: nat)
    requires r < s.rows && i < s.cols
    ensures s.bottom == s.rows <= s.cols && s.cursorX < s.cols && s.cursorY < s.rows ==>
      BlankedToEnd(s)(r, i) == (r > s.cursorY || (r == s.cursorY && i >= s.cursorX))
  {
    if s.bottom == s.rows <= s.cols && s.cursorX < s.cols && s.cursorY < s.rows {
      assert Reaches(s, r) <==> r > s.cursorY;
      assert BlankedToEnd(s)(r, i) == ((r == s.cursorY && i >= s.cursorX) || Reaches(s, r));
    }
  }

  /** The cells that erasing from the start of the display blanks: those through the cursor, but only in rows
      above the bottom margin whose number is below the number of columns. */
  ghost function BlankedFromStart(s: Screen, x: nat, y: nat): (nat, nat) -> bool {
    (r: nat, i: nat) => (r < y || (r == y && i <= x)) && r < s.bottom && r < s.cols
  }

  lemma EraseFromStartExact(s: Screen, x: nat, y: nat)
    requires x < s.cols && y < s.rows && !s.scrollEnabled
    ensures EraseFromStart(s, x, y) ==
      s.(lines := Replaced(s.lines, BlankedFromStart(s, x, y), Blank(s)), cursorX := x, cursorY := y)
  {
    hide RawPuts, SetCursor, Touched, Replaced, Reaches;
    CursorReturns(s, 0, 0);
    assert ToU64(0) == 0;
    var t, n := s.(cursorX := 0, cursorY := 0), y * s.cols + x + 1;
    MulMonotone(0, y, s.cols);
    WritesRunOn(t, SPACE, n);
    forall r: nat, i: nat | r < s.rows && i < s.cols
      ensures CellsWritten(t, n)(r, i) == BlankedFromStart(s, x, y)(r, i)
    {
      TouchedFromStart(t, x, y, r, i);
    }
    ReplacedAlike(s.lines, CellsWritten(t, n), BlankedFromStart(s, x, y), Blank(s));
    CursorReturns(RawPuts(t, SPACE, n), x, y);
  }

  lemma TouchedFromStart(t: Screen, x: nat, y: nat, r: nat, i: nat)
    requires t.cursorX == 0 && t.cursorY == 0 && x < t.cols && y < t.rows && r < t.rows && i < t.cols
    ensures 0 <= y * t.cols
    ensures Touched(t, y * t.cols + x + 1, r, i) <==> (r < y || (r == y && i <= x)) && r < t.bottom && r < t.cols
  {
    MulMonotone(0, y, t.cols);
    if r < y {
      MulMonotone(r + 1, y, t.cols);
    } else if y < r {
      MulMonotone(y + 1, r, t.cols);
    }
    assert r * t.cols == (r - 1) * t.cols + t.cols;
    assert (y + 1) * t.cols == y * t.cols + t.cols;
    assert (r + 1) * t.cols == r * t.cols + t.cols;
  }

  /** It does what it is for exactly if the cells it leaves out were blank already. */
  lemma EraseFromStartMeetsStandard(s: Screen, x: nat, y: nat)
    requires x < s.cols && y < s.rows && !s.scrollEnabled
    ensures var ideal := Replaced(s.lines, (r: nat, i: nat) => r < y || (r == y && i <= x), Blank(s));
      EraseFromStart(s, x, y).lines == ideal <==>
      forall r, i ::
        0 <= r < s.rows && 0 <= i < s.cols && (r < y || (r == y && i <= x)) && (r >= s.bottom || r >= s.cols) ==>
        s.lines[r][i] == Blank(s)
  {
    hide EraseFromStart;
    EraseFromStartExact(s, x, y);
    ReplacedAlike(s.lines, BlankedFromStart(s, x, y), (r: nat, i: nat) => r < y || (r == y && i <= x), Blank(s));
  }
}
