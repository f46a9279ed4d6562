/** What scrolling, writing, inserting, deleting and erasing do to the rows of the screen. */
module ScreenLaws {
  import opened Basics
  import opened Screens
  import opened Editing

  // ---- Scrolling

  lemma ScrollRow(s: Screen, r: nat)
    requires r < s.rows
    ensures Scroll(s).lines[r] == ScrolledLine(s, r) && BlankLine(Scroll(s)) == BlankLine(s)
  {
  }

  lemma RevScrollRow(s: Screen, r: nat)
    requires r < s.rows
    ensures RevScroll(s).lines[r] == RevScrolledLine(s, r) && BlankLine(RevScroll(s)) == BlankLine(s)
  {
  }

  /** Row `r` after `n` scrolls: the row `n` further down while that is in the region, then blanks. */
  lemma {:induction false} ScrollTimesShifts(s: Screen, n: nat, r: nat)
    requires s.top < s.bottom && r < s.rows
    ensures BlankLine(ScrollTimes(s, n)) == BlankLine(s)
    ensures ScrollTimes(s, n).lines[r] ==
      if s.top <= r < s.bottom then (if r + n < s.bottom then s.lines[r + n] else BlankLine(s)) else s.lines[r]
  {
    hide Scroll, BlankLine;
    if n > 0 {
      ScrollTimesShifts(s, n - 1, r);
      if s.top <= r < s.bottom - 1 {
        ScrollTimesShifts(s, n - 1, r + 1);
      }
      ScrollRow(ScrollTimes(s, n - 1), r);
    }
  }

  lemma {:induction false} RevScrollTimesShifts(s: Screen, n: nat, r: nat)
    requires s.top < s.bottom && r < s.rows
    ensures BlankLine(RevScrollTimes(s, n)) == BlankLine(s)
    ensures RevScrollTimes(s, n).lines[r] ==
      if s.top <= r < s.bottom then (if s.top <= r - n then s.lines[r - n] else BlankLine(s)) else s.lines[r]
  {
    hide RevScroll, BlankLine;
    if n > 0 {
      RevScrollTimesShifts(s, n - 1, r);
      if s.top < r < s.bottom {
        RevScrollTimesShifts(s, n - 1, r - 1);
      }
      RevScrollRow(RevScrollTimes(s, n - 1), r);
    }
  }

  /** Scrolling up and back down restores every row of the region but its first n, which are blank. */
  lemma ScrollThenRevScroll(s: Screen, n: nat, r: nat)
    requires s.top < s.bottom && r < s.rows
    ensures RevScrollTimes(ScrollTimes(s, n), n).lines[r] ==
      if s.top <= r < s.bottom && r < s.top + n then BlankLine(s) else s.lines[r]
  {
    hide ScrollTimes, RevScrollTimes, BlankLine;
    ScrollTimesShifts(s, n, r);
    RevScrollTimesShifts(ScrollTimes(s, n), n, r);
    if s.top <= r - n {
      ScrollTimesShifts(s, n, r - n);
    }
  }

  /** Insert line with the cursor in row `y`: rows from y to the bottom margin move down by n. Below the
      bottom margin it blanks the cursor's row instead. */
  lemma InsertedLines(s: Screen, n: nat, y: nat, r: nat)
    requires y < s.rows && r < s.rows
    ensures RevScrollTimes(s.(top := y), n).lines[r] ==
      if y < s.bottom then
        (if y <= r < s.bottom then (if y <= r - n then s.lines[r - n] else BlankLine(s)) else s.lines[r])
      else if r == y && n > 0 then BlankLine(s) else s.lines[r]
  {
    var t := s.(top := y);
    assert BlankLine(t) == BlankLine(s);
    if y < s.bottom {
      RevScrollTimesShifts(t, n, r);
    } else {
      RevScrollBelow(t, n, r);
    }
  }

  lemma {:induction false} RevScrollBelow(s: Screen, n: nat, r: nat)
    requires s.bottom <= s.top && r < s.rows
    ensures BlankLine(RevScrollTimes(s, n)) == BlankLine(s)
    ensures RevScrollTimes(s, n).lines[r] == if r == s.top && n > 0 then BlankLine(s) else s.lines[r]
  {
    hide RevScroll, BlankLine;
    if n > 0 {
      RevScrollBelow(s, n - 1, r);
      RevScrollRow(RevScrollTimes(s, n - 1), r);
    }
  }

  // ---- Writing within a row

  /** `n` cells of a row from column `x` on replaced. */
  function Overwritten(line: seq<Cell>, x: nat, n: nat, c: Cell): (r: seq<Cell>)
    ensures |r| == |line|
  {
    seq(|line|, i requires 0 <= i < |line| => if x <= i < x + n then c else line[i])
  }

  /** One row changed, and the cursor moved. */
  function RowChanged(s: Screen, y: nat, line: seq<Cell>, x: nat, cy: nat): Screen
    requires y < s.rows && |line| == s.cols
  {
    s.(lines := s.lines[y := line], cursorX := x, cursorY := cy)
  }

  /** Characters that fit in the rest of the cursor's row overwrite it and no other row. */
  lemma {:induction false} WritesStayInRow(s: Screen, c: byte, n: nat)
    requires s.cursorX + n <= s.cols && s.cursorY < s.rows
    ensures RawPuts(s, c, n) ==
      RowChanged(s, s.cursorY, Overwritten(s.lines[s.cursorY], s.cursorX, n, Cell(c, s.textFg, s.textBg)),
        s.cursorX + n, s.cursorY)
  {
    hide Scroll;
    var cell, line := Cell(c, s.textFg, s.textBg), s.lines[s.cursorY];
    if n == 0 {
      assert Overwritten(line, s.cursorX, 0, cell) == line;
    } else {
      WritesStayInRow(s, c, n - 1);
      OverwriteOne(line, s.cursorX, n - 1, cell);
    }
  }

  lemma OverwriteOne(line: seq<Cell>, x: nat, n: nat, c: Cell)
    requires x + n < |line|
    ensures Overwritten(line, x, n, c)[x + n := c] == Overwritten(line, x, n + 1, c)
  {
  }

  // ---- Insert character

  /** Columns from `x` on moved right by `n`, with the gap blank. */
  function Inserted(line: seq<Cell>, x: nat, n: nat, blank: Cell): (r: seq<Cell>)
    ensures |r| == |line|
  {
    seq(|line|, i requires 0 <= i < |line| => if i < x then line[i] else if i < x + n then blank else line[i - n])
  }

  lemma InsertStepRow(s: Screen, y: nat, n: nat, i: nat)
    requires y < s.rows && i < s.cols && n >= 1
    ensures var moved := if i + n < s.cols then s.lines[y][i + n := s.lines[y][i]] else s.lines[y];
      InsertStep(s, y, n, i) == RowChanged(s, y, moved[i := Blank(s)], i + 1, y)
  {
    hide Wrap, RawPut;
    var t := MoveCharacter(s, i + n, y, i, y);
    var u := SetCursor(t, ToU64(i), ToU64(y));
    assert ToU64(i) == i && ToU64(y) == y;
    assert u.cursorX == i && u.cursorY == y;
    WritesStayInRow(u, SPACE, 1);
    assert RawPuts(u, SPACE, 1) == RawPut(u, SPACE) by { assert RawPuts(u, SPACE, 0) == u; }
    assert Overwritten(u.lines[y], i, 1, Blank(s)) == u.lines[y][i := Blank(s)];
  }

  lemma InsertedStep(line: seq<Cell>, n: nat, blank: Cell, i: nat)
    requires i < |line| && n >= 1
    ensures i == |line| - 1 ==> Inserted(line, i, n, blank) == line[i := blank]
    ensures i < |line| - 1 ==>
      var row := Inserted(line, i + 1, n, blank);
      Inserted(line, i, n, blank) == (if i + n < |line| then row[i + n := row[i]] else row)[i := blank]
  {
  }

  lemma {:induction false} InsertDownToRow(s: Screen, y: nat, n: nat, i: nat)
    requires y < s.rows && i < s.cols && n >= 1
    ensures InsertDownTo(s, y, n, i) == RowChanged(s, y, Inserted(s.lines[y], i, n, Blank(s)), i + 1, y)
    decreases s.cols - i
  {
    hide InsertStep;
    InsertedStep(s.lines[y], n, Blank(s), i);
    if i == s.cols - 1 {
      InsertStepRow(s, y, n, i);
    } else {
      InsertDownToRow(s, y, n, i + 1);
      InsertStepRow(InsertDownTo(s, y, n, i + 1), y, n, i);
    }
  }

  // ---- Delete character

  /** Columns from x+n on moved left by `n`; the last `n` columns are blank. */
  function Deleted(line: seq<Cell>, x: nat, n: nat, blank: Cell): (r: seq<Cell>)
    ensures |r| == |line|
  {
    seq(|line|, i requires 0 <= i < |line| => if i < x then line[i] else if i + n < |line| then line[i + n] else blank)
  }

  function DeletedUpTo(line: seq<Cell>, x: nat, n: nat, i: nat): (r: seq<Cell>)
    requires i <= |line|
    ensures |r| == |line|
  {
    seq(|line|, j requires 0 <= j < |line| => if x <= j && j + n < i then line[j + n] else line[j])
  }

  lemma {:induction false} DeleteUpToRow(s: Screen, x: nat, y: nat, n: nat, i: nat)
    requires y < s.rows && i <= s.cols
    ensures DeleteUpTo(s, x, y, n, i) == s.(lines := s.lines[y := DeletedUpTo(s.lines[y], x, n, i)])
    decreases i
  {
    var line := s.lines[y];
    if i <= x + n {
      assert DeletedUpTo(line, x, n, i) == line;
    } else {
      DeleteUpToRow(s, x, y, n, i - 1);
      var row := DeletedUpTo(line, x, n, i - 1);
      assert row[i - 1 - n := row[i - 1]] == DeletedUpTo(line, x, n, i);
    }
  }

  /** Inserting n columns and deleting them again restores the columns that were not pushed out. */
  lemma InsertThenDelete(line: seq<Cell>, x: nat, n: nat, blank: Cell)
    requires x + n <= |line|
    ensures Deleted(Inserted(line, x, n, blank), x, n, blank) == line[..|line| - n] + seq(n, _ => blank)
  {
  }
}
