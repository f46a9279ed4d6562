/** On which geometries of screen, margins and cursor erasing and deleting do what they are for, whatever the cells
    contain. */
module Geometry {
  import opened Basics
  import opened Screens
  import opened RunOn
  import opened ScreenLaws
  import opened EditingLaws

  predicate OnScreen(s: Screen) {
    s.cursorX < s.cols && s.cursorY < s.rows
  }

  /** Past the end of the row nothing more is blanked than in the row itself: below or at the bottom margin
      characters do not run on, and in the row that the clamp does not let them pass they run on into the same row,
      all of which is blanked anyway if they start in its first column. */
  predicate StaysInRow(s: Screen) {
    s.cursorY >= s.bottom - 1 || (s.cursorX == 0 && s.cursorY == s.cols - 1)
  }

  /** One column, and a wrap pending in its first row, to which the clamp leads back. */
  predicate OneColumnPending(s: Screen) {
    s.cols == 1 && s.cursorX == 1 && s.cursorY == 0 < s.bottom - 1
  }

  // ---- Erase to the end of the display

  ghost predicate ToEndRight(s: Screen, r: nat, i: nat) {
    BlankedToEnd(s)(r, i) <==> r > GetY(s) || (r == GetY(s) && i >= GetX(s))
  }

  /** Exactly with the cursor on the screen, and in its last row or with the bottom margin at the end of a screen
      of no more rows than columns. */
  lemma EraseToEndGeometry(s: Screen)
    requires s.cursorX <= s.cols
    ensures (forall r, i :: 0 <= r < s.rows && 0 <= i < s.cols ==> ToEndRight(s, r, i)) <==>
      OnScreen(s) && (s.cursorY == s.rows - 1 || s.bottom == s.rows <= s.cols)
  {
    if forall r, i :: 0 <= r < s.rows && 0 <= i < s.cols ==> ToEndRight(s, r, i) {
      BlankedCell(s, GetY(s), GetX(s));
      assert ToEndRight(s, GetY(s), GetX(s));
      BlankedCell(s, s.rows - 1, 0);
      assert ToEndRight(s, s.rows - 1, 0);
      BlankedCell(s, s.cursorY, 0);
    }
    forall r, i | 0 <= r < s.rows && 0 <= i < s.cols
      ensures OnScreen(s) && (s.cursorY == s.rows - 1 || s.bottom == s.rows <= s.cols) ==> ToEndRight(s, r, i)
    {
      BlankedCell(s, r, i);
    }
  }

  lemma BlankedCell(s: Screen, r: nat, i: nat)
    ensures BlankedToEnd(s)(r, i) <==> (r == s.cursorY && i >= s.cursorX) || Reaches(s, r)
  {
  }

  // ---- Erase from the start of the display

  ghost predicate FromStartRight(s: Screen, x: nat, y: nat, r: nat, i: nat) {
    BlankedFromStart(s, x, y)(r, i) <==> r < y || (r == y && i <= x)
  }

  /** Exactly with the cursor's row above the bottom margin and its number below the number of columns. */
  lemma EraseFromStartGeometry(s: Screen, x: nat, y: nat)
    requires x < s.cols && y < s.rows
    ensures (forall r, i :: 0 <= r < s.rows && 0 <= i < s.cols ==> FromStartRight(s, x, y, r, i)) <==>
      y < s.bottom && y < s.cols
  {
    if forall r, i :: 0 <= r < s.rows && 0 <= i < s.cols ==> FromStartRight(s, x, y, r, i) {
      assert FromStartRight(s, x, y, y, x);
    }
  }

  // ---- Erase characters, and to the end of the line

  predicate CharactersRight(s: Screen, n: nat, r: nat, i: nat) {
    Touched(s, n, r, i) <==> r == GetY(s) && GetX(s) <= i < GetX(s) + n
  }

  /** Exactly for no characters, or with the cursor on the screen and characters that fit in the row or do not leave
      it, or with one column and a wrap pending in its first row. */
  lemma EraseCharactersGeometry(s: Screen, n: nat)
    requires s.cursorX <= s.cols
    ensures (forall r, i :: 0 <= r < s.rows && 0 <= i < s.cols ==> CharactersRight(s, n, r, i)) <==>
      n == 0 || (OnScreen(s) && (n <= s.cols - s.cursorX || StaysInRow(s))) || OneColumnPending(s)
  {
    if n == 0 || (OnScreen(s) && (n <= s.cols - s.cursorX || StaysInRow(s))) || OneColumnPending(s) {
      forall r, i | 0 <= r < s.rows && 0 <= i < s.cols ensures CharactersRight(s, n, r, i) {
        RightCell(s, n, r, i);
      }
    } else {
      WrongCell(s, n);
    }
  }

  lemma RightCell(s: Screen, n: nat, r: nat, i: nat)
    requires s.cursorX <= s.cols && r < s.rows && i < s.cols
    requires n == 0 || (OnScreen(s) && (n <= s.cols - s.cursorX || StaysInRow(s))) || OneColumnPending(s)
    ensures CharactersRight(s, n, r, i)
  {
    if Reaches(s, r) {
      MulMonotone(0, RowsOn(s, r) - 1, s.cols);
    }
  }

  lemma WrongCell(s: Screen, n: nat)
    requires s.cursorX <= s.cols && n >= 1 && !OneColumnPending(s)
    requires !(OnScreen(s) && (n <= s.cols - s.cursorX || StaysInRow(s)))
    ensures exists r, i :: 0 <= r < s.rows && 0 <= i < s.cols && !CharactersRight(s, n, r, i)
  {
    if s.cursorY >= s.rows {
      assert !CharactersRight(s, n, GetY(s), GetX(s));
    } else if s.cursorX >= s.cols {
      if s.cursorY < s.bottom - 1 && NextRow(s) != s.cursorY {
        assert Reaches(s, NextRow(s)) && RowsOn(s, NextRow(s)) == 1;
        assert !CharactersRight(s, n, NextRow(s), 0);
      } else if s.cursorY < s.bottom - 1 {
        assert Reaches(s, s.cursorY) && RowsOn(s, s.cursorY) == 1;
        assert s.cols > 1;
        assert !CharactersRight(s, n, s.cursorY, 0);
      } else {
        assert !CharactersRight(s, n, s.cursorY, s.cols - 1);
      }
    } else {
      assert Reaches(s, NextRow(s)) && RowsOn(s, NextRow(s)) == 1;
      assert !CharactersRight(s, n, NextRow(s), 0);
    }
  }

  predicate LineRight(s: Screen, r: nat, i: nat) {
    Touched(s, s.cols - GetX(s), r, i) <==> r == GetY(s) && i >= GetX(s)
  }

  /** Exactly with the cursor on the screen, or with one column and a wrap pending in its first row. */
  lemma EraseLineGeometry(s: Screen)
    requires s.cursorX <= s.cols
    ensures (forall r, i :: 0 <= r < s.rows && 0 <= i < s.cols ==> LineRight(s, r, i)) <==>
      OnScreen(s) || OneColumnPending(s)
  {
    var n := s.cols - GetX(s);
    forall r, i | 0 <= r < s.rows && 0 <= i < s.cols ensures LineRight(s, r, i) <==> CharactersRight(s, n, r, i) {
    }
    EraseCharactersGeometry(s, n);
    assert n >= 1;
  }

  // ---- Delete characters

  predicate DeleteRight(s: Screen, n: u32, x: nat, y: nat, r: nat, i: nat)
    requires y < s.rows
  {
    Touched(BeforeBlanks(s, n, x, y), n, r, i) <==> r == y && i >= x
  }

  /** With more characters than remain in the row, exactly if the blanks start at the cursor and do not run on, or
      the clamp keeps them in the row and all of it is to be blanked. */
  lemma DeleteGeometry(s: Screen, n: u32, x: nat, y: nat)
    requires x < s.cols && y < s.rows && n > s.cols - x
    ensures (forall r, i :: 0 <= r < s.rows && 0 <= i < s.cols ==> DeleteRight(s, n, x, y, r, i)) <==>
      (y >= s.bottom - 1 && BlanksFrom(s.cols, n) == x) || (y < s.bottom - 1 && x == 0 && y == s.cols - 1)
  {
    hide DeletedUpTo;
    var d, start := BeforeBlanks(s, n, x, y), BlanksFrom(s.cols, n);
    if (y >= s.bottom - 1 && start == x) || (y < s.bottom - 1 && x == 0 && y == s.cols - 1) {
      forall r, i | 0 <= r < s.rows && 0 <= i < s.cols ensures DeleteRight(s, n, x, y, r, i) {
      }
    } else {
      DeleteWrong(s, n, x, y);
    }
  }

  lemma DeleteWrong(s: Screen, n: u32, x: nat, y: nat)
    requires x < s.cols && y < s.rows && n > s.cols - x
    requires !(y >= s.bottom - 1 && BlanksFrom(s.cols, n) == x) && !(y < s.bottom - 1 && x == 0 && y == s.cols - 1)
    ensures exists r, i :: 0 <= r < s.rows && 0 <= i < s.cols && !DeleteRight(s, n, x, y, r, i)
  {
    hide DeletedUpTo;
    var d, start := BeforeBlanks(s, n, x, y), BlanksFrom(s.cols, n);
    if start < x {
      assert !DeleteRight(s, n, x, y, y, start);
    } else if y < s.bottom - 1 {
      assert Reaches(d, NextRow(d)) && RowsOn(d, NextRow(d)) == 1;
      assert !DeleteRight(s, n, x, y, NextRow(d), 0);
    } else {
      assert !DeleteRight(s, n, x, y, y, x);
    }
  }
}
