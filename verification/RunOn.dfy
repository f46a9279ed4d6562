/** Where characters go that a control function writes past the end of a row: while one runs, nothing
    scrolls, and the row is clamped against the number of columns. */
module RunOn {
  import opened Basics
  import opened Screens
  import opened Editing
  import opened ScreenLaws

  /** The row that wrapping leads to. */
  function NextRow(s: Screen): nat {
    if s.cursorY + 1 >= s.cols then s.cols - 1 else s.cursorY + 1
  }

  /** The row after a wrap, as it should be: the same in the last row of the region, which scrolls, and in the
      last row of the screen; the next one otherwise. */
  function RightRow(s: Screen): nat {
    if s.cursorY + 1 == s.bottom then s.cursorY
    else if s.cursorY + 1 < s.rows then s.cursorY + 1
    else s.rows - 1
  }

  /** The row is clamped against the number of columns instead of rows: wrapping leads to the right row exactly if
      there are more columns than that row's number and, from the last row of the screen below the region, as many
      columns as rows. */
  lemma WrapMeetsStandard(s: Screen, c: byte)
    requires s.cursorX >= s.cols && (s.cursorY < s.bottom - 1 || s.scrollEnabled)
    ensures RawPut(s, c).cursorY == RightRow(s) <==>
      if s.cursorY + 1 == s.bottom || s.cursorY + 1 < s.rows then RightRow(s) < s.cols else s.rows == s.cols
  {
    hide Scroll;
  }

  /** Past the last row of the screen the character is lost, and so is every later one. */
  lemma {:induction false} LostBelowScreen(s: Screen, c: byte, n: nat)
    requires s.scrollEnabled && s.rows <= s.cursorY < s.cols
    ensures var r := RawPuts(s, c, n);
      r.lines == s.lines && s.rows <= r.cursorY < s.cols
  {
    hide Scroll;
    if n > 0 {
      LostBelowScreen(s, c, n - 1);
    }
  }

  /** That is where wrapping leads from the last row of the screen below the region, if there are columns to
      spare. */
  lemma WrapLosesCharacters(s: Screen, c: byte, n: nat)
    requires s.scrollEnabled && s.cursorX >= s.cols && s.bottom < s.rows == s.cursorY + 1 && s.rows < s.cols && n >= 1
    ensures RawPuts(s, c, n).lines == s.lines && RawPuts(s, c, n).cursorY >= s.rows
  {
    hide Scroll, RawPuts;
    OnePut(s, c);
    RawPutsAdd(s, c, 1, n - 1);
    var t := RawPut(s, c);
    assert t.lines == s.lines && t.cursorY == s.rows;
    LostBelowScreen(t, c, n - 1);
  }

  /** Do characters that run on from the cursor's row get to row `r`? Down to the bottom margin, or to the
      row whose number the clamp does not let them pass. */
  predicate Reaches(s: Screen, r: nat) {
    && s.cursorY < s.bottom - 1
    && (if s.cursorY < s.cols - 1 then s.cursorY < r < s.bottom && r < s.cols else r == s.cols - 1)
  }

  /** How many rows further it is. */
  function RowsOn(s: Screen, r: nat): nat
    requires Reaches(s, r)
  {
    if s.cursorY < s.cols - 1 then r - s.cursorY else 1
  }

  /** Of `n` characters, how many are left when row `r` is reached: that many columns of it are covered. */
  function Covered(s: Screen, n: nat, r: nat): int
    requires Reaches(s, r)
  {
    n - (s.cols - s.cursorX) - (RowsOn(s, r) - 1) * s.cols
  }

  /** Is column `i` of row `r` among the cells that `n` characters are written to? */
  predicate Touched(s: Screen, n: nat, r: nat, i: nat) {
    (r == s.cursorY && s.cursorX <= i < s.cursorX + n) || (Reaches(s, r) && i < Covered(s, n, r))
  }

  /** Some cells replaced by one and the same. */
  ghost function Replaced(lines: seq<seq<Cell>>, f: (nat, nat) -> bool, c: Cell): (r: seq<seq<Cell>>)
    ensures |r| == |lines|
    ensures forall y :: 0 <= y < |lines| ==> |r[y]| == |lines[y]|
  {
    seq(|lines|, y requires 0 <= y < |lines| =>
      seq(|lines[y]|, x requires 0 <= x < |lines[y]| => if f(y, x) then c else lines[y][x]))
  }

  /** Replacing one set of cells is replacing another exactly if the cells in which the two sets differ had
      the new contents already. */
  lemma ReplacedAlike(lines: seq<seq<Cell>>, f: (nat, nat) -> bool, g: (nat, nat) -> bool, c: Cell)
    ensures Replaced(lines, f, c) == Replaced(lines, g, c) <==>
      forall y, x :: 0 <= y < |lines| && 0 <= x < |lines[y]| && f(y, x) != g(y, x) ==> lines[y][x] == c
  {
    var a, b := Replaced(lines, f, c), Replaced(lines, g, c);
    if a == b {
      forall y, x | 0 <= y < |lines| && 0 <= x < |lines[y]| && f(y, x) != g(y, x) ensures lines[y][x] == c {
        assert a[y][x] == b[y][x];
      }
    }
    if forall y, x :: 0 <= y < |lines| && 0 <= x < |lines[y]| && f(y, x) != g(y, x) ==> lines[y][x] == c {
      forall y | 0 <= y < |lines| ensures a[y] == b[y] {
      }
    }
  }

  ghost function CellsWritten(s: Screen, n: nat): (nat, nat) -> bool {
    (r: nat, i: nat) => Touched(s, n, r, i)
  }

  /** Any number of characters replaces exactly the cells described above. */
  lemma WritesRunOn(s: Screen, c: byte, n: nat)
    requires !s.scrollEnabled && s.cursorX <= s.cols
    ensures RawPuts(s, c, n).lines == Replaced(s.lines, CellsWritten(s, n), Cell(c, s.textFg, s.textBg))
  {
    hide RawPuts, Touched;
    var after, cell := RawPuts(s, c, n), Cell(c, s.textFg, s.textBg);
    forall r | 0 <= r < s.rows ensures after.lines[r] == Replaced(s.lines, CellsWritten(s, n), cell)[r] {
      forall i | 0 <= i < s.cols
        ensures after.lines[r][i] == if Touched(s, n, r, i) then cell else s.lines[r][i]
      {
        WritesAt(s, c, n, r, i);
      }
    }
  }

  lemma {:induction false} WritesAt(s: Screen, c: byte, n: nat, r: nat, i: nat)
    requires !s.scrollEnabled && s.cursorX <= s.cols && r < s.rows && i < s.cols
    ensures RawPuts(s, c, n).lines[r][i] == if Touched(s, n, r, i) then Cell(c, s.textFg, s.textBg) else s.lines[r][i]
    decreases n, s.cursorX
  {
    hide RawPuts, Touched, RawPut, Reaches;
    if n <= s.cols - s.cursorX {
      WritesInRow(s, c, n, r, i);
    } else {
      var k := s.cols - s.cursorX;
      RawPutsAdd(s, c, k, n - k);
      WritesInRow(s, c, k, r, i);
      var t := RawPuts(s, c, k);
      if s.cursorY < s.bottom - 1 {
        var u := t.(cursorX := 0, cursorY := NextRow(s));
        WrapFirst(t, c, n - k);
        WritesAt(u, c, n - k, r, i);
        TouchedFurther(s, u, n, r, i);
      } else {
        NoFurther(t, c, n - k);
        TouchedNoFurther(s, n, r, i);
      }
    }
  }

  /** Characters that fit in the rest of the cursor's row, which may lie below the screen. */
  lemma WritesInRow(s: Screen, c: byte, n: nat, r: nat, i: nat)
    requires s.cursorX + n <= s.cols && r < s.rows && i < s.cols
    ensures RawPuts(s, c, n).lines[r][i] == if Touched(s, n, r, i) then Cell(c, s.textFg, s.textBg) else s.lines[r][i]
  {
    hide RawPuts;
    if Reaches(s, r) {
      MulMonotone(0, RowsOn(s, r) - 1, s.cols);
    }
    if s.cursorY < s.rows {
      WritesStayInRow(s, c, n);
    } else {
      WritesBelowScreen(s, c, n);
    }
  }

  lemma {:induction false} WritesBelowScreen(s: Screen, c: byte, n: nat)
    requires s.cursorX + n <= s.cols && s.cursorY >= s.rows
    ensures RawPuts(s, c, n).lines == s.lines
  {
    hide Scroll;
    if n > 0 {
      WritesBelowScreen(s, c, n - 1);
    }
  }

  /** With a wrap pending, writing is writing from the start of the next row. */
  lemma WrapFirst(t: Screen, c: byte, n: nat)
    requires t.cursorX == t.cols && t.cursorY < t.bottom - 1 && n >= 1
    ensures RawPuts(t, c, n) == RawPuts(t.(cursorX := 0, cursorY := NextRow(t)), c, n)
  {
    hide RawPuts, Scroll;
    var u := t.(cursorX := 0, cursorY := NextRow(t));
    OnePut(t, c);
    OnePut(u, c);
    assert RawPut(t, c) == RawPut(u, c);
    RawPutsAdd(t, c, 1, n - 1);
    RawPutsAdd(u, c, 1, n - 1);
  }

  lemma OnePut(s: Screen, c: byte)
    ensures RawPuts(s, c, 1) == RawPut(s, c)
  {
    assert RawPuts(s, c, 0) == s;
  }

  /** In the last row of the region, or below it, nothing is written past the end. */
  lemma {:induction false} NoFurther(t: Screen, c: byte, n: nat)
    requires !t.scrollEnabled && t.cursorX >= t.cols && t.cursorY >= t.bottom - 1
    ensures RawPuts(t, c, n).lines == t.lines && RawPuts(t, c, n).cursorY == t.cursorY
      && RawPuts(t, c, n).cursorX >= t.cols
  {
    hide Scroll;
    if n > 0 {
      NoFurther(t, c, n - 1);
    }
  }

  lemma TouchedNoFurther(s: Screen, n: nat, r: nat, i: nat)
    requires s.cursorX <= s.cols <= s.cursorX + n && s.cursorY >= s.bottom - 1 && i < s.cols
    ensures Touched(s, n, r, i) == Touched(s, s.cols - s.cursorX, r, i)
  {
  }

  lemma TouchedFurther(s: Screen, u: Screen, n: nat, r: nat, i: nat)
    requires s.cursorX <= s.cols < s.cursorX + n && s.cursorY < s.bottom - 1 && r < s.rows && i < s.cols
    requires u.cols == s.cols && u.bottom == s.bottom && u.cursorX == 0 && u.cursorY == NextRow(s)
    ensures Touched(s, n, r, i) <==> Touched(s, s.cols - s.cursorX, r, i) || Touched(u, n - (s.cols - s.cursorX), r, i)
  {
    if Reaches(s, r) {
      MulMonotone(0, RowsOn(s, r) - 1, s.cols);
    }
    if Reaches(u, r) {
      NextRowsOn(s, u, r);
      MulMonotone(0, RowsOn(u, r) - 1, s.cols);
    }
  }

  lemma NextRowsOn(s: Screen, u: Screen, r: nat)
    requires s.cursorY < s.bottom - 1 && u.cols == s.cols && u.bottom == s.bottom && u.cursorY == NextRow(s)
    requires Reaches(u, r)
    ensures Reaches(s, r)
    ensures r == u.cursorY ==> RowsOn(s, r) == 1
    ensures r != u.cursorY ==> (RowsOn(s, r) - 1) * s.cols == (RowsOn(u, r) - 1) * s.cols + s.cols
  {
  }
}
