/** The loops by which control functions edit the logical screen. */
module Editing {
  import opened Basics
  import opened Screens

  /** `n` characters written one after the other. */
  function RawPuts(s: Screen, c: byte, n: nat): (r: Screen)
    ensures SameSettings(s, r)
    ensures s.cursorX + n <= s.cols ==> r.cursorX == s.cursorX + n && r.cursorY == s.cursorY
  {
    if n == 0 then s else RawPut(RawPuts(s, c, n - 1), c)
  }

  lemma {:induction false} RawPutsAdd(s: Screen, c: byte, m: nat, n: nat)
    ensures RawPuts(s, c, m + n) == RawPuts(RawPuts(s, c, m), c, n)
  {
    hide RawPut;
    if n > 0 {
      RawPutsAdd(s, c, m, n - 1);
      assert m + n - 1 == m + (n - 1);
    }
  }

  function ScrollTimes(s: Screen, n: nat): (r: Screen)
    ensures SameSettings(s, r) && r.cursorX == s.cursorX && r.cursorY == s.cursorY
  {
    if n == 0 then s else Scroll(ScrollTimes(s, n - 1))
  }

  function RevScrollTimes(s: Screen, n: nat): (r: Screen)
    ensures SameSettings(s, r) && r.cursorX == s.cursorX && r.cursorY == s.cursorY
  {
    if n == 0 then s else RevScroll(RevScrollTimes(s, n - 1))
  }

  /** One step of insert character: the character in column i moves n columns right, then column i is
      blanked through the cursor. */
  function InsertStep(s: Screen, y: nat, n: nat, i: nat): Screen
    requires i < s.cols
  {
    RawPut(SetCursor(MoveCharacter(s, i + n, y, i, y), ToU64(i), ToU64(y)), SPACE)
  }

  /** Insert character from the last column down to column `i`. */
  function InsertDownTo(s: Screen, y: nat, n: nat, i: nat): (r: Screen)
    requires i < s.cols
    ensures SameSettings(s, r)
    decreases s.cols - i
  {
    if i == s.cols - 1 then InsertStep(s, y, n, i)
    else InsertStep(InsertDownTo(s, y, n, i + 1), y, n, i)
  }

  /** Delete character: columns from x+n up to `i` have moved n columns left. */
  function DeleteUpTo(s: Screen, x: nat, y: nat, n: nat, i: nat): (r: Screen)
    ensures SameSettings(s, r)
    decreases i
  {
    if i <= x + n then s
    else MoveCharacter(DeleteUpTo(s, x, y, n, i - 1), i - 1 - n, y, i - 1, y)
  }

  /** Insert mode: columns from the last down to `i` have moved one column right. */
  function ShiftDownTo(s: Screen, y: nat, i: nat): (r: Screen)
    requires i < s.cols
    ensures SameSettings(s, r) && r.cursorX == s.cursorX && r.cursorY == s.cursorY
    decreases s.cols - i
  {
    var t := if i == s.cols - 1 then s else ShiftDownTo(s, y, i + 1);
    MoveCharacter(t, i + 1, y, i, y)
  }
}
