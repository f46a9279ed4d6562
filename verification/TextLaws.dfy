/** Laws of cursor motion within a row, tabs, line feeds and character sets, from the bytes to the screen. */
module TextLaws {
  import opened Basics
  import opened Screens
  import opened Editing
  import opened EditingLaws
  import opened RunOn
  import opened ScreenLaws
  import opened Terminals
  import opened ParserLaws
  import opened SequenceLaws
  import opened ControlLaws

  // ---- Columns

  lemma MotionSequence(cfg: Config, t: Term, n: u32, c: byte)
    requires Idle(t.parser) && c in {0x43, 0x44, 0x47, 0x64}
    ensures PutAll(cfg, t, Csi([n], c)).screen ==
      MoveCursor(Quiet(t.screen), c, ReadValues([n], 1), GetX(t.screen), GetY(t.screen)).(scrollEnabled := true)
  {
    hide PutAll, Parameters, WithParser, MoveCursor, EditScreen;
    ControlSequenceRoundTrip(cfg, t, [n], c);
    MoveFunction(cfg, WithParser(t, Parsed(t.parser, [n], c)), c);
  }

  /** `CSI n C` and `CSI n D` move n columns, or to the edge. */
  lemma HorizontalMoves(cfg: Config, t: Term, n: u32)
    requires Idle(t.parser)
    ensures var s, x, y := t.screen, GetX(t.screen), GetY(t.screen);
      && PutAll(cfg, t, Csi([n], 0x43)).screen == s.(cursorX := Min(s.cols - 1, x + n), cursorY := y)
      && PutAll(cfg, t, Csi([n], 0x44)).screen == s.(cursorX := Max(0, x - n), cursorY := y)
  {
    hide PutAll, Csi, Idle, TermOk;
    MovesRight(cfg, t, n);
    MovesLeft(cfg, t, n);
  }

  lemma MovesRight(cfg: Config, t: Term, n: u32)
    requires Idle(t.parser)
    ensures var s, x, y := t.screen, GetX(t.screen), GetY(t.screen);
      PutAll(cfg, t, Csi([n], 0x43)).screen == s.(cursorX := Min(s.cols - 1, x + n), cursorY := y)
  {
    hide PutAll, Csi, Clamp;
    MotionSequence(cfg, t, n, 0x43);
    assert ReadValues([n], 1)[0] == n;
    CursorReturns(Quiet(t.screen), Min(t.screen.cols - 1, GetX(t.screen) + n), GetY(t.screen));
  }

  lemma MovesLeft(cfg: Config, t: Term, n: u32)
    requires Idle(t.parser)
    ensures var s, x, y := t.screen, GetX(t.screen), GetY(t.screen);
      PutAll(cfg, t, Csi([n], 0x44)).screen == s.(cursorX := Max(0, x - n), cursorY := y)
  {
    hide PutAll, Csi, Clamp;
    MotionSequence(cfg, t, n, 0x44);
    assert ReadValues([n], 1)[0] == n;
    CursorReturns(Quiet(t.screen), Max(0, GetX(t.screen) - n), GetY(t.screen));
  }

  /** `CSI n G` and `CSI n d` go to a one-based column or row, or as near as the screen allows. There is no position
      zero; the nearest is the first, where `CSI H` goes, but here zero wraps to the far edge: they go to the nearest
      position exactly if n is positive or there is only one column or row. */
  lemma AbsoluteMoves(cfg: Config, t: Term, n: u32)
    requires Idle(t.parser)
    ensures var s := t.screen;
      && (PutAll(cfg, t, Csi([n], 0x47)).screen == s.(cursorX := Within(n, s.cols) - 1, cursorY := GetY(s)) <==>
        n >= 1 || s.cols == 1)
      && (PutAll(cfg, t, Csi([n], 0x64)).screen == s.(cursorX := GetX(s), cursorY := Within(n, s.rows) - 1) <==>
        n >= 1 || s.rows == 1)
  {
    hide PutAll, Csi, Clamp;
    var s := t.screen;
    MotionSequence(cfg, t, n, 0x47);
    MotionSequence(cfg, t, n, 0x64);
    assert ReadValues([n], 1)[0] == n;
    CursorReturns(Quiet(s), FromOne(n, s.cols), GetY(s));
    CursorReturns(Quiet(s), GetX(s), FromOne(n, s.rows));
    FromOneExact(n, s.cols);
    FromOneExact(n, s.rows);
  }

  lemma FromOneExact(n: u32, limit: nat)
    requires limit >= 1
    ensures FromOne(n, limit) < limit
    ensures FromOne(n, limit) == Within(n, limit) - 1 <==> n >= 1 || limit == 1
  {
  }

  // ---- Bytes outside sequences

  lemma PlainByte(cfg: Config, t: Term, c: byte)
    requires Idle(t.parser) && c < 0x80 && c != 0x18 && c != 0x1a
    ensures PutAll(cfg, t, [c]) == if IsControlByte(c) then ControlByte(t, c) else WriteByte(t, c)
  {
    hide PutAll, ControlByte, WriteByte, IsControlByte, EscapeByte, SelectCharset, WriteCodePoint, Cancelled;
    PutOne(cfg, t, c);
    assert PutChar(cfg, t, c) == FreshByte(cfg, t, c);
  }

  /** A tab goes to the next multiple of eight, or to the last column if that is past the edge, exactly unless it
      is past the edge and reads as a negative `int`. */
  lemma TabStops(cfg: Config, t: Term)
    requires Idle(t.parser) && t.tabSize == 8 && t.screen.cols <= U64_LIMIT - 8
    ensures var s, x := t.screen, GetX(t.screen);
      var next := (x / 8 + 1) * 8;
      PutAll(cfg, t, [0x09]).screen == s.(cursorX := Min(next, s.cols - 1), cursorY := GetY(s)) <==>
        next < s.cols || x / 8 + 1 >= s.cols || !IntIsNegative(ToU64(next))
  {
    hide PutAll, TermOk, Feed;
    PlainByte(cfg, t, 0x09);
    var s, x := t.screen, GetX(t.screen);
    assert PutAll(cfg, t, [0x09]).screen == Tab(t, x, GetY(s));
    TabExact(t, x, GetY(s));
  }

  lemma TabExact(t: Term, x: nat, y: nat)
    requires t.tabSize == 8 && x < t.screen.cols <= U64_LIMIT - 8 && y < t.screen.rows
    ensures var s, next := t.screen, (x / 8 + 1) * 8;
      Tab(t, x, y) == s.(cursorX := Min(next, s.cols - 1), cursorY := y) <==>
        next < s.cols || x / 8 + 1 >= s.cols || !IntIsNegative(ToU64(next))
  {
    hide TermOk, Clamp;
    var s, next := t.screen, (x / 8 + 1) * 8;
    assert x / 8 * 8 <= x && ToU64(next) == next;
    assert ToU64(s.cols - 1) == s.cols - 1 && ToU64(y) == y;
    ClampExact(s.cols - 1, s.cols);
    ClampExact(next, s.cols);
    ClampExact(y, s.rows);
  }

  lemma ClampExact(v: u64, limit: nat)
    requires limit >= 1
    ensures Clamp(v, limit) == if v < limit then v else if IntIsNegative(v) then 0 else limit - 1
  {
  }

  function LineFeeds(n: nat): seq<byte> {
    if n == 0 then [] else LineFeeds(n - 1) + [0x0a]
  }

  /** How often `n` line feeds from row `y` scroll: once for each that finds the cursor in the last row of the
      region. Below the region nothing scrolls. */
  function Scrolls(s: Screen, y: nat, n: nat): nat {
    if y < s.bottom && y + n >= s.bottom then y + n - (s.bottom - 1) else 0
  }

  /** The last row that line feeds lead to. */
  function LastRow(s: Screen, y: nat): nat {
    if y < s.bottom then s.bottom - 1 else s.rows - 1
  }

  /** `n` line feeds: the cursor goes down as far as the last row of the region, or of the screen if it starts
      below the region, and the region has scrolled as often as the cursor was there already. */
  lemma {:induction false} LineFeedsScroll(cfg: Config, t: Term, n: nat)
    requires Idle(t.parser) && n >= 1 && (GetY(t.screen) < t.screen.bottom || t.screen.rows < 0x8000_0000)
    ensures var s, y, r := t.screen, GetY(t.screen), PutAll(cfg, t, LineFeeds(n));
      && FedFrom(t, r)
      && r.screen.lines == ScrollTimes(s, Scrolls(s, y, n)).lines
      && r.screen.cursorY == Min(y + n, LastRow(s, y))
      && r.screen.cursorX == if t.newlineReturns then 0 else GetX(s)
  {
    hide PutAll, Scroll, ScrollTimes, Idle;
    var s, y := t.screen, GetY(t.screen);
    if n == 1 {
      assert LineFeeds(1) == [0x0a];
      OneLineFeed(cfg, t);
      NoScroll(s);
      ScrollsAlike(s, s, 0);
    } else {
      LineFeedsScroll(cfg, t, n - 1);
      PutAllConcat(cfg, t, LineFeeds(n - 1), [0x0a]);
      var u := PutAll(cfg, t, LineFeeds(n - 1));
      OneLineFeed(cfg, u);
      ScrollsAlike(s, u.screen, Scrolls(s, y, n - 1));
    }
  }

  predicate FedFrom(t: Term, r: Term) {
    r.parser == t.parser && SameSettings(t.screen, r.screen) && r.newlineReturns == t.newlineReturns
  }

  lemma OneLineFeed(cfg: Config, t: Term)
    requires Idle(t.parser) && (GetY(t.screen) < t.screen.bottom || t.screen.rows < 0x8000_0000)
    ensures var s, y, r := t.screen, GetY(t.screen), PutAll(cfg, t, [0x0a]);
      && FedFrom(t, r)
      && r.screen.lines == (if y == s.bottom - 1 then Scroll(s) else s).lines
      && r.screen.cursorX == (if t.newlineReturns then 0 else GetX(s))
      && r.screen.cursorY == if y == s.bottom - 1 then y else Min(y + 1, s.rows - 1)
  {
    hide PutAll, TermOk, Tab, Scroll;
    PlainByte(cfg, t, 0x0a);
    var s, x, y := t.screen, if t.newlineReturns then 0 else GetX(t.screen), GetY(t.screen);
    assert PutAll(cfg, t, [0x0a]) == WithScreen(t, Feed(s, x, y));
    FeedExact(s, x, y);
  }

  lemma FeedExact(s: Screen, x: nat, y: nat)
    requires x < s.cols && y < s.rows && (y < s.bottom || s.rows < 0x8000_0000)
    ensures var r := Feed(s, x, y);
      && SameSettings(s, r) && r.cursorX == x && r.lines == (if y == s.bottom - 1 then Scroll(s) else s).lines
      && r.cursorY == if y == s.bottom - 1 then y else Min(y + 1, s.rows - 1)
  {
  }

  lemma NoScroll(s: Screen)
    ensures ScrollTimes(s, 0) == s
  {
  }

  lemma ScrollsAlike(s: Screen, u: Screen, m: nat)
    requires SameSettings(s, u) && u.lines == ScrollTimes(s, m).lines
    ensures Scroll(u).lines == ScrollTimes(s, m + 1).lines
  {
  }

  // ---- Text

  /** Between sequences, with ASCII selected. */
  predicate Plain(t: Term) {
    Idle(t.parser) && t.currentCharset == 0 && t.charsets[0] == Default
  }

  predicate Printable(text: seq<byte>) {
    forall i :: 0 <= i < |text| ==> 0x20 <= text[i] <= 0x7e
  }

  /** Characters written one after the other. */
  function PutText(s: Screen, text: seq<byte>): (r: Screen)
    ensures SameSettings(s, r)
  {
    if |text| == 0 then s else RawPut(PutText(s, text[..|text| - 1]), text[|text| - 1])
  }

  lemma {:induction false} PlainText(cfg: Config, t: Term, text: seq<byte>)
    requires Plain(t) && !t.insertMode && Printable(text)
    ensures var r := PutAll(cfg, t, text);
      r.screen == PutText(t.screen, text) && r == t.(screen := r.screen)
  {
    hide PutChar, RawPut, Idle, WriteByte, TermOk;
    if |text| > 0 {
      var c := text[|text| - 1];
      PlainText(cfg, t, text[..|text| - 1]);
      var u := PutAll(cfg, t, text[..|text| - 1]);
      PlainByte(cfg, u, c);
      PutOne(cfg, u, c);
      WriteGlyph(u, c);
      WriteKeeps(u, c);
    }
  }

  lemma WriteKeeps(t: Term, c: byte)
    ensures WriteByte(t, c) == t.(screen := WriteByte(t, c).screen)
  {
    hide TermOk, ShiftDownTo, RawPuts, Glyph;
  }

  /** Part of a row replaced by characters in the selected colours. */
  function Spelled(s: Screen, y: nat, x: nat, text: seq<byte>): (line: seq<Cell>)
    requires y < s.rows
    ensures |line| == s.cols
  {
    seq(s.cols, i requires 0 <= i < s.cols =>
      if x <= i < x + |text| then Cell(text[i - x], s.textFg, s.textBg) else s.lines[y][i])
  }

  /** Text that fits in the rest of the row appears there, and nothing else changes. */
  lemma {:induction false} TypedInRow(s: Screen, text: seq<byte>)
    requires s.cursorX + |text| <= s.cols && s.cursorY < s.rows
    ensures PutText(s, text) ==
      RowChanged(s, s.cursorY, Spelled(s, s.cursorY, s.cursorX, text), s.cursorX + |text|, s.cursorY)
  {
    hide Scroll;
    var x, y, line := s.cursorX, s.cursorY, s.lines[s.cursorY];
    if |text| == 0 {
      assert Spelled(s, y, x, text) == line;
      assert s.lines[y := line] == s.lines;
    } else {
      var front, c := text[..|text| - 1], text[|text| - 1];
      TypedInRow(s, front);
      assert Spelled(s, y, x, text) == Spelled(s, y, x, front)[x + |front| := Cell(c, s.textFg, s.textBg)];
    }
  }

  /** From bytes to the screen. */
  lemma TextWritten(cfg: Config, t: Term, text: seq<byte>)
    requires Plain(t) && !t.insertMode && Printable(text)
    requires t.screen.cursorX + |text| <= t.screen.cols && t.screen.cursorY < t.screen.rows
    ensures var s, r := t.screen, PutAll(cfg, t, text);
      && r == t.(screen := r.screen)
      && r.screen ==
        RowChanged(s, s.cursorY, Spelled(s, s.cursorY, s.cursorX, text), s.cursorX + |text|, s.cursorY)
  {
    hide PutAll, PutText, TermOk;
    PlainText(cfg, t, text);
    TypedInRow(t.screen, text);
  }

  /** Functions of the screen and of margins leave the terminal ready for more text. */
  lemma PlainSequence(cfg: Config, t: Term, vs: seq<u32>, c: byte)
    requires Plain(t) && IsFinal(c) && c !in {0x6d, 0x73, 0x75, 0x6c, 0x68}
    ensures Plain(PutAll(cfg, t, Csi(vs, c))) && PutAll(cfg, t, Csi(vs, c)).insertMode == t.insertMode
  {
    hide PutAll, Parameters, TermOk, ScreenControl, WithPen, OnScreen, ClampedValues;
    ControlSequenceRoundTrip(cfg, t, vs, c);
    var u := WithParser(t, Parsed(t.parser, vs, c));
    assert Control(cfg, u, c) == ScreenFunction(u, c);
  }

  /** `CSI 4 h` turns insert mode on. */
  lemma InsertModeOn(cfg: Config, t: Term)
    requires Plain(t)
    ensures var r := PutAll(cfg, t, Csi([4], 0x68));
      Plain(r) && r.insertMode && r.screen == t.screen
  {
    hide PutAll, Parameters, TermOk, ScreenFunction, WithPen;
    ControlSequenceRoundTrip(cfg, t, [4], 0x68);
    var u := WithParser(t, Parsed(t.parser, [4], 0x68));
    assert u.parser.values[0] == 4 && u.parser.count == 1;
    assert Control(cfg, u, 0x68) == Mode(u, 0x68);
  }

  // ---- Character sets

  /** `ESC (` and `ESC )` with the name `B` or `0` set the character set G0 or G1, and nothing else; any other name
      is ignored. */
  lemma Designate(cfg: Config, t: Term, g: byte, name: byte)
    requires Idle(t.parser) && (g == 0x28 || g == 0x29)
    requires name != 0x18 && name != 0x1a && (name < 0xc0 || name > 0xf7)
    ensures var r := PutAll(cfg, t, [0x1b, g, name]);
      && r.charsets == (if name == 0x42 then t.charsets[g - 0x28 := Default]
                        else if name == 0x30 then t.charsets[g - 0x28 := DecSpecial]
                        else t.charsets)
      && r == t.(charsets := r.charsets, parser := r.parser) && Idle(r.parser)
  {
    hide PutAll, TermOk, WriteCodePoint, ControlSequence, WriteByte, StateFunction, LineFunction, Cancelled, LeadByte,
      ContinuationByte;
    assert [0x1b, g, name] == [0x1b] + [g] + [name];
    PutLast(cfg, t, [0x1b] + [g], name);
    PutLast(cfg, t, [0x1b], g);
    PutOne(cfg, t, 0x1b);
    var u := PutChar(cfg, t, 0x1b);
    assert u == WithParser(t, BeginEscape(t.parser, false));
    EscapeSelects(cfg, u, g);
    var v := PutChar(cfg, u, g);
    assert PutChar(cfg, v, name) == SelectCharset(v, name);
  }

  lemma EscapeSelects(cfg: Config, u: Term, g: byte)
    requires (g == 0x28 || g == 0x29) && u.parser.escape && !u.parser.csi && !u.parser.controlSequence && !u.parser.osc
    requires !u.parser.discardNext && u.parser.unicodeRemaining == 0
    ensures PutChar(cfg, u, g) == WithParser(u,
      u.parser.(escapeOffset := u.parser.escapeOffset + 1, gSelect := g - 0x27, escape := false))
  {
    hide TermOk, WriteCodePoint, ControlSequence, WriteByte, ControlByte, SelectCharset, StateFunction, LineFunction,
      WithParser, Cancelled,
      LeadByte, ContinuationByte, OscByte, BeginControlSequence;
    assert PutChar(cfg, u, g) == EscapeByte(cfg, u, g);
    var v := CountByte(u);
    var w := SelectNext(v, g);
    assert EscapeByte(cfg, u, g) == EndEscape(w);
    WithParserTwice(u, v.parser, w.parser);
    WithParserTwice(u, w.parser, w.parser.(escape := false));
  }

  /** So after `ESC ( 0` a byte with a line drawing character in the DEC set writes that character, while G0 is
      in use and insert mode is off; after `ESC ( B` it writes itself. */
  lemma DesignatedText(cfg: Config, t: Term, c: byte)
    requires Idle(t.parser) && t.currentCharset == 0 && !t.insertMode && 0x20 <= c <= 0x7e
    ensures PutAll(cfg, t, [0x1b, 0x28, 0x30] + [c]).screen ==
      RawPut(t.screen, if DecSpecialGlyph(c).Some? then DecSpecialGlyph(c).value else c)
    ensures PutAll(cfg, t, [0x1b, 0x28, 0x42] + [c]).screen == RawPut(t.screen, c)
  {
    hide PutAll, RawPut, DecSpecialGlyph, TermOk;
    DesignatedByte(cfg, t, 0x30, c);
    DesignatedByte(cfg, t, 0x42, c);
  }

  lemma DesignatedByte(cfg: Config, t: Term, name: byte, c: byte)
    requires Idle(t.parser) && t.currentCharset == 0 && !t.insertMode && 0x20 <= c <= 0x7e
      && (name == 0x42 || name == 0x30)
    ensures PutAll(cfg, t, [0x1b, 0x28, name] + [c]).screen ==
      RawPut(t.screen, if name == 0x30 && DecSpecialGlyph(c).Some? then DecSpecialGlyph(c).value else c)
  {
    hide PutAll, RawPut, DecSpecialGlyph, Idle, WriteByte, Glyph;
    PutAllConcat(cfg, t, [0x1b, 0x28, name], [c]);
    Designate(cfg, t, 0x28, name);
    var u := PutAll(cfg, t, [0x1b, 0x28, name]);
    PlainByte(cfg, u, c);
    WriteGlyph(u, c);
  }

  lemma WriteGlyph(t: Term, c: byte)
    requires !t.insertMode && 0x20 <= c <= 0x7e
    ensures WriteByte(t, c).screen ==
      RawPut(t.screen, if CharsetOf(t).DecSpecial? && DecSpecialGlyph(c).Some? then DecSpecialGlyph(c).value else c)
  {
    hide RawPut, DecSpecialGlyph, RawPuts;
    var glyph := if CharsetOf(t).DecSpecial? && DecSpecialGlyph(c).Some? then DecSpecialGlyph(c).value else c;
    OnePut(t.screen, glyph);
  }
}
