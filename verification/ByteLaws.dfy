/** Bytes outside control sequences: control characters, characters, and the functions behind ESC. */
module ByteLaws {
  import opened Basics
  import opened Screens
  import opened Editing
  import opened EditingLaws
  import opened RunOn
  import opened Wcwidth
  import opened Terminals
  import opened ParserLaws
  import opened SequenceLaws
  import opened ControlLaws
  import opened TextLaws

  // ---- Control characters

  /** Carriage return goes to the first column. */
  lemma CarriageReturn(cfg: Config, t: Term)
    requires Idle(t.parser)
    ensures PutAll(cfg, t, [0x0d]) == t.(screen := t.screen.(cursorX := 0, cursorY := GetY(t.screen)))
  {
    hide PutAll, TermOk, Tab, Feed;
    PlainByte(cfg, t, 0x0d);
    CursorReturns(t.screen, 0, GetY(t.screen));
  }

  /** Backspace goes one column back, but not past the first. */
  lemma Backspace(cfg: Config, t: Term)
    requires Idle(t.parser)
    ensures PutAll(cfg, t, [0x08]) ==
      t.(screen := t.screen.(cursorX := Max(0, GetX(t.screen) - 1), cursorY := GetY(t.screen)))
  {
    hide PutAll, TermOk, Tab, Feed;
    PlainByte(cfg, t, 0x08);
    var s, x, y := t.screen, GetX(t.screen), GetY(t.screen);
    var left: nat := if x == 0 then 0 else x - 1;
    CursorReturns(s, left, y);
    assert left == Max(0, x as int - 1)
      && SetCursor(s, ToU64(x as int - 1), ToU64(y)) == s.(cursorX := left, cursorY := y);
  }

  /** Vertical tab and form feed are line feeds. */
  lemma OtherFeeds(cfg: Config, t: Term)
    requires Idle(t.parser)
    ensures PutAll(cfg, t, [0x0b]) == PutAll(cfg, t, [0x0a]) == PutAll(cfg, t, [0x0c])
  {
    hide PutAll, TermOk, Tab, Feed;
    PlainByte(cfg, t, 0x0a);
    PlainByte(cfg, t, 0x0b);
    PlainByte(cfg, t, 0x0c);
  }

  /** Shift out and shift in select the character sets G1 and G0. */
  lemma Shifts(cfg: Config, t: Term)
    requires Idle(t.parser)
    ensures PutAll(cfg, t, [0x0e]) == t.(currentCharset := 1)
    ensures PutAll(cfg, t, [0x0f]) == t.(currentCharset := 0)
  {
    hide PutAll, Tab, Feed;
    PlainByte(cfg, t, 0x0e);
    PlainByte(cfg, t, 0x0f);
  }

  /** NUL, BEL and DEL do nothing. */
  lemma IgnoredBytes(cfg: Config, t: Term)
    requires Idle(t.parser)
    ensures PutAll(cfg, t, [0x00]) == PutAll(cfg, t, [0x07]) == PutAll(cfg, t, [0x7f]) == t
  {
    hide PutAll, TermOk, Tab, Feed;
    PlainByte(cfg, t, 0x00);
    PlainByte(cfg, t, 0x07);
    PlainByte(cfg, t, 0x7f);
  }

  /** Bytes that are neither characters nor in use: the other control characters, and those that belong to UTF-8 but
      do not begin a character. */
  predicate Unassigned(c: byte) {
    1 <= c <= 6 || 0x10 <= c <= 0x17 || c == 0x19 || 0x1c <= c <= 0x1f
    || (0x80 <= c <= 0xbf && c != 0x9b) || c >= 0xf8
  }

  /** They do nothing, but in insert mode. */
  lemma UnassignedByte(cfg: Config, t: Term, c: byte)
    requires Idle(t.parser) && !t.insertMode && Unassigned(c)
    ensures PutAll(cfg, t, [c]) == t
  {
    hide PutAll, TermOk, ControlByte, EscapeByte, SelectCharset, WriteCodePoint, Cancelled;
    NotInUse(t, c);
    hide Glyph, IsControlByte, Unassigned;
    PutOne(cfg, t, c);
    assert WriteByte(t, c) == t;
    assert PutChar(cfg, t, c) == FreshByte(cfg, t, c) == WriteByte(t, c);
  }

  lemma NotInUse(t: Term, c: byte)
    requires Unassigned(c)
    ensures Glyph(t, c) == None && !IsControlByte(c) && !(0xc0 <= c <= 0xf7) && c != 0x18 && c != 0x1a
  {
    hide TermOk;
  }

  // ---- Characters

  /** A printable byte writes its character, or its line drawing character if the selected set is the DEC one. */
  lemma CharacterOfSet(cfg: Config, t: Term, c: byte)
    requires Idle(t.parser) && !t.insertMode && 0x20 <= c <= 0x7e
    ensures var drawn := t.charsets[t.currentCharset] == DecSpecial && DecSpecialGlyph(c).Some?;
      var after := PutAll(cfg, t, [c]);
      && after.screen == RawPut(t.screen, if drawn then DecSpecialGlyph(c).value else c)
      && after == t.(screen := after.screen)
  {
    hide PutAll, RawPut, DecSpecialGlyph, TermOk, WriteByte, ControlByte, Glyph;
    PlainByte(cfg, t, c);
    WriteGlyph(t, c);
    WriteKeeps(t, c);
  }

  /** The line drawing characters: bytes and their glyphs in code page 437. */
  predicate Draws(c: byte, glyph: byte) {
    (c, glyph) in {
      (0x2b, 0x1a), (0x2c, 0x1b), (0x2d, 0x18), (0x2e, 0x19), (0x30, 0xdb), (0x5f, 0xff), (0x60, 0x04),
      (0x61, 0xb1), (0x66, 0xf8), (0x67, 0xf1), (0x68, 0xb0), (0x6a, 0xd9), (0x6b, 0xbf), (0x6c, 0xda),
      (0x6d, 0xc0), (0x6e, 0xc5), (0x71, 0xc4), (0x73, 0x5f), (0x74, 0xc3), (0x75, 0xb4), (0x76, 0xc1),
      (0x77, 0xc2), (0x78, 0xb3), (0x79, 0xf3), (0x7a, 0xf2), (0x7b, 0xe3), (0x7d, 0x9c), (0x7e, 0xfa)}
  }

  lemma DrawingCharacters(c: byte, glyph: byte)
    ensures DecSpecialGlyph(c) == Some(glyph) <==> Draws(c, glyph)
  {
  }

  /** A character outside ASCII: its glyph, or a box as wide as the character. */
  lemma CharacterWritten(cfg: Config, t: Term, cp: nat)
    requires NothingPending(t.parser) && 0x80 <= cp < 0x11_0000
    ensures var s, after := t.screen, PutAll(cfg, t, Utf8(cp)).screen;
      match cfg.codePage(cp)
      case Some(glyph) => after == RawPut(s, glyph)
      case None =>
        var width := Width(cfg.combining, cp);
        && width <= 2
        && (width == 0 ==> after == s)
        && (width == 1 ==> after == RawPut(s, 0xfe))
        && (width == 2 ==> after == RawPut(RawPut(s, 0xfe), 0x20))
  {
    hide PutAll, Utf8, RawPut, RawPuts, InTable, Wide, TermOk;
    Utf8RoundTrip(cfg, t, cp);
    assert ToU32(cp) == cp;
    var s := t.screen;
    var first := if cfg.codePage(cp).Some? then cfg.codePage(cp).value else 0xfe;
    OnePut(s, first);
    OnePut(RawPut(s, first), SPACE);
    NoWrites(RawPut(s, first), SPACE);
  }

  // ---- ESC and one byte

  /** What ESC and a byte with a function of its own do to an idle terminal, but for the count of bytes. */
  lemma EscapeAndByte(cfg: Config, t: Term, c: byte)
    requires Idle(t.parser) && Final(c)
    ensures var r := EscapeFunction(WithParser(t, Escaped(t.parser)), c);
      PutAll(cfg, t, [0x1b, c]) == WithParser(r, r.parser.(escape := false))
  {
    hide TermOk, WriteCodePoint, WriteByte, EscapeFunction, ControlSequence, LeadByte, ContinuationByte, SelectCharset,
      Cancelled, OscByte, BeginControlSequence;
    assert [0x1b, c] == [0x1b] + [c];
    PutLast(cfg, t, [0x1b], c);
    PutOne(cfg, t, 0x1b);
    var u := PutChar(cfg, t, 0x1b);
    assert u == WithParser(t, BeginEscape(t.parser, false));
    assert PutChar(cfg, u, c) == EscapeByte(cfg, u, c);
    var v := CountByte(u);
    assert EscapeByte(cfg, u, c) == EndEscape(EscapeFunction(v, c));
    WithParserTwice(t, u.parser, v.parser);
    assert v.parser == Escaped(t.parser);
  }

  function Escaped(p: Parser): Parser {
    p.(escapeOffset := 1, escape := true)
  }

  /** Bytes that end an escape sequence. */
  predicate Final(c: byte) {
    0x30 <= c <= 0x7e && c != 0x5b && c != 0x5d
  }

  /** Nothing but the count of bytes differs in the parser. */
  predicate Counted(p: Parser, q: Parser) {
    q == p.(escapeOffset := 1)
  }

  /** Index and next line: the cursor goes down one row, or the region scrolls if the cursor is in its last one. */
  lemma IndexFunctions(cfg: Config, t: Term, c: byte)
    requires Idle(t.parser) && (c == 0x44 || c == 0x45)
    requires GetY(t.screen) < t.screen.bottom || t.screen.rows < 0x8000_0000
    ensures var s, x, y, r := t.screen, GetX(t.screen), GetY(t.screen), PutAll(cfg, t, [0x1b, c]);
      && Counted(t.parser, r.parser)
      && r == t.(screen := r.screen, parser := r.parser)
      && SameSettings(s, r.screen)
      && r.screen.lines == (if y == s.bottom - 1 then Scroll(s) else s).lines
      && r.screen.cursorX == (if c == 0x44 then x else 0)
      && r.screen.cursorY == if y == s.bottom - 1 then y else Min(y + 1, s.rows - 1)
  {
    hide PutAll, TermOk, Feed, Scroll, ReverseFeed;
    EscapeAndByte(cfg, t, c);
    FeedExact(t.screen, if c == 0x44 then GetX(t.screen) else 0, GetY(t.screen));
  }

  /** Reverse index: up one row, or the region scrolls the other way if the cursor is in its first one; then the first
      column. */
  lemma ReverseIndex(cfg: Config, t: Term)
    requires Idle(t.parser)
    ensures var s, y, r := t.screen, GetY(t.screen), PutAll(cfg, t, [0x1b, 0x4d]);
      && Counted(t.parser, r.parser)
      && r == t.(screen := r.screen, parser := r.parser)
      && SameSettings(s, r.screen)
      && r.screen.lines == (if y == s.top then RevScroll(s) else s).lines
      && r.screen.cursorX == 0 && r.screen.cursorY == if y == s.top then y else Max(0, y - 1)
  {
    hide PutAll, TermOk, Feed, RevScroll, ReverseFeed;
    EscapeAndByte(cfg, t, 0x4d);
    ReverseFeedExact(t.screen, GetY(t.screen));
  }

  lemma ReverseFeedExact(s: Screen, y: nat)
    requires y < s.rows
    ensures var r := ReverseFeed(s, y);
      && SameSettings(s, r) && r.cursorX == 0 && r.lines == (if y == s.top then RevScroll(s) else s).lines
      && r.cursorY == if y == s.top then y else Max(0, y - 1)
  {
    hide RevScroll;
    assert SameSettings(s, RevScroll(s)) by { RevScrollSettings(s); }
    CursorReturns(s, 0, Max(0, y - 1));
    CursorReturns(RevScroll(s), 0, y);
  }

  lemma RevScrollSettings(s: Screen)
    ensures SameSettings(s, RevScroll(s))
  {
  }

  /** Reset: the screen is blank in the colours in use, the cursor at home, and everything else as after
      initialisation, but for what ESC 7 saved. */
  lemma ResetFunction(cfg: Config, t: Term)
    requires Idle(t.parser)
    ensures var s, r := t.screen, PutAll(cfg, t, [0x1b, 0x63]);
      && Idle(r.parser)
      && r.screen == s.(lines := BlankLines(s), cursorX := 0, cursorY := 0, cursorEnabled := true, top := 0,
        bottom := s.rows)
      && r.rendition == Rendition(false, false, false, None, None)
      && r.charsets == [Default, DecSpecial] && r.currentCharset == 0
      && !r.insertMode && r.autoflush && r.newlineReturns && r.tabSize == 8 && r.savedX == 0 && r.savedY == 0
      && r.savedRendition == t.savedRendition && r.savedCharset == t.savedCharset
  {
    hide PutAll;
    EscapeAndByte(cfg, t, 0x63);
    var u := WithParser(t, Escaped(t.parser));
    assert EscapeFunction(u, 0x63) == ResetTerm(u);
    var q := Reinit(u).screen;
    assert BlankLine(q) == BlankLine(t.screen);
    assert BlankLines(q) == BlankLines(t.screen);
  }

  /** ESC and any other byte that could end a sequence: nothing. */
  lemma UnknownEscape(cfg: Config, t: Term, c: byte)
    requires Idle(t.parser) && Final(c) && c !in {0x37, 0x38, 0x63, 0x44, 0x45, 0x4d}
    ensures var r := PutAll(cfg, t, [0x1b, c]);
      r == t.(parser := r.parser) && Counted(t.parser, r.parser)
  {
    hide PutAll, TermOk;
    EscapeAndByte(cfg, t, c);
  }
}
