/** ESC 7 and ESC 8: what is saved stays saved, and comes back. */
module SavedState {
  import opened Basics
  import opened Screens
  import opened Editing
  import opened Sgr
  import opened Wcwidth
  import opened Terminals
  import opened ParserLaws
  import opened SequenceLaws

  predicate SameSavedScreen(s: Screen, r: Screen) {
    r.savedX == s.savedX && r.savedY == s.savedY && r.savedFg == s.savedFg && r.savedBg == s.savedBg
  }

  /** The state that ESC 7 saved has not changed. */
  predicate SameSaved(t: Term, r: Term) {
    SameSavedScreen(t.screen, r.screen) && r.savedRendition == t.savedRendition && r.savedCharset == t.savedCharset
  }

  /** No escape sequence other than a control sequence is under way. */
  predicate OnlyControlSequence(p: Parser) {
    p.escape ==> p.csi || p.controlSequence
  }

  // ---- No other function touches the saved state

  lemma OnScreenKeepsSaved(s: Screen, c: byte, values: seq<u32>, count: nat)
    requires |values| == MAX_VALUES
    ensures SameSavedScreen(s, OnScreen(s, c, values, count))
  {
    hide ScreenControl;
  }

  lemma ControlKeepsSaved(cfg: Config, t: Term, c: byte)
    ensures SameSaved(t, Control(cfg, t, c))
  {
    hide OnScreen, SelectRendition, Clamped, TermOk, SetMargins, MoveCursor, EditScreen;
    OnScreenKeepsSaved(t.screen, c, t.parser.values, t.parser.count);
  }

  lemma DispatchKeepsSaved(cfg: Config, t: Term, c: byte)
    ensures SameSaved(t, Dispatch(cfg, t, c))
  {
    hide Control, WithDefaults, TermOk, EndSequence;
    ControlKeepsSaved(cfg, WithParser(t, WithDefaults(t.parser, c)), c);
  }

  lemma ControlSequenceKeepsSaved(cfg: Config, t: Term, c: byte)
    ensures SameSaved(t, ControlSequence(cfg, t, c))
  {
    hide Dispatch, Collect, EndValue, TermOk;
    DispatchKeepsSaved(cfg, WithParser(t, EndValue(t.parser)), c);
  }

  lemma EscapeByteKeepsSaved(cfg: Config, t: Term, c: byte)
    requires t.parser.csi || t.parser.controlSequence
    ensures SameSaved(t, EscapeByte(cfg, t, c))
  {
    hide ControlSequence, OscByte, BeginControlSequence, EscapeFunction, TermOk;
    ControlSequenceKeepsSaved(cfg, CountByte(t), c);
  }

  lemma ControlByteKeepsSaved(t: Term, c: byte)
    ensures SameSaved(t, ControlByte(t, c))
  {
    hide BeginEscape, TermOk, Tab, Feed, SetCursor, WithParser;
    ControlByteKeepsSavedScreen(t, c);
    WithParserKeepsSaved(t, BeginEscape(t.parser, true));
    WithParserKeepsSaved(t, BeginEscape(t.parser, t.parser.csi));
  }

  lemma ControlByteKeepsSavedScreen(t: Term, c: byte)
    ensures SameSavedScreen(t.screen, ControlByte(t, c).screen)
  {
    CursorKeepsSaved(t);
    hide BeginEscape, TermOk, WithParser, WithScreen, SetCursor, Feed, Tab, SameSavedScreen;
  }

  lemma CursorKeepsSaved(t: Term)
    ensures var s := t.screen; SameSavedScreen(s, s)
    ensures var s := t.screen; forall x: u64, y: u64 :: SameSavedScreen(s, SetCursor(s, x, y))
    ensures var s := t.screen; forall x: nat, y: nat ::
      SameSavedScreen(s, Feed(s, x, y)) && SameSavedScreen(s, Tab(t, x, y))
  {
    hide TermOk, Clamp;
  }

  lemma WithParserKeepsSaved(t: Term, p: Parser)
    ensures SameSaved(t, WithParser(t, p))
  {
  }

  lemma WithScreenKeepsSaved(t: Term, s: Screen)
    requires Follows(t.screen, s) && SameSavedScreen(t.screen, s)
    ensures SameSaved(t, WithScreen(t, s))
  {
  }

  lemma WriteByteKeepsSaved(t: Term, c: byte)
    ensures SameSaved(t, WriteByte(t, c))
  {
    hide Print, ShiftDownTo, TermOk, Glyph, RawPuts;
  }

  lemma WriteCodePointKeepsSaved(cfg: Config, s: Screen, cp: nat)
    ensures SameSavedScreen(s, WriteCodePoint(cfg, s, cp))
  {
    hide Print, RawPuts, Width;
  }

  lemma FreshByteKeepsSaved(cfg: Config, t: Term, c: byte)
    requires OnlyControlSequence(t.parser)
    ensures SameSaved(t, FreshByte(cfg, t, c))
  {
    hide EscapeByte, LeadByte, ControlByte, WriteByte, TermOk, NameCharset;
    if 0xc0 <= c <= 0xf7 {
    } else if t.parser.escape {
      EscapeByteKeepsSaved(cfg, t, c);
    } else if t.parser.gSelect != 0 {
      SelectCharsetKeepsSaved(t, c);
    } else {
      ControlByteKeepsSaved(t, c);
      WriteByteKeepsSaved(t, c);
    }
  }

  lemma SelectCharsetKeepsSaved(t: Term, c: byte)
    requires t.parser.gSelect != 0
    ensures SameSaved(t, SelectCharset(t, c))
  {
    hide TermOk;
  }

  lemma PutCharKeepsSaved(cfg: Config, t: Term, c: byte)
    requires OnlyControlSequence(t.parser)
    ensures SameSaved(t, PutChar(cfg, t, c))
  {
    hide FreshByte, WriteCodePoint, ContinuationByte, Cancelled, TermOk, WithParser, WithScreen, SameSaved;
    var p := t.parser;
    if p.discardNext || c == 0x18 || c == 0x1a {
      WithParserKeepsSaved(t, Cancelled(p));
    } else if p.unicodeRemaining == 0 {
      FreshByteKeepsSaved(cfg, t, c);
    } else if c / 0x40 != 2 {
      var u := WithParser(t, p.(unicodeRemaining := 0));
      WithParserKeepsSaved(t, p.(unicodeRemaining := 0));
      FreshByteKeepsSaved(cfg, u, c);
      SameSavedFurther(t, u, FreshByte(cfg, u, c));
    } else {
      var q := ContinuationByte(p, c);
      var u := WithParser(t, q);
      WithParserKeepsSaved(t, q);
      if q.unicodeRemaining == 0 {
        WriteCodePointKeepsSaved(cfg, t.screen, q.codePoint);
        WithScreenKeepsSaved(u, WriteCodePoint(cfg, t.screen, q.codePoint));
        SameSavedFurther(t, u, PutChar(cfg, t, c));
      }
    }
  }

  lemma SameSavedFurther(t: Term, u: Term, r: Term)
    requires SameSaved(t, u) && SameSaved(u, r)
    ensures SameSaved(t, r)
  {
  }

  // ---- Without ESC no other escape sequence begins

  lemma FreshByteOnlyControlSequence(cfg: Config, t: Term, c: byte)
    requires FlagsOk(t.parser) && OnlyControlSequence(t.parser) && c != 0x1b
    ensures OnlyControlSequence(FreshByte(cfg, t, c).parser)
  {
    hide EscapeByte, LeadByte, ControlByte, SelectCharset, WriteByte, WithParser, TermOk;
    if 0xc0 <= c <= 0xf7 {
    } else if t.parser.escape {
      EscapeByteOnlyControlSequence(cfg, t, c);
    } else {
      ControlByteParser(t, c);
      ByteFunctionsKeepParser(t, c);
    }
  }

  lemma EscapeByteOnlyControlSequence(cfg: Config, t: Term, c: byte)
    requires FlagsOk(t.parser) && t.parser.escape && OnlyControlSequence(t.parser)
    ensures OnlyControlSequence(EscapeByte(cfg, t, c).parser)
  {
    assert !t.parser.osc;
    hide ControlSequence, OscByte, EscapeFunction, TermOk, WithParser, FlagsOk;
    var u := CountByte(t);
    if t.parser.controlSequence {
      ControlSequenceOnly(cfg, u, c);
    }
  }

  lemma ControlSequenceOnly(cfg: Config, t: Term, c: byte)
    requires t.parser.controlSequence
    ensures OnlyControlSequence(ControlSequence(cfg, t, c).parser)
  {
    hide Dispatch, TermOk, WithParser, Digit, EmptyValue, EndValue, WithDefaults;
    if Collects(t.parser, c) {
      CollectedFlags(t.parser, c);
    } else {
      DispatchParser(cfg, WithParser(t, EndValue(t.parser)), c);
    }
  }

  lemma CollectedFlags(p: Parser, c: byte)
    requires p.controlSequence && Collects(p, c)
    ensures Collect(p, c).controlSequence || !Collect(p, c).escape
  {
    hide AppendDigit;
  }

  lemma PutCharOnlyControlSequence(cfg: Config, t: Term, c: byte)
    requires Consistent(t.parser) && OnlyControlSequence(t.parser) && c != 0x1b
    ensures OnlyControlSequence(PutChar(cfg, t, c).parser)
  {
    hide FreshByte, WriteCodePoint, TermOk, WithParser, WithScreen, Pow64, FlagsOk, Aligned;
    var p := t.parser;
    if p.discardNext || c == 0x18 || c == 0x1a {
    } else if p.unicodeRemaining == 0 {
      FreshByteOnlyControlSequence(cfg, t, c);
    } else if c / 0x40 != 2 {
      FlagsElsewhere(p);
      FreshByteOnlyControlSequence(cfg, WithParser(t, p.(unicodeRemaining := 0)), c);
    }
  }

  lemma FlagsElsewhere(p: Parser)
    requires FlagsOk(p)
    ensures FlagsOk(p.(unicodeRemaining := 0))
  {
  }

  lemma {:induction false} BytesKeepSaved(cfg: Config, t: Term, buf: seq<byte>)
    requires Consistent(t.parser) && OnlyControlSequence(t.parser) && 0x1b !in buf
    ensures var r := PutAll(cfg, t, buf);
      SameSaved(t, r) && Consistent(r.parser) && OnlyControlSequence(r.parser)
  {
    hide PutChar, SameSaved, Consistent, OnlyControlSequence;
    if |buf| == 0 {
      WithParserKeepsSaved(t, t.parser);
      assert WithParser(t, t.parser) == t;
    } else {
      var front, last := buf[..|buf| - 1], buf[|buf| - 1];
      BytesKeepSaved(cfg, t, front);
      var u := PutAll(cfg, t, front);
      PutCharConsistent(cfg, u, last);
      PutCharKeepsSaved(cfg, u, last);
      PutCharOnlyControlSequence(cfg, u, last);
      SameSavedFurther(t, u, PutChar(cfg, u, last));
    }
  }

  // ---- The round trip

  /** ESC and a byte for a function of its own. */
  lemma PutEscape(cfg: Config, t: Term, c: byte)
    requires Idle(t.parser) && (c == 0x37 || c == 0x38)
    ensures PutAll(cfg, t, [0x1b, c]) == WithParser(StateFunction(t, c), t.parser.(escapeOffset := 1))
  {
    hide TermOk, WriteCodePoint, WriteByte, SaveTerm, RestoreTerm, ControlSequence, LeadByte, ContinuationByte;
    assert [0x1b, c] == [0x1b] + [c];
    PutLast(cfg, t, [0x1b], c);
    PutOne(cfg, t, 0x1b);
    var u := PutChar(cfg, t, 0x1b);
    assert u == WithParser(t, BeginEscape(t.parser, false));
    assert PutChar(cfg, u, c) == EscapeByte(cfg, u, c);
    var v := CountByte(u);
    assert EscapeByte(cfg, u, c) == EndEscape(StateFunction(v, c));
    StateElsewhere(t, v.parser, t.parser.(escapeOffset := 1), c);
    WithParserTwice(t, u.parser, v.parser);
  }

  lemma StateElsewhere(t: Term, p: Parser, q: Parser, c: byte)
    requires c == 0x37 || c == 0x38
    ensures StateFunction(WithParser(t, p), c).parser == p
    ensures WithParser(StateFunction(WithParser(t, p), c), q) == WithParser(StateFunction(t, c), q)
  {
    hide TermOk;
  }

  /** ESC 7, then any bytes without ESC that leave no sequence unfinished, then ESC 8: the cursor, the
      colours, the attributes and the character set are those before ESC 7, whatever the bytes did to
      them; the contents of the screen are those that the bytes left. */
  lemma SaveThenRestore(cfg: Config, t: Term, buf: seq<byte>)
    requires Consistent(t.parser) && Idle(t.parser) && 0x1b !in buf
    requires Idle(PutAll(cfg, t, [0x1b, 0x37] + buf).parser)
    ensures var between, after := PutAll(cfg, t, [0x1b, 0x37] + buf), PutAll(cfg, t, [0x1b, 0x37] + buf + [0x1b, 0x38]);
      && after.screen.cursorX == t.screen.cursorX && after.screen.cursorY == t.screen.cursorY
      && after.screen.textFg == t.screen.textFg && after.screen.textBg == t.screen.textBg
      && after.rendition == t.rendition && after.currentCharset == t.currentCharset
      && after.screen.lines == between.screen.lines
  {
    hide PutAll, PutChar, Consistent, TermOk;
    PutEscape(cfg, t, 0x37);
    var saved := PutAll(cfg, t, [0x1b, 0x37]);
    assert Consistent(saved.parser) by { ConsistentElsewhere(t.parser, 1); }
    PutAllConcat(cfg, t, [0x1b, 0x37], buf);
    BytesKeepSaved(cfg, saved, buf);
    var between := PutAll(cfg, saved, buf);
    PutAllConcat(cfg, t, [0x1b, 0x37] + buf, [0x1b, 0x38]);
    PutEscape(cfg, between, 0x38);
  }

  lemma ConsistentElsewhere(p: Parser, offset: nat)
    requires Consistent(p)
    ensures Consistent(p.(escapeOffset := offset))
  {
  }
}
