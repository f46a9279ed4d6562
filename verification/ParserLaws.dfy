/** Laws of the byte-stream state machine: splitting the input, its invariant, and the round trips of
    control sequence parameters and of UTF-8. */
module ParserLaws {
  import opened Basics
  import opened Screens
  import opened Terminals
  import opened Editing

  // ---- Splitting the input

  lemma {:induction false} PutAllConcat(cfg: Config, t: Term, a: seq<byte>, b: seq<byte>)
    ensures PutAll(cfg, t, a + b) == PutAll(cfg, PutAll(cfg, t, a), b)
  {
    hide PutChar;
    if |b| == 0 {
      assert a + b == a;
    } else {
      var ab := a + b;
      assert ab[..|ab| - 1] == a + b[..|b| - 1];
      PutAllConcat(cfg, t, a, b[..|b| - 1]);
    }
  }

  lemma PutOne(cfg: Config, t: Term, c: byte)
    ensures PutAll(cfg, t, [c]) == PutChar(cfg, t, c)
  {
    hide PutChar;
    assert [c][..0] == [];
    assert PutAll(cfg, t, []) == t;
  }

  lemma PutLast(cfg: Config, t: Term, a: seq<byte>, c: byte)
    ensures PutAll(cfg, t, a + [c]) == PutChar(cfg, PutAll(cfg, t, a), c)
  {
    hide PutChar, PutAll;
    PutAllConcat(cfg, t, a, [c]);
    PutOne(cfg, PutAll(cfg, t, a), c);
  }

  // ---- Parser invariant

  /** What holds of the parser between any two bytes, beyond its type. */
  predicate Consistent(p: Parser) {
    FlagsOk(p) && p.codePoint < 0x20_0000 && Aligned(p.codePoint, p.unicodeRemaining)
  }

  predicate FlagsOk(p: Parser) {
    && (p.osc || p.controlSequence || p.csi ==> p.escape)
    && !(p.osc && p.controlSequence) && !(p.osc && p.csi) && !(p.controlSequence && p.csi)
    && (p.controlSequence ==> Untyped(p.values, p.count + if p.rrr then 1 else 0))
    && p.gSelect <= 2
  }

  /** Values not typed yet are zero. */
  predicate Untyped(values: seq<u32>, from: nat) {
    forall i :: from <= i < |values| ==> values[i] == 0
  }

  /** At most three bytes are awaited, and the bits they will fill in are clear. */
  predicate Aligned(codePoint: nat, n: nat) {
    match n
    case 0 => true
    case 1 => codePoint % 0x40 == 0
    case 2 => codePoint % 0x1000 == 0
    case 3 => codePoint % 0x4_0000 == 0
    case _ => false
  }

  /** Everything of `q` but the flags and values is that of `p`. */
  predicate SameDecoder(p: Parser, q: Parser) {
    q.codePoint == p.codePoint && (q.unicodeRemaining == p.unicodeRemaining || q.unicodeRemaining == 0)
  }

  lemma ParserStepsKeepFlags(p: Parser, c: byte)
    requires FlagsOk(p) && p.escape
    ensures p.osc ==> FlagsOk(OscByte(p, c)) && SameDecoder(p, OscByte(p, c))
    ensures !p.osc && !p.controlSequence ==> FlagsOk(BeginControlSequence(p)) && SameDecoder(p, BeginControlSequence(p))
    ensures !p.osc && !p.controlSequence && !p.csi ==> FlagsOk(p.(oscEscape := false, osc := true))
  {
  }

  lemma CollectKeepsFlags(p: Parser, c: byte)
    requires FlagsOk(p) && p.controlSequence && Collects(p, c)
    ensures FlagsOk(Collect(p, c)) && SameDecoder(p, Collect(p, c))
  {
    hide AppendDigit;
  }

  lemma EndKeepsFlags(p: Parser, c: byte, q: Parser)
    requires FlagsOk(p) && p.controlSequence
    requires q == EndSequence(WithDefaults(EndValue(p), c).(values := q.values))
    ensures FlagsOk(q) && SameDecoder(p, q)
  {
  }

  lemma DispatchParser(cfg: Config, t: Term, c: byte)
    ensures var q := Dispatch(cfg, t, c).parser;
      q == EndSequence(WithDefaults(t.parser, c).(values := q.values))
  {
    hide Control, DecMode, WithDefaults;
  }

  lemma ControlSequenceKeepsFlags(cfg: Config, t: Term, c: byte)
    requires FlagsOk(t.parser) && t.parser.controlSequence
    ensures FlagsOk(ControlSequence(cfg, t, c).parser) && SameDecoder(t.parser, ControlSequence(cfg, t, c).parser)
  {
    hide Dispatch, Collect, EndValue, Collects, FlagsOk;
    if Collects(t.parser, c) {
      CollectKeepsFlags(t.parser, c);
    } else {
      DispatchParser(cfg, WithParser(t, EndValue(t.parser)), c);
      EndKeepsFlags(t.parser, c, ControlSequence(cfg, t, c).parser);
    }
  }

  lemma EscapeFunctionParser(t: Term, c: byte)
    ensures EscapeFunction(t, c).parser == EscapeParser(t.parser, c)
  {
    hide SaveTerm, RestoreTerm, ResetTerm, LineFunction, SelectNext, WithParser, TermOk, ResetParser;
    if c == 0x28 || c == 0x29 {
      SelectNextParser(t, c);
    }
  }

  lemma SelectNextParser(t: Term, c: byte)
    requires c == 0x28 || c == 0x29
    ensures SelectNext(t, c).parser == t.parser.(gSelect := c - 0x27)
  {
    hide WithParser, TermOk;
  }

  lemma EscapeEndKeepsFlags(p: Parser, c: byte)
    requires FlagsOk(p) && !p.osc && !p.controlSequence && !p.csi
    ensures FlagsOk(EscapeParser(p, c).(escape := false)) && SameDecoder(p, EscapeParser(p, c).(escape := false))
  {
  }

  lemma EscapeStepKeepsFlags(cfg: Config, t: Term, c: byte)
    requires FlagsOk(t.parser) && t.parser.escape
    ensures FlagsOk(EscapeStep(cfg, t, c).parser) && SameDecoder(t.parser, EscapeStep(cfg, t, c).parser)
  {
    hide ControlSequence, EscapeFunction, OscByte, BeginControlSequence, EscapeParser, WithParser;
    var p := t.parser;
    ParserStepsKeepFlags(p, c);
    if p.controlSequence {
      ControlSequenceKeepsFlags(cfg, t, c);
    } else if !p.osc && !p.csi && c != 0x5b && c != 0x5d {
      EscapeFunctionParser(t, c);
      EscapeEndKeepsFlags(p, c);
    }
  }

  lemma EscapeByteConsistent(cfg: Config, t: Term, c: byte)
    requires Consistent(t.parser) && t.parser.escape
    ensures Consistent(EscapeByte(cfg, t, c).parser)
  {
    hide EscapeStep, CountByte, TermOk, FlagsOk, Aligned;
    CountedConsistent(t);
    EscapeStepKeepsFlags(cfg, CountByte(t), c);
    ZeroAligned(EscapeByte(cfg, t, c).parser.codePoint);
  }

  lemma CountedConsistent(t: Term)
    requires Consistent(t.parser)
    ensures var p := CountByte(t).parser;
      Consistent(p) && p.escape == t.parser.escape && SameDecoder(t.parser, p)
  {
    hide TermOk;
  }

  lemma ZeroAligned(codePoint: nat)
    ensures Aligned(codePoint, 0)
  {
  }

  lemma LeadBits(c: byte)
    ensures Aligned(c % 0x20 * 0x40, 1) && Aligned(c % 0x10 * 0x1000, 2) && Aligned(c % 8 * 0x4_0000, 3)
    ensures c % 0x20 * 0x40 < 0x20_0000 && c % 0x10 * 0x1000 < 0x20_0000 && c % 8 * 0x4_0000 < 0x20_0000
  {
    DivModUnique(c % 0x20, 0x40, 0);
    DivModUnique(c % 0x10, 0x1000, 0);
    DivModUnique(c % 8, 0x4_0000, 0);
  }

  lemma LeadByteConsistent(p: Parser, c: byte)
    requires Consistent(p) && 0xc0 <= c <= 0xf7
    ensures Consistent(LeadByte(p, c))
  {
    hide Aligned;
    LeadBits(c);
    LeadByteFlags(p, c);
  }

  lemma LeadByteFlags(p: Parser, c: byte)
    requires FlagsOk(p) && 0xc0 <= c <= 0xf7
    ensures FlagsOk(LeadByte(p, c))
  {
    hide Untyped, LeadByte;
  }

  /** Six more bits below the ones read so far. */
  lemma ContinuationBits(codePoint: nat, n: nat, bits: nat)
    requires codePoint < 0x20_0000 && 1 <= n && Aligned(codePoint, n) && bits < 0x40
    ensures codePoint + bits * Pow64(n - 1) < 0x20_0000 && Aligned(codePoint + bits * Pow64(n - 1), n - 1)
  {
    assert Pow64(0) == 1;
    assert Pow64(1) == 0x40;
    assert Pow64(2) == 0x1000;
    if n == 2 {
      assert (codePoint + bits * 0x40) % 0x40 == 0 by { DivModUnique(codePoint / 0x40 + bits, 0x40, 0); }
    } else if n == 3 {
      assert codePoint == codePoint / 0x4_0000 * 0x4_0000;
      DivModUnique(codePoint / 0x4_0000 * 0x40 + bits, 0x1000, 0);
    }
  }

  /** For each of the three shifts, the bits that a continuation byte fills in are clear: `|=` is a sum. */
  lemma OrIsSum(p: Parser, c: byte)
    requires p.unicodeRemaining > 0 && Aligned(p.codePoint, p.unicodeRemaining)
    ensures var n := p.unicodeRemaining - 1;
      ContinuationByte(p, c) == p.(unicodeRemaining := n, codePoint := p.codePoint + c % 0x40 * Pow64(n))
  {
    PowersOfTwo();
    OrOfDisjoint(p.codePoint, c % 0x40 * Pow64(p.unicodeRemaining - 1), 6 * p.unicodeRemaining);
  }

  lemma PowersOfTwo()
    ensures Pow2(6) == 0x40 && Pow2(12) == 0x1000 && Pow2(18) == 0x4_0000
    ensures Pow64(0) == 1 && Pow64(1) == 0x40 && Pow64(2) == 0x1000
  {
    assert Pow2(4) == 0x10;
    assert Pow2(8) == 0x100;
    assert Pow2(14) == 0x4000;
  }

  lemma ContinuationConsistent(p: Parser, c: byte)
    requires Consistent(p) && p.unicodeRemaining != 0
    ensures Consistent(ContinuationByte(p, c))
  {
    hide Aligned, Pow64, ContinuationByte;
    OrIsSum(p, c);
    ContinuationBits(p.codePoint, p.unicodeRemaining, c % 0x40);
  }

  lemma ControlByteParser(t: Term, c: byte)
    ensures ControlByte(t, c).parser ==
      if c == 0x9b then BeginEscape(t.parser, true) else if c == 0x1b then BeginEscape(t.parser, t.parser.csi)
        else t.parser
  {
    hide Feed, Tab, SetCursor, WithScreen, WithParser, BeginEscape;
  }

  lemma BeginEscapeFlags(p: Parser, csi: bool)
    requires FlagsOk(p) && !p.escape
    ensures FlagsOk(BeginEscape(p, csi)) && SameDecoder(p, BeginEscape(p, csi))
  {
  }

  lemma ControlByteKeepsFlags(t: Term, c: byte)
    requires FlagsOk(t.parser) && !t.parser.escape
    ensures FlagsOk(ControlByte(t, c).parser) && SameDecoder(t.parser, ControlByte(t, c).parser)
  {
    hide ControlByte, FlagsOk, BeginEscape;
    ControlByteParser(t, c);
    BeginEscapeFlags(t.parser, true);
    BeginEscapeFlags(t.parser, t.parser.csi);
  }

  lemma ByteFunctionsKeepParser(t: Term, c: byte)
    ensures t.parser.gSelect != 0 ==> SelectCharset(t, c).parser == t.parser.(gSelect := 0)
    ensures WriteByte(t, c).parser == t.parser
  {
    hide Print, ShiftDownTo, Glyph, WithScreen, WithParser, NameCharset;
  }

  lemma FreshByteConsistent(cfg: Config, t: Term, c: byte)
    requires Consistent(t.parser)
    ensures Consistent(FreshByte(cfg, t, c).parser)
  {
    hide EscapeByte, LeadByte, SelectCharset, ControlByte, WriteByte, WithParser, IsControlByte;
    if 0xc0 <= c <= 0xf7 {
      LeadByteConsistent(t.parser, c);
    } else if t.parser.escape {
      EscapeByteConsistent(cfg, t, c);
    } else {
      ByteFunctionsKeepParser(t, c);
      ControlByteKeepsFlags(t, c);
    }
  }

  lemma PutCharConsistent(cfg: Config, t: Term, c: byte)
    requires Consistent(t.parser)
    ensures Consistent(PutChar(cfg, t, c).parser)
  {
    hide FreshByte, WriteCodePoint, ContinuationByte, WithScreen, WithParser;
    var p := t.parser;
    if p.discardNext || c == 0x18 || c == 0x1a {
    } else if p.unicodeRemaining != 0 && c / 0x40 == 2 {
      ContinuationConsistent(p, c);
    } else {
      FreshByteConsistent(cfg, WithParser(t, p.(unicodeRemaining := 0)), c);
      if p.unicodeRemaining == 0 {
        FreshByteConsistent(cfg, t, c);
      }
    }
  }

  /** After any bytes whatever: the parser is consistent, the margins enclose a row of the screen, the
      cursor is on the screen or in the column past its end, and scrolling is on again. */
  lemma {:induction false} InvariantOverAllBytes(cfg: Config, t: Term, buf: seq<byte>)
    requires Consistent(t.parser)
    ensures var r := PutAll(cfg, t, buf);
      && Consistent(r.parser)
      && r.screen.top < r.screen.bottom <= r.screen.rows
      && r.screen.cursorX <= r.screen.cols && (r.screen.cursorY < r.screen.rows || r.screen.cursorY < r.screen.cols)
      && r.screen.scrollEnabled
  {
    hide PutChar;
    if |buf| > 0 {
      InvariantOverAllBytes(cfg, t, buf[..|buf| - 1]);
      PutCharConsistent(cfg, PutAll(cfg, t, buf[..|buf| - 1]), buf[|buf| - 1]);
    }
  }
}
