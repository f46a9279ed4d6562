/** The 8-bit introducer, and the contents of operating system commands. */
module EscapeLaws {
  import opened Basics
  import opened Screens
  import opened Numerals
  import opened Sgr
  import opened Editing
  import opened EditingLaws
  import opened RunOn
  import opened Wcwidth
  import opened Terminals
  import opened ParserLaws
  import opened SequenceLaws
  import opened ControlLaws

  // ---- The 8-bit introducer

  /** Bytes that reach the escape parser: neither CAN nor SUB nor the start of a UTF-8 sequence. */
  predicate Ordinary(c: byte) {
    c != 0x18 && c != 0x1a && (c < 0xc0 || c > 0xf7)
  }

  /** After 0x9B any ordinary byte is swallowed: the two together are what `ESC [` is. */
  lemma EightBitIntroducer(cfg: Config, t: Term, d: byte)
    requires Idle(t.parser) && Ordinary(d)
    ensures PutAll(cfg, t, [0x9b, d]) == PutAll(cfg, t, [0x1b, 0x5b])
  {
    hide TermOk, WriteCodePoint, ControlSequence, EscapeFunction, WriteByte, OscByte, LeadByte, ContinuationByte,
      Cancelled,
      SelectCharset;
    PutIntroducer(cfg, t);
    assert [0x9b, d] == [0x9b] + [d];
    PutLast(cfg, t, [0x9b], d);
    PutOne(cfg, t, 0x9b);
    var u := PutChar(cfg, t, 0x9b);
    assert u == WithParser(t, BeginEscape(t.parser, true));
    assert PutChar(cfg, u, d) == EscapeByte(cfg, u, d);
    var v := CountByte(u);
    assert EscapeByte(cfg, u, d) == WithParser(v, BeginControlSequence(v.parser));
    WithParserTwice(t, u.parser, v.parser);
    WithParserTwice(t, v.parser, BeginControlSequence(v.parser));
    assert BeginControlSequence(v.parser) == Introduced(t.parser);
  }

  /** So a sequence that follows 0x9B directly loses its first byte. */
  lemma EightBitSequence(cfg: Config, t: Term, d: byte, rest: seq<byte>)
    requires Idle(t.parser) && Ordinary(d)
    ensures PutAll(cfg, t, [0x9b] + ([d] + rest)) == PutAll(cfg, t, [0x1b, 0x5b] + rest)
  {
    hide PutAll;
    EightBitIntroducer(cfg, t, d);
    PutAllConcat(cfg, t, [0x9b, d], rest);
    PutAllConcat(cfg, t, [0x1b, 0x5b], rest);
    assert [0x9b] + ([d] + rest) == [0x9b, d] + rest;
  }

  /** A number without its first decimal digit. */
  function Rest(v: u32): (r: u32)
    ensures r == v <==> v == 0
    ensures r <= v
  {
    if v < 10 then 0 else Rest(v / 10) * 10 + v % 10
  }

  /** The parameters left when their first byte is swallowed. */
  function Remaining(vs: seq<u32>): (r: seq<u32>)
    requires |vs| >= 1
  {
    if |vs| == 1 && vs[0] < 10 then [] else vs[0 := Rest(vs[0])]
  }

  /** The parser after that many bytes. */
  function At(p: Parser, k: nat): (r: Parser)
    ensures r.values == p.values && r.count == p.count
  {
    p.(escapeOffset := k)
  }

  /** Except in first place the count of bytes does not matter to what is collected. */
  lemma {:induction false} OffsetFree(p: Parser, k: nat, bytes: seq<byte>)
    requires ParameterBytes(bytes)
    ensures CollectAll(At(p, k), bytes) == At(CollectAll(p, bytes), k + |bytes|)
  {
    hide CollectByte, At;
    if |bytes| > 0 {
      var front := bytes[..|bytes| - 1];
      OffsetFree(p, k, front);
      OffsetStep(CollectAll(p, front), k + |front|, bytes[|bytes| - 1]);
    }
  }

  lemma OffsetStep(p: Parser, k: nat, c: byte)
    requires 0x30 <= c <= 0x39 || c == 0x3b
    ensures CollectByte(At(p, k), c) == At(CollectByte(p, c), k + 1)
  {
    hide Digit, EndValue, EmptyValue, ParserOk;
    var q := At(p, p.escapeOffset + 1);
    assert CollectByte(p, c) == Collect(q, c);
    assert CollectByte(At(p, k), c) == Collect(At(q, k + 1), c);
    if c == 0x3b {
      OffsetSeparator(q, k + 1);
    } else {
      OffsetDigit(q, k + 1, c);
    }
  }

  lemma OffsetDigit(p: Parser, k: nat, c: byte)
    requires 0x30 <= c <= 0x39
    ensures Digit(At(p, k), c) == At(Digit(p, c), k)
  {
    hide AppendDigit;
  }

  lemma OffsetSeparator(p: Parser, k: nat)
    ensures p.rrr ==> EndValue(At(p, k)) == At(EndValue(p), k)
    ensures !p.rrr ==> EmptyValue(At(p, k)) == At(EmptyValue(p), k)
  {
    if p.rrr {
      assert p.count < MAX_VALUES;
    }
  }

  /** The parser before the first parameter. */
  predicate Beginning(p: Parser) {
    Reading(p) && p.count == 0 && p.values == ReadValues([], 0)
  }

  lemma {:induction false} CollectRest(p: Parser, v: u32)
    requires Beginning(p) && v >= 10
    ensures ParameterBytes(Numeral(10, v)[1..])
    ensures CollectAll(p, Numeral(10, v)[1..]) == AfterDigits(p, Rest(v), |Numeral(10, v)| - 1)
    decreases v
  {
    hide CollectByte, CollectAll, ParameterBytes, AfterDigits, Beginning;
    var front, d := Numeral(10, v / 10), v % 10;
    assert Numeral(10, v)[1..] == front[1..] + [DigitByte(d)];
    if v < 100 {
      CollectNothing(p);
      CollectLast(p, [], DigitByte(d));
      assert front[1..] == [];
      FirstRest(p, d);
    } else {
      CollectRest(p, v / 10);
      CollectLast(p, front[1..], DigitByte(d));
      NextRest(p, Rest(v / 10), |front| - 1, d);
    }
  }

  lemma FirstRest(p: Parser, d: nat)
    requires Beginning(p) && d < 10
    ensures CollectByte(p, DigitByte(d)) == AfterDigits(p, d, 1)
  {
    hide CollectByte, AfterDigits;
    FirstDigit(p, d);
  }

  lemma NextRest(p: Parser, v: u32, n: nat, d: nat)
    requires Beginning(p) && d < 10 && v * 10 + d < U32_LIMIT
    ensures CollectByte(AfterDigits(p, v, n), DigitByte(d)) == AfterDigits(p, v * 10 + d, n + 1)
  {
    hide CollectByte, AfterDigits;
    NextDigit(p, v, n, d);
  }

  /** The parser after a parameter and the semicolon behind it. */
  function AfterSeparator(p: Parser, vs: seq<u32>, n: nat): Parser {
    p.(rrr := false, count := MinValues(|vs|), values := ReadValues(vs, 0), escapeOffset := p.escapeOffset + n)
  }

  /** A list without its first byte, and a semicolon. */
  lemma {:induction false} CollectSeparated(p: Parser, vs: seq<u32>)
    requires Beginning(p) && |vs| >= 1
    ensures |Parameters(vs)| >= 1 && ParameterBytes(Parameters(vs)[1..])
    ensures CollectByte(CollectAll(p, Parameters(vs)[1..]), 0x3b) ==
      AfterSeparator(p, vs[0 := Rest(vs[0])], |Parameters(vs)|)
    decreases |vs|, 1
  {
    hide CollectByte, CollectAll, Numeral, ParameterBytes, AfterSeparator, Beginning;
    if |vs| == 1 {
      assert vs[0 := Rest(vs[0])] == [Rest(vs[0])];
      SeparatedOne(p, vs[0]);
    } else {
      CollectMore(p, vs);
      SeparatorTyped(p, Parameters(vs)[1..], vs[0 := Rest(vs[0])]);
    }
  }

  lemma SeparatedOne(p: Parser, v: u32)
    requires Beginning(p)
    ensures ParameterBytes(Numeral(10, v)[1..])
    ensures CollectByte(CollectAll(p, Numeral(10, v)[1..]), 0x3b) == AfterSeparator(p, [Rest(v)], |Numeral(10, v)|)
  {
    hide CollectAll;
    if v < 10 {
      CollectNothing(p);
      assert Numeral(10, v)[1..] == [];
    } else {
      CollectRest(p, v);
      hide Numeral;
      assert p.values[0 := Rest(v)] == ReadValues([Rest(v)], 0);
    }
  }

  /** Such a list of two or more: its first value lacks its first digit. */
  lemma CollectMore(p: Parser, vs: seq<u32>)
    requires Beginning(p) && |vs| >= 2
    ensures |Parameters(vs)| >= 1 && ParameterBytes(Parameters(vs)[1..])
    ensures var ws := vs[0 := Rest(vs[0])];
      Typed(p, At(CollectAll(p, Parameters(vs)[1..]), p.escapeOffset + |Parameters(ws)|), ws)
    decreases |vs|, 0
  {
    hide CollectByte, CollectAll, Numeral, ParameterBytes, AfterSeparator, Beginning;
    var front, v := vs[..|vs| - 1], vs[|vs| - 1];
    CollectSeparated(p, front);
    NumeralBytes(v);
    var fs := front[0 := Rest(vs[0])];
    CollectLast(p, Parameters(front)[1..], 0x3b);
    CollectConcat(p, Parameters(front)[1..] + [0x3b], Numeral(10, v));
    assert Parameters(vs)[1..] == Parameters(front)[1..] + [0x3b] + Numeral(10, v);
    NextTyped(p, fs, v, |Parameters(front)|);
    assert fs + [v] == vs[0 := Rest(vs[0])];
  }

  lemma NextTyped(p: Parser, vs: seq<u32>, v: u32, n: nat)
    requires Beginning(p) && |vs| >= 1
    ensures ParameterBytes(Numeral(10, v))
    ensures Typed(p, At(CollectAll(AfterSeparator(p, vs, n), Numeral(10, v)), p.escapeOffset + |Parameters(vs + [v])|),
      vs + [v])
  {
    hide CollectAll, Numeral, ParameterBytes, Parameters, ReadValues;
    var r := AfterSeparator(p, vs, |Parameters(vs)| + 1);
    CollectNext(p, r, vs, v);
    OffsetFree(r, p.escapeOffset + n, Numeral(10, v));
    assert AfterSeparator(p, vs, n) == At(r, p.escapeOffset + n);
  }

  lemma SeparatorTyped(p: Parser, bytes: seq<byte>, vs: seq<u32>)
    requires Beginning(p) && |vs| >= 1 && ParameterBytes(bytes)
    requires Typed(p, At(CollectAll(p, bytes), p.escapeOffset + |Parameters(vs)|), vs)
    ensures CollectByte(CollectAll(p, bytes), 0x3b) == AfterSeparator(p, vs, |bytes| + 1)
  {
    hide CollectAll, CollectByte, ParameterBytes, Parameters, ReadValues;
    OffsetFree(p, p.escapeOffset, bytes);
    var q := CollectAll(p, bytes);
    assert q.escapeOffset == p.escapeOffset + |bytes|;
    var r := At(q, p.escapeOffset + |Parameters(vs)|);
    CollectSeparator(p, r, vs);
    OffsetStep(r, q.escapeOffset, 0x3b);
  }

  /** A list without its first byte, and the end of the sequence. */
  lemma CollectEnded(p: Parser, vs: seq<u32>, c: byte)
    requires AtRest(p) && |vs| >= 1
    ensures |Parameters(vs)| >= 1 && ParameterBytes(Parameters(vs)[1..])
    ensures var q := CollectAll(Introduced(p), Parameters(vs)[1..]);
      WithDefaults(EndValue(At(q, q.escapeOffset + 1)), c) == At(Parsed(p, Remaining(vs), c), 1 + |Parameters(vs)|)
  {
    hide CollectAll, ParameterBytes, Remaining, Parsed, Introduced, Beginning, EndValue, WithDefaults, Parameters, At,
      Typed;
    var i, ws := Introduced(p), Remaining(vs);
    IntroducedBegins(p);
    RemainingTyped(i, vs);
    var bytes := Parameters(vs)[1..];
    var q := CollectAll(i, bytes);
    OffsetCounts(i, bytes);
    CompleteAt(p, q, 1 + |Parameters(ws)|, ws, c);
    OffsetKept(q, 1 + |Parameters(ws)|, c);
  }

  lemma OffsetCounts(p: Parser, bytes: seq<byte>)
    requires ParameterBytes(bytes)
    ensures CollectAll(p, bytes).escapeOffset == p.escapeOffset + |bytes|
  {
    hide CollectAll, ParameterBytes;
    OffsetFree(p, p.escapeOffset, bytes);
  }

  lemma CompleteAt(p: Parser, q: Parser, k: nat, vs: seq<u32>, c: byte)
    requires Typed(Introduced(p), At(q, k), vs)
    ensures WithDefaults(EndValue(At(q, k + 1)), c) == Parsed(p, vs, c)
  {
    hide Typed, Parsed, EndValue, WithDefaults;
    CompleteValues(p, At(q, k), vs, c);
  }

  lemma IntroducedBegins(p: Parser)
    requires AtRest(p)
    ensures Beginning(Introduced(p)) && Introduced(p).escapeOffset == 1
  {
    assert Introduced(p).values == ReadValues([], 0);
  }

  lemma OffsetKept(q: Parser, k: nat, c: byte)
    ensures WithDefaults(EndValue(At(q, q.escapeOffset + 1)), c) ==
      At(WithDefaults(EndValue(At(q, k + 1)), c), q.escapeOffset + 1)
  {
  }

  lemma RemainingTyped(p: Parser, vs: seq<u32>)
    requires Beginning(p) && |vs| >= 1
    ensures |Parameters(vs)| >= 1 && ParameterBytes(Parameters(vs)[1..])
    ensures var ws := Remaining(vs);
      Typed(p, At(CollectAll(p, Parameters(vs)[1..]), p.escapeOffset + |Parameters(ws)|), ws)
  {
    hide CollectAll, ParameterBytes, Typed, Rest, Beginning;
    CollectSeparated(p, vs);
    if |vs| > 1 {
      CollectMore(p, vs);
    } else if vs[0] < 10 {
      assert Parameters(vs)[1..] == [];
      CollectNothing(p);
      OffsetSame(p);
      NothingTyped(p);
    } else {
      RestTyped(p, vs[0]);
      assert vs[0 := Rest(vs[0])] == [Rest(vs[0])];
      assert Parameters([Rest(vs[0])]) == Numeral(10, Rest(vs[0]));
    }
  }

  lemma OffsetSame(p: Parser)
    ensures At(p, p.escapeOffset) == p
  {
  }

  lemma NothingTyped(p: Parser)
    requires Beginning(p)
    ensures Typed(p, p, [])
  {
    TypedNone(p);
  }

  lemma RestTyped(p: Parser, v: u32)
    requires Beginning(p) && v >= 10
    ensures |Numeral(10, v)| >= 1 && ParameterBytes(Numeral(10, v)[1..])
    ensures Typed(p, At(CollectAll(p, Numeral(10, v)[1..]), p.escapeOffset + |Numeral(10, Rest(v))|), [Rest(v)])
  {
    hide CollectAll, ParameterBytes, Typed, Rest, Numeral;
    CollectRest(p, v);
    TypedOne(p, Rest(v));
    assert At(CollectAll(p, Numeral(10, v)[1..]), p.escapeOffset + |Numeral(10, Rest(v))|) ==
      AfterDigits(p, Rest(v), |Numeral(10, Rest(v))|);
  }

  lemma ParsedPrivate(p: Parser, vs: seq<u32>, c: byte)
    ensures Parsed(p, vs, c).decPrivate == p.decPrivate
  {
  }

  /** Any list of parameters behind 0x9B and before a final byte reaches its control function without its first
      byte. */
  lemma EightBitRead(cfg: Config, t: Term, vs: seq<u32>, c: byte)
    requires Idle(t.parser) && |vs| >= 1 && IsFinal(c)
    ensures PutAll(cfg, t, [0x9b] + (Parameters(vs) + [c])) ==
      Finish(Control(cfg, WithParser(t, At(Parsed(t.parser, Remaining(vs), c), 1 + |Parameters(vs)|)), c))
  {
    hide PutAll, PutChar, Control, Finish, Parameters, CollectAll, WithDefaults, WithParser, EndValue, Parsed,
      Remaining;
    var i, all := Introduced(t.parser), Parameters(vs);
    CollectEnded(t.parser, vs, c);
    assert i.values == ReadValues([], 0);
    CollectParameters(i, vs);
    var bytes := all[1..];
    assert all + [c] == [all[0]] + (bytes + [c]);
    EightBitSequence(cfg, t, all[0], bytes + [c]);
    PutIntroducer(cfg, t);
    PutParameters(cfg, WithParser(t, i), bytes);
    var q := CollectAll(i, bytes);
    WithParserTwice(t, i, q);
    PutAllConcat(cfg, t, [0x1b, 0x5b], bytes);
    PutLast(cfg, t, [0x1b, 0x5b] + bytes, c);
    assert [0x1b, 0x5b] + bytes + [c] == [0x1b, 0x5b] + (bytes + [c]);
    PutFinal(cfg, WithParser(t, q), c);
    var r := WithDefaults(EndValue(At(q, q.escapeOffset + 1)), c);
    WithParserTwice(t, q, r);
    assert !r.decPrivate by { ParsedPrivate(t.parser, Remaining(vs), c); }
  }

  /** It finds its parameters as they were written exactly if there are several and the first is zero. The
      values, which is all that most functions look at, are the same also if a single digit that is lost is the
      default. */
  lemma EightBitMeetsStandard(p: Parser, vs: seq<u32>, c: byte)
    requires |vs| >= 1
    ensures var found, written := Parsed(p, Remaining(vs), c), Parsed(p, vs, c);
      && (found.values == written.values && found.count == written.count <==> |vs| >= 2 && vs[0] == 0)
      && (found.values == written.values <==> (|vs| >= 2 && vs[0] == 0) || vs == [DefaultValue(c)])
  {
    var ws, found, written := Remaining(vs), Parsed(p, Remaining(vs), c), Parsed(p, vs, c);
    assert written.values[0] == vs[0];
    assert DefaultValue(c) < 10;
    if |vs| == 1 && vs[0] < 10 {
      assert found.values[0] == DefaultValue(c);
      assert vs[0] == DefaultValue(c) ==> found.values == written.values;
      assert vs == [vs[0]];
    } else {
      assert found.values[0] == Rest(vs[0]);
      assert Rest(vs[0]) == vs[0] ==> ws == vs;
    }
  }

  /** In that case the whole sequence does what it does behind `ESC [`, but for the count of bytes. */
  lemma EightBitAlike(cfg: Config, t: Term, vs: seq<u32>, c: byte)
    requires Idle(t.parser) && |vs| >= 2 && vs[0] == 0 && IsFinal(c)
    ensures var r := PutAll(cfg, t, Csi(vs, c));
      PutAll(cfg, t, [0x9b] + (Parameters(vs) + [c])) == WithParser(r, At(r.parser, 1 + |Parameters(vs)|))
  {
    hide PutAll, Control, Finish, Parameters, Parsed, WithParser, At;
    EightBitRead(cfg, t, vs, c);
    ControlSequenceRoundTrip(cfg, t, vs, c);
    assert Remaining(vs) == vs;
    var u := WithParser(t, Parsed(t.parser, vs, c));
    WithParserTwice(t, u.parser, At(u.parser, 1 + |Parameters(vs)|));
    ControlOffset(cfg, u, 1 + |Parameters(vs)|, c);
    FinishOffset(Control(cfg, u, c), 1 + |Parameters(vs)|);
  }

  lemma ControlOffset(cfg: Config, t: Term, k: nat, c: byte)
    ensures var r := Control(cfg, t, c);
      Control(cfg, WithParser(t, At(t.parser, k)), c) == WithParser(r, At(r.parser, k))
  {
    hide ScreenFunction, SelectRendition, WithPen, PenOf, TermOk, SetCursor, SaveCursorTerm, Mode, WithScreen,
      WithParser, At;
    ScreenOffset(t, k, c);
    StateOffset(t, k, c);
    PenOffset(t, SelectRendition(cfg.palette, cfg.table, PenOf(t), t.parser.values[..t.parser.count]), k);
  }

  lemma StateOffset(t: Term, k: nat, c: byte)
    ensures var u, r := WithParser(t, At(t.parser, k)), SaveCursorTerm(t);
      SaveCursorTerm(u) == WithParser(r, At(r.parser, k))
    ensures var u, r := WithParser(t, At(t.parser, k)), Mode(t, c);
      Mode(u, c) == WithParser(r, At(r.parser, k))
    ensures var u, r := WithParser(t, At(t.parser, k)), RecallCursor(t);
      RecallCursor(u) == WithParser(r, At(r.parser, k))
  {
    hide TermOk;
  }

  /** `CSI u` */
  function RecallCursor(t: Term): Term {
    WithScreen(t, SetCursor(t.screen, ToU64(t.savedX), ToU64(t.savedY)))
  }

  lemma PenOffset(t: Term, pen: Pen, k: nat)
    ensures var u, r := WithParser(t, At(t.parser, k)), WithPen(t, pen);
      PenOf(u) == PenOf(t) && WithPen(u, pen) == WithParser(r, At(r.parser, k))
  {
    hide TermOk;
  }

  lemma ScreenOffset(t: Term, k: nat, c: byte)
    ensures var r := ScreenFunction(t, c);
      ScreenFunction(WithParser(t, At(t.parser, k)), c) == WithParser(r, At(r.parser, k))
  {
    hide TermOk, OnScreen, ClampedValues;
  }

  lemma FinishOffset(t: Term, k: nat)
    ensures var r := Finish(t);
      Finish(WithParser(t, At(t.parser, k))) == WithParser(r, At(r.parser, k))
  {
  }

  /** One digit: the sequence is read as if it had no parameter. */
  lemma EightBitOneDigit(cfg: Config, t: Term, v: u32, c: byte)
    requires Idle(t.parser) && v < 10 && IsFinal(c)
    ensures PutAll(cfg, t, [0x9b] + (Parameters([v]) + [c])) == PutAll(cfg, t, Csi([], c))
  {
    hide PutAll;
    assert Parameters([v]) == [DigitByte(v)];
    EightBitSequence(cfg, t, DigitByte(v), [c]);
    assert Csi([], c) == [0x1b, 0x5b] + [c];
  }

  /** One without parameters is not carried out at all: its final byte is the byte swallowed. */
  lemma EightBitNoParameter(cfg: Config, t: Term, c: byte)
    requires Idle(t.parser) && IsFinal(c)
    ensures PutAll(cfg, t, [0x9b, c]) == WithParser(t, Introduced(t.parser))
  {
    hide PutAll;
    EightBitIntroducer(cfg, t, c);
    PutIntroducer(cfg, t);
  }

  // ---- Operating system commands

  /** Inside a command, outside any UTF-8 sequence. */
  predicate InCommand(p: Parser) {
    p.escape && p.osc && !p.discardNext && p.unicodeRemaining == 0
  }

  /** `ESC ]` begins one. */
  lemma CommandBegins(cfg: Config, t: Term)
    requires AtRest(t.parser)
    ensures var r := PutAll(cfg, t, [0x1b, 0x5d]);
      && r == WithParser(t, r.parser) && InCommand(r.parser) && !r.parser.oscEscape
      && r.parser == t.parser.(escape := true, osc := true, oscEscape := false, escapeOffset := 1)
  {
    hide TermOk, WriteCodePoint, ControlSequence, EscapeFunction, WriteByte, OscByte, LeadByte, ContinuationByte,
      Cancelled,
      SelectCharset, BeginControlSequence;
    assert [0x1b, 0x5d] == [0x1b] + [0x5d];
    PutLast(cfg, t, [0x1b], 0x5d);
    PutOne(cfg, t, 0x1b);
    var u := PutChar(cfg, t, 0x1b);
    assert u == WithParser(t, BeginEscape(t.parser, false));
    assert PutChar(cfg, u, 0x5d) == EscapeByte(cfg, u, 0x5d);
  }

  /** Bytes that neither end a command nor belong to a character outside ASCII. */
  predicate CommandByte(c: byte) {
    Ordinary(c) && c != 0x07 && c != 0x1b
  }

  lemma CommandStep(cfg: Config, t: Term, c: byte)
    requires InCommand(t.parser) && !t.parser.oscEscape && CommandByte(c)
    ensures var r := PutChar(cfg, t, c);
      r == WithParser(t, At(t.parser, r.parser.escapeOffset))
  {
    hide TermOk, WriteCodePoint, ControlSequence, EscapeFunction, WriteByte, BeginControlSequence, LeadByte,
      ContinuationByte,
      Cancelled, ControlByte, SelectCharset;
    assert PutChar(cfg, t, c) == EscapeByte(cfg, t, c);
    var v := CountByte(t);
    assert EscapeByte(cfg, t, c) == WithParser(v, OscByte(v.parser, c));
    WithParserTwice(t, v.parser, OscByte(v.parser, c));
  }

  /** Such contents leave everything but the count of bytes alone, and the command goes on. */
  lemma {:induction false} CommandContents(cfg: Config, t: Term, buf: seq<byte>)
    requires InCommand(t.parser) && !t.parser.oscEscape && forall i :: 0 <= i < |buf| ==> CommandByte(buf[i])
    ensures var r := PutAll(cfg, t, buf);
      r == WithParser(t, At(t.parser, r.parser.escapeOffset))
  {
    hide PutChar, CommandByte, InCommand, TermOk, WithParser, At;
    if |buf| == 0 {
      SameParserSame(t);
      OffsetSame(t.parser);
    } else {
      CommandContents(cfg, t, buf[..|buf| - 1]);
      var u := PutAll(cfg, t, buf[..|buf| - 1]);
      CommandElsewhere(t.parser, u.parser.escapeOffset);
      CommandStep(cfg, u, buf[|buf| - 1]);
      var k := PutChar(cfg, u, buf[|buf| - 1]).parser.escapeOffset;
      AtTwice(t.parser, u.parser.escapeOffset, k);
      WithParserTwice(t, u.parser, At(t.parser, k));
    }
  }

  lemma CommandElsewhere(p: Parser, k: nat)
    requires InCommand(p) && !p.oscEscape
    ensures InCommand(At(p, k)) && !At(p, k).oscEscape
  {
  }

  lemma AtTwice(p: Parser, j: nat, k: nat)
    ensures At(At(p, j), k) == At(p, k)
  {
  }

  lemma SameParserSame(t: Term)
    ensures WithParser(t, t.parser) == t
  {
  }

  /** BEL ends a command, and so does a backslash right behind ESC; nothing else does behind ESC. */
  lemma CommandEnds(cfg: Config, t: Term, c: byte)
    requires InCommand(t.parser) && Ordinary(c)
    ensures var r := PutChar(cfg, t, c);
      && r == WithParser(t, r.parser)
      && (r.parser.osc <==> !(c == 0x07 || (t.parser.oscEscape && c == 0x5c)))
      && r.parser == t.parser.(osc := r.parser.osc, escape := r.parser.osc, oscEscape := r.parser.osc && c == 0x1b,
        escapeOffset := r.parser.escapeOffset)
  {
    hide TermOk, WriteCodePoint, ControlSequence, EscapeFunction, WriteByte, BeginControlSequence, LeadByte,
      ContinuationByte, Cancelled, ControlByte, SelectCharset;
    assert PutChar(cfg, t, c) == EscapeByte(cfg, t, c);
    var v := CountByte(t);
    assert EscapeByte(cfg, t, c) == WithParser(v, OscByte(v.parser, c));
    WithParserTwice(t, v.parser, OscByte(v.parser, c));
  }

  /** `ESC ]`, such contents, and BEL or `ESC \` are as if they had not been there. */
  lemma CommandIgnored(cfg: Config, t: Term, buf: seq<byte>)
    requires Idle(t.parser) && forall i :: 0 <= i < |buf| ==> CommandByte(buf[i])
    ensures var r := PutAll(cfg, t, [0x1b, 0x5d] + buf + [0x07]);
      r == WithParser(t, r.parser) && Idle(r.parser)
    ensures var r := PutAll(cfg, t, [0x1b, 0x5d] + buf + [0x1b, 0x5c]);
      r == WithParser(t, r.parser) && Idle(r.parser)
  {
    hide PutAll, PutChar, TermOk, CommandByte, WithParser;
    CommandBegins(cfg, t);
    var u := PutAll(cfg, t, [0x1b, 0x5d]);
    CommandContents(cfg, u, buf);
    PutAllConcat(cfg, t, [0x1b, 0x5d], buf);
    var v := PutAll(cfg, u, buf);
    CommandElsewhere(u.parser, v.parser.escapeOffset);
    WithParserTwice(t, u.parser, v.parser);
    PutLast(cfg, t, [0x1b, 0x5d] + buf, 0x07);
    CommandEnds(cfg, v, 0x07);
    WithParserTwice(t, v.parser, PutChar(cfg, v, 0x07).parser);
    CommandEnds(cfg, v, 0x1b);
    var w := PutChar(cfg, v, 0x1b);
    WithParserTwice(t, v.parser, w.parser);
    PutLast(cfg, t, [0x1b, 0x5d] + buf, 0x1b);
    PutLast(cfg, t, [0x1b, 0x5d] + buf + [0x1b], 0x5c);
    assert [0x1b, 0x5d] + buf + [0x1b] + [0x5c] == [0x1b, 0x5d] + buf + [0x1b, 0x5c];
    CommandEnds(cfg, w, 0x5c);
    WithParserTwice(t, w.parser, PutChar(cfg, w, 0x5c).parser);
  }

  /** A character outside ASCII in a command is written to the screen as if the command were not there. */
  lemma CommandCharacterShows(cfg: Config, t: Term, cp: nat)
    requires InCommand(t.parser) && 0x80 <= cp < 0x11_0000
    ensures var r := PutAll(cfg, t, Utf8(cp));
      r.screen == WriteCodePoint(cfg, t.screen, cp) && InCommand(r.parser)
  {
    hide PutAll, Utf8, WriteCodePoint;
    Utf8RoundTrip(cfg, t, cp);
  }

  /** So with three columns or more a character leaves the screen alone exactly if it has neither a glyph nor a
      width; one without them always does. */
  lemma CommandCharacterSilent(cfg: Config, t: Term, cp: nat)
    requires InCommand(t.parser) && 0x80 <= cp < 0x11_0000
    ensures var silent := cfg.codePage(cp) == None && Width(cfg.combining, cp) == 0;
      && (silent ==> PutAll(cfg, t, Utf8(cp)).screen == t.screen)
      && (t.screen.cols >= 3 ==> (PutAll(cfg, t, Utf8(cp)).screen == t.screen <==> silent))
  {
    hide PutAll, Utf8, WriteCodePoint, Width;
    CommandCharacterShows(cfg, t, cp);
    assert t.screen.scrollEnabled && t.screen.cursorX <= t.screen.cols;
    if cfg.codePage(cp).Some? {
      GlyphMovesOn(cfg, t.screen, cp);
    } else {
      BoxMovesOn(cfg, t.screen, cp);
    }
  }

  lemma GlyphMovesOn(cfg: Config, s: Screen, cp: nat)
    requires s.scrollEnabled && s.cursorX <= s.cols && cfg.codePage(cp).Some?
    ensures s.cols >= 2 ==> WriteCodePoint(cfg, s, cp).cursorX != s.cursorX
  {
    hide RawPuts, RawPut;
    var glyph := cfg.codePage(cp).value;
    CursorMovesOn(s, glyph);
    OnePut(s, glyph);
  }

  lemma BoxMovesOn(cfg: Config, s: Screen, cp: nat)
    requires s.scrollEnabled && s.cursorX <= s.cols && cfg.codePage(cp) == None && cp < 0x11_0000
    ensures Width(cfg.combining, cp) == 0 ==> WriteCodePoint(cfg, s, cp) == s
    ensures Width(cfg.combining, cp) > 0 && s.cols >= 3 ==> WriteCodePoint(cfg, s, cp).cursorX != s.cursorX
  {
    hide RawPuts, RawPut, InTable, Wide;
    assert ToU32(cp) == cp;
    assert Width(cfg.combining, cp) <= 2;
    hide Width;
    CursorMovesOn(s, 0xfe);
    OnePut(s, 0xfe);
    var t := RawPut(s, 0xfe);
    CursorMovesOn(t, SPACE);
    OnePut(t, SPACE);
    NoWrites(t, SPACE);
  }

  lemma CursorMovesOn(s: Screen, c: byte)
    requires s.scrollEnabled
    ensures RawPut(s, c).cursorX == (if s.cursorX >= s.cols then 1 else s.cursorX + 1) && RawPut(s, c).scrollEnabled
      && RawPut(s, c).cols == s.cols
  {
  }
}
