/** Round trips: parameters of control sequences, and UTF-8. */
module SequenceLaws {
  import opened Basics
  import opened Screens
  import opened Terminals
  import opened Numerals
  import opened ParserLaws

  // ---- Control sequence parameters

  /** The parameters of a control sequence as ECMA-48 writes them: decimal, separated by semicolons. */
  function Parameters(vs: seq<u32>): seq<byte> {
    if |vs| == 0 then []
    else if |vs| == 1 then Numeral(10, vs[0])
    else Parameters(vs[..|vs| - 1]) + [0x3b] + Numeral(10, vs[|vs| - 1])
  }

  function MinValues(n: nat): nat {
    if n < MAX_VALUES then n else MAX_VALUES
  }

  /** The first sixteen parameters, and `d` for those not given. */
  function ReadValues(vs: seq<u32>, d: u32): (r: seq<u32>)
    ensures |r| == MAX_VALUES
  {
    seq(MAX_VALUES, i requires 0 <= i < MAX_VALUES => if i < |vs| then vs[i] else d)
  }

  /** Reading parameters, nothing typed of the current one. */
  predicate Reading(p: Parser) {
    p.escape && p.controlSequence && !p.osc && !p.discardNext && p.unicodeRemaining == 0 && !p.rrr
      && p.escapeOffset >= 1
  }

  /** The bytes of a parameter list reach the parser one after the other. */
  function CollectByte(p: Parser, c: byte): Parser
    requires 0x30 <= c <= 0x39 || c == 0x3b
  {
    Collect(p.(escapeOffset := p.escapeOffset + 1), c)
  }

  predicate ParameterBytes(bytes: seq<byte>) {
    forall i :: 0 <= i < |bytes| ==> 0x30 <= bytes[i] <= 0x39 || bytes[i] == 0x3b
  }

  function CollectAll(p: Parser, bytes: seq<byte>): Parser
    requires ParameterBytes(bytes)
  {
    if |bytes| == 0 then p else CollectByte(CollectAll(p, bytes[..|bytes| - 1]), bytes[|bytes| - 1])
  }

  /** States in which a parameter byte is collected. */
  predicate InSequence(p: Parser) {
    p.escape && p.controlSequence && !p.osc && !p.discardNext && p.unicodeRemaining == 0
  }

  lemma PutParameterByte(cfg: Config, t: Term, c: byte)
    requires InSequence(t.parser) && (0x30 <= c <= 0x39 || c == 0x3b)
    ensures PutChar(cfg, t, c) == WithParser(t, CollectByte(t.parser, c)) && InSequence(CollectByte(t.parser, c))
  {
    hide TermOk, WithParser, WithScreen, Dispatch, EndValue, EscapeFunction, Collect, BeginControlSequence, OscByte,
      LeadByte,
      ControlByte, SelectCharset, WriteByte, WriteCodePoint, ContinuationByte, Cancelled;
    WithParserTwice(t, t.parser.(escapeOffset := t.parser.escapeOffset + 1), CollectByte(t.parser, c));
    CollectStays(t.parser.(escapeOffset := t.parser.escapeOffset + 1), c);
    var u := WithParser(t, t.parser.(escapeOffset := t.parser.escapeOffset + 1));
    assert FreshByte(cfg, t, c) == EscapeByte(cfg, t, c);
    assert EscapeByte(cfg, t, c) == ControlSequence(cfg, u, c);
  }

  lemma CollectStays(p: Parser, c: byte)
    requires InSequence(p) && (0x30 <= c <= 0x39 || c == 0x3b)
    ensures InSequence(Collect(p, c))
  {
  }

  lemma {:induction false} PutParameters(cfg: Config, t: Term, bytes: seq<byte>)
    requires InSequence(t.parser) && ParameterBytes(bytes)
    ensures PutAll(cfg, t, bytes) == WithParser(t, CollectAll(t.parser, bytes))
      && InSequence(CollectAll(t.parser, bytes))
  {
    hide PutChar, CollectByte;
    if |bytes| > 0 {
      PutParameters(cfg, t, bytes[..|bytes| - 1]);
      PutParameterByte(cfg, PutAll(cfg, t, bytes[..|bytes| - 1]), bytes[|bytes| - 1]);
    }
  }

  lemma {:induction false} CollectConcat(p: Parser, a: seq<byte>, b: seq<byte>)
    requires ParameterBytes(a) && ParameterBytes(b)
    ensures ParameterBytes(a + b)
    ensures CollectAll(p, a + b) == CollectAll(CollectAll(p, a), b)
  {
    hide CollectByte;
    if |b| == 0 {
      assert a + b == a;
    } else {
      var ab := a + b;
      assert ab[..|ab| - 1] == a + b[..|b| - 1];
      CollectConcat(p, a, b[..|b| - 1]);
    }
  }

  lemma NumeralBytes(v: nat)
    ensures ParameterBytes(Numeral(10, v))
  {
    hide Numeral;
    NumeralCanonical(10, v);
    forall i | 0 <= i < |Numeral(10, v)| ensures 0x30 <= Numeral(10, v)[i] <= 0x39 {
      assert IsDigit(10, Numeral(10, v)[i]);
    }
  }

  lemma CollectLast(p: Parser, front: seq<byte>, c: byte)
    requires ParameterBytes(front) && (0x30 <= c <= 0x39 || c == 0x3b)
    ensures ParameterBytes(front + [c])
    ensures CollectAll(p, front + [c]) == CollectByte(CollectAll(p, front), c)
  {
    hide CollectByte;
    assert (front + [c])[..|front|] == front;
  }

  /** The parser after `n` digits that make the current parameter `v`. */
  function AfterDigits(p: Parser, v: u32, n: nat): Parser
    requires p.count < MAX_VALUES
  {
    p.(rrr := true, values := p.values[p.count := v], escapeOffset := p.escapeOffset + n)
  }

  lemma NextDigit(p: Parser, v: u32, n: nat, d: nat)
    requires p.escapeOffset >= 1 && p.count < MAX_VALUES && d < 10 && v * 10 + d < U32_LIMIT
    ensures CollectByte(AfterDigits(p, v, n), DigitByte(d)) == AfterDigits(p, v * 10 + d, n + 1)
  {
    hide CollectByte;
    CollectDigit(AfterDigits(p, v, n), v, d);
    assert p.values[p.count := v][p.count := v * 10 + d] == p.values[p.count := v * 10 + d];
  }

  lemma FirstDigit(p: Parser, d: nat)
    requires p.escapeOffset >= 1 && p.count < MAX_VALUES && p.values[p.count] == 0 && d < 10
    ensures CollectByte(p, DigitByte(d)) == AfterDigits(p, d, 1)
  {
    hide CollectByte;
    CollectDigit(p, 0, d);
  }

  /** Decimal digits collected into the current parameter. */
  lemma {:induction false} CollectNumeral(p: Parser, v: u32)
    requires p.escapeOffset >= 1 && p.count < MAX_VALUES && p.values[p.count] == 0
    ensures ParameterBytes(Numeral(10, v))
    ensures CollectAll(p, Numeral(10, v)) == AfterDigits(p, v, |Numeral(10, v)|)
    decreases v
  {
    hide CollectByte, CollectAll, ParameterBytes, AfterDigits;
    NumeralBytes(v);
    if v < 10 {
      CollectNothing(p);
      CollectLast(p, [], DigitByte(v));
      assert [] + [DigitByte(v)] == [DigitByte(v)];
      FirstDigit(p, v);
    } else {
      Quotient(v, 10);
      NumeralBytes(v / 10);
      CollectNumeral(p, v / 10);
      CollectLast(p, Numeral(10, v / 10), DigitByte(v % 10));
      NextDigit(p, v / 10, |Numeral(10, v / 10)|, v % 10);
    }
  }

  lemma CollectNothing(p: Parser)
    ensures ParameterBytes([]) && CollectAll(p, []) == p
  {
  }

  lemma CollectDigit(p: Parser, v: u32, d: nat)
    requires p.escapeOffset >= 1 && p.count < MAX_VALUES && p.values[p.count] == v && d < 10 && v * 10 + d < U32_LIMIT
    ensures CollectByte(p, DigitByte(d)) ==
      p.(rrr := true, values := p.values[p.count := v * 10 + d], escapeOffset := p.escapeOffset + 1)
  {
    assert AppendDigit(v, d) == v * 10 + d;
    hide AppendDigit;
    assert Collects(p.(escapeOffset := p.escapeOffset + 1), DigitByte(d));
  }

  /** The parser after `n` bytes that it drops. */
  function AfterDropped(p: Parser, n: nat): Parser {
    p.(escapeOffset := p.escapeOffset + n)
  }

  /** Past the sixteenth parameter digits are dropped. */
  lemma {:induction false} CollectDropped(p: Parser, v: u32)
    requires p.escapeOffset >= 1 && p.count == MAX_VALUES
    ensures ParameterBytes(Numeral(10, v))
    ensures CollectAll(p, Numeral(10, v)) == AfterDropped(p, |Numeral(10, v)|)
    decreases v
  {
    hide CollectByte, CollectAll, ParameterBytes, AfterDropped;
    NumeralBytes(v);
    if v < 10 {
      CollectNothing(p);
      CollectLast(p, [], DigitByte(v));
      assert [] + [DigitByte(v)] == [DigitByte(v)];
      DropDigit(p, 0, v);
      DropNothing(p);
    } else {
      Quotient(v, 10);
      NumeralBytes(v / 10);
      CollectDropped(p, v / 10);
      CollectLast(p, Numeral(10, v / 10), DigitByte(v % 10));
      DropDigit(p, |Numeral(10, v / 10)|, v % 10);
    }
  }

  lemma DropDigit(p: Parser, n: nat, d: nat)
    requires p.escapeOffset >= 1 && p.count == MAX_VALUES && d < 10
    ensures CollectByte(AfterDropped(p, n), DigitByte(d)) == AfterDropped(p, n + 1)
  {
  }

  lemma DropNothing(p: Parser)
    ensures AfterDropped(p, 0) == p
  {
  }

  /** The parser after a list of parameters, the last one still open for more digits. */
  predicate Typed(p: Parser, q: Parser, vs: seq<u32>) {
    && q == p.(rrr := q.rrr, count := q.count, values := q.values, escapeOffset := q.escapeOffset)
    && q.values == ReadValues(vs, 0)
    && q.count + (if q.rrr then 1 else 0) == MinValues(|vs|)
    && (q.rrr <==> 1 <= |vs| <= MAX_VALUES)
    && q.escapeOffset == p.escapeOffset + |Parameters(vs)|
  }

  lemma {:induction false} CollectParameters(p: Parser, vs: seq<u32>)
    requires Reading(p) && p.count == 0 && p.values == ReadValues([], 0)
    ensures ParameterBytes(Parameters(vs))
    ensures Typed(p, CollectAll(p, Parameters(vs)), vs)
  {
    hide CollectByte, Numeral, CollectAll, Typed, ParameterBytes;
    if |vs| == 0 {
      CollectNothing(p);
      TypedNone(p);
    } else if |vs| == 1 {
      assert vs == [vs[0]];
      CollectNumeral(p, vs[0]);
      TypedOne(p, vs[0]);
    } else {
      var front, last := vs[..|vs| - 1], vs[|vs| - 1];
      CollectParameters(p, front);
      NumeralBytes(last);
      CollectLast(p, Parameters(front), 0x3b);
      CollectConcat(p, Parameters(front) + [0x3b], Numeral(10, last));
      CollectAnother(p, CollectAll(p, Parameters(front)), front, last);
      assert vs == front + [last];
    }
  }

  lemma TypedNone(p: Parser)
    requires Reading(p) && p.count == 0 && p.values == ReadValues([], 0)
    ensures Typed(p, p, [])
  {
  }

  lemma TypedOne(p: Parser, v: u32)
    requires Reading(p) && p.count == 0 && p.values == ReadValues([], 0)
    ensures Typed(p, AfterDigits(p, v, |Numeral(10, v)|), [v])
  {
    hide Numeral;
    assert p.values[0 := v] == ReadValues([v], 0);
  }

  /** A separator and one more parameter. */
  lemma CollectAnother(p: Parser, q: Parser, vs: seq<u32>, v: u32)
    requires |vs| >= 1 && p.escapeOffset >= 1 && Typed(p, q, vs) && ParameterBytes(Numeral(10, v))
    ensures Typed(p, CollectAll(CollectByte(q, 0x3b), Numeral(10, v)), vs + [v])
  {
    hide CollectByte, Numeral, CollectAll, ParameterBytes;
    CollectSeparator(p, q, vs);
    CollectNext(p, CollectByte(q, 0x3b), vs, v);
  }

  /** A semicolon completes the parameter. */
  lemma CollectSeparator(p: Parser, q: Parser, vs: seq<u32>)
    requires |vs| >= 1 && p.escapeOffset >= 1 && Typed(p, q, vs)
    ensures CollectByte(q, 0x3b) == q.(rrr := false, count := MinValues(|vs|), escapeOffset := q.escapeOffset + 1)
  {
  }

  lemma CollectNext(p: Parser, r: Parser, vs: seq<u32>, v: u32)
    requires |vs| >= 1 && p.escapeOffset >= 1
    requires r == p.(rrr := false, count := MinValues(|vs|), values := ReadValues(vs, 0),
      escapeOffset := p.escapeOffset + |Parameters(vs)| + 1)
    ensures ParameterBytes(Numeral(10, v))
    ensures Typed(p, CollectAll(r, Numeral(10, v)), vs + [v])
  {
    hide CollectByte, Numeral, CollectAll, ParameterBytes;
    assert (vs + [v])[..|vs|] == vs;
    assert |Parameters(vs + [v])| == |Parameters(vs)| + 1 + |Numeral(10, v)|;
    if |vs| < MAX_VALUES {
      CollectNumeral(r, v);
      TypeNext(p, r, vs, v);
    } else {
      CollectDropped(r, v);
      assert ReadValues(vs, 0) == ReadValues(vs + [v], 0);
    }
  }

  lemma TypeNext(p: Parser, r: Parser, vs: seq<u32>, v: u32)
    requires 1 <= |vs| < MAX_VALUES && |Parameters(vs + [v])| == |Parameters(vs)| + 1 + |Numeral(10, v)|
    requires r == p.(rrr := false, count := MinValues(|vs|), values := ReadValues(vs, 0),
      escapeOffset := p.escapeOffset + |Parameters(vs)| + 1)
    ensures Typed(p, AfterDigits(r, v, |Numeral(10, v)|), vs + [v])
  {
    hide Numeral, Parameters;
    assert ReadValues(vs, 0)[|vs| := v] == ReadValues(vs + [v], 0);
  }

  /** A state in which ESC starts an escape sequence. */
  predicate AtRest(p: Parser) {
    !p.escape && !p.csi && !p.controlSequence && !p.osc && !p.discardNext && p.unicodeRemaining == 0 && p.gSelect == 0
  }

  /** And no private sequence has left its mark. */
  predicate Idle(p: Parser) {
    AtRest(p) && !p.decPrivate
  }

  function Introduced(p: Parser): Parser {
    BeginControlSequence(p.(escapeOffset := 1, escape := true))
  }

  lemma PutIntroducer(cfg: Config, t: Term)
    requires AtRest(t.parser)
    ensures PutAll(cfg, t, [0x1b, 0x5b]) == WithParser(t, Introduced(t.parser))
  {
    hide TermOk, WellFormed, WriteCodePoint, ControlSequence, WriteByte;
    assert [0x1b, 0x5b] == [0x1b] + [0x5b];
    PutLast(cfg, t, [0x1b], 0x5b);
    PutOne(cfg, t, 0x1b);
    var u := PutChar(cfg, t, 0x1b);
    assert u == WithParser(t, BeginEscape(t.parser, false));
    assert PutChar(cfg, u, 0x5b) == EscapeByte(cfg, u, 0x5b);
  }

  /** The byte that ends a control sequence, other than the two with a meaning of their own in first place. */
  predicate IsFinal(c: byte) {
    0x40 <= c <= 0x7e && c != 0x5b
  }

  /** The parser that a control function finds: the parameters as they were written. */
  function Parsed(p: Parser, vs: seq<u32>, c: byte): Parser {
    Introduced(p).(count := MinValues(|vs|), values := ReadValues(vs, DefaultValue(c)),
      escapeOffset := 2 + |Parameters(vs)|)
  }

  lemma FinalByte(cfg: Config, t: Term, c: byte)
    requires InSequence(t.parser) && IsFinal(c)
    ensures var u := WithParser(t, t.parser.(escapeOffset := t.parser.escapeOffset + 1));
      PutChar(cfg, t, c) == Dispatch(cfg, WithParser(u, EndValue(u.parser)), c)
  {
    hide TermOk, WithParser, WithScreen, Dispatch, EndValue, EscapeFunction, Collect, BeginControlSequence, OscByte,
      LeadByte,
      ControlByte, SelectCharset, WriteByte, WriteCodePoint, ContinuationByte, Cancelled;
    var u := WithParser(t, t.parser.(escapeOffset := t.parser.escapeOffset + 1));
    assert FreshByte(cfg, t, c) == EscapeByte(cfg, t, c);
    assert EscapeByte(cfg, t, c) == ControlSequence(cfg, u, c);
  }

  /** The mark of a private sequence sends any function to the private ones. */
  function ControlOrPrivate(cfg: Config, t: Term, c: byte): Term {
    if t.parser.decPrivate then DecMode(t, c) else Control(cfg, t, c)
  }

  lemma PutFinal(cfg: Config, t: Term, c: byte)
    requires InSequence(t.parser) && IsFinal(c)
    ensures var p := t.parser.(escapeOffset := t.parser.escapeOffset + 1);
      PutChar(cfg, t, c) == Finish(ControlOrPrivate(cfg, WithParser(t, WithDefaults(EndValue(p), c)), c))
  {
    hide TermOk, WriteCodePoint, Control, DecMode, Finish, WithDefaults, EscapeFunction, WithParser, PutChar;
    var u := WithParser(t, t.parser.(escapeOffset := t.parser.escapeOffset + 1));
    FinalByte(cfg, t, c);
    var e := EndValue(u.parser);
    WithParserTwice(t, u.parser, e);
    WithParserTwice(t, e, WithDefaults(e, c));
    DefaultsKeepPrivate(e, c);
  }

  lemma DefaultsKeepPrivate(p: Parser, c: byte)
    ensures WithDefaults(p, c).decPrivate == p.decPrivate
  {
  }

  lemma CompleteValues(p: Parser, q: Parser, vs: seq<u32>, c: byte)
    requires Typed(Introduced(p), q, vs)
    ensures WithDefaults(EndValue(q.(escapeOffset := q.escapeOffset + 1)), c) == Parsed(p, vs, c)
  {
    assert FillValues(ReadValues(vs, 0), MinValues(|vs|), DefaultValue(c)) == ReadValues(vs, DefaultValue(c));
  }

  /** Any list of 32-bit parameters, written in decimal behind the introducer and before a final byte, is
      read as it was written: the first sixteen values, and the default for the others. It reaches its control
      function unless an earlier private sequence left its mark. */
  lemma SequenceRead(cfg: Config, t: Term, vs: seq<u32>, c: byte)
    requires AtRest(t.parser) && IsFinal(c)
    ensures PutAll(cfg, t, [0x1b, 0x5b] + Parameters(vs) + [c]) ==
      Finish(ControlOrPrivate(cfg, WithParser(t, Parsed(t.parser, vs, c)), c))
  {
    hide PutAll, PutChar, ControlOrPrivate, Finish, Parameters, CollectAll, WithDefaults, Typed, WithParser;
    var p := Introduced(t.parser);
    var bytes := Parameters(vs);
    PutIntroducer(cfg, t);
    var u := WithParser(t, p);
    assert p.values == ReadValues([], 0);
    CollectParameters(p, vs);
    PutParameters(cfg, u, bytes);
    var q := CollectAll(p, bytes);
    PutAllConcat(cfg, t, [0x1b, 0x5b], bytes);
    PutLast(cfg, t, [0x1b, 0x5b] + bytes, c);
    PutFinal(cfg, WithParser(u, q), c);
    CompleteValues(t.parser, q, vs, c);
    WithParserTwice(t, p, q);
    WithParserTwice(t, q, Parsed(t.parser, vs, c));
  }

  lemma ControlSequenceRoundTrip(cfg: Config, t: Term, vs: seq<u32>, c: byte)
    requires Idle(t.parser) && IsFinal(c)
    ensures PutAll(cfg, t, [0x1b, 0x5b] + Parameters(vs) + [c]) ==
      Finish(Control(cfg, WithParser(t, Parsed(t.parser, vs, c)), c))
  {
    hide PutAll, Control, Finish, Parameters;
    SequenceRead(cfg, t, vs, c);
  }

  // ---- CAN and SUB

  /** The parameters and the code point read so far, and the count of bytes. */
  predicate SameParameters(p: Parser, q: Parser) {
    && q.values == p.values && q.count == p.count && q.rrr == p.rrr
    && q.codePoint == p.codePoint && q.escapeOffset == p.escapeOffset && q.decPrivate == p.decPrivate
  }

  /** CAN and SUB abandon escape sequences and half-read characters in every state and change nothing else; the
      next sequence can follow, but the mark of a private sequence stays. */
  lemma CancelClears(cfg: Config, t: Term, c: byte)
    requires c == 0x18 || c == 0x1a
    ensures var r := PutChar(cfg, t, c);
      && r == WithParser(t, r.parser)
      && AtRest(r.parser) && !r.parser.oscEscape && (Idle(r.parser) <==> !t.parser.decPrivate)
      && SameParameters(t.parser, r.parser)
  {
    hide FreshByte, WriteCodePoint;
  }

  /** So after CAN or SUB any control sequence reaches its function exactly if the mark was not set. */
  lemma SequenceAfterCancel(cfg: Config, t: Term, cancel: byte, vs: seq<u32>, c: byte)
    requires (cancel == 0x18 || cancel == 0x1a) && IsFinal(c)
    ensures var p := Parsed(PutChar(cfg, t, cancel).parser, vs, c);
      PutAll(cfg, t, [cancel] + ([0x1b, 0x5b] + Parameters(vs) + [c])) ==
        Finish(if t.parser.decPrivate then DecMode(WithParser(t, p), c) else Control(cfg, WithParser(t, p), c))
  {
    hide PutAll, PutChar, Control, DecMode, Finish, Parameters, TermOk, WithParser;
    PutAllConcat(cfg, t, [cancel], [0x1b, 0x5b] + Parameters(vs) + [c]);
    PutOne(cfg, t, cancel);
    CancelClears(cfg, t, cancel);
    var r := PutChar(cfg, t, cancel);
    SequenceRead(cfg, r, vs, c);
    WithParserTwice(t, r.parser, Parsed(r.parser, vs, c));
  }

  /** `ESC [ ?` sets the mark. */
  lemma PrivateMark(cfg: Config, t: Term)
    requires AtRest(t.parser)
    ensures var r := PutAll(cfg, t, [0x1b, 0x5b, 0x3f]);
      && r == WithParser(t, r.parser) && r.parser.decPrivate
      && r.parser == Introduced(t.parser).(decPrivate := true, escapeOffset := 2)
  {
    hide TermOk, WriteCodePoint, ControlByte, SelectCharset, WriteByte, Dispatch, Cancelled, ContinuationByte, LeadByte,
      EscapeFunction, OscByte, BeginControlSequence, WithParser;
    assert [0x1b, 0x5b, 0x3f] == [0x1b, 0x5b] + [0x3f];
    PutLast(cfg, t, [0x1b, 0x5b], 0x3f);
    PutIntroducer(cfg, t);
    var u := WithParser(t, Introduced(t.parser));
    IntroducedReads(t.parser);
    var v := CountByte(u);
    assert PutChar(cfg, u, 0x3f) == EscapeByte(cfg, u, 0x3f);
    assert EscapeByte(cfg, u, 0x3f) == ControlSequence(cfg, v, 0x3f);
    assert ControlSequence(cfg, v, 0x3f) == WithParser(v, v.parser.(decPrivate := true));
    WithParserTwice(t, u.parser, v.parser);
    WithParserTwice(t, v.parser, v.parser.(decPrivate := true));
  }

  lemma IntroducedReads(p: Parser)
    requires AtRest(p)
    ensures InSequence(Introduced(p)) && Introduced(p).escapeOffset == 1
  {
  }

  lemma WithParserTwice(t: Term, p: Parser, q: Parser)
    ensures WithParser(WithParser(t, p), q) == WithParser(t, q)
  {
  }

  // ---- UTF-8

  /** The encoding of a code point outside ASCII (section 3 of RFC 3629). */
  function Utf8(cp: nat): seq<byte>
    requires 0x80 <= cp < 0x11_0000
  {
    if cp < 0x800 then [0xc0 + cp / 0x40, 0x80 + cp % 0x40]
    else if cp < 0x1_0000 then [0xe0 + cp / 0x1000, 0x80 + cp / 0x40 % 0x40, 0x80 + cp % 0x40]
    else [0xf0 + cp / 0x4_0000, 0x80 + cp / 0x1000 % 0x40, 0x80 + cp / 0x40 % 0x40, 0x80 + cp % 0x40]
  }

  function Utf8All(cps: seq<nat>): seq<byte>
    requires forall i :: 0 <= i < |cps| ==> 0x80 <= cps[i] < 0x11_0000
  {
    if |cps| == 0 then [] else Utf8All(cps[..|cps| - 1]) + Utf8(cps[|cps| - 1])
  }

  /** The code points written one after the other. */
  ghost function WriteAll(cfg: Config, s: Screen, cps: seq<nat>): Screen {
    if |cps| == 0 then s else WriteCodePoint(cfg, WriteAll(cfg, s, cps[..|cps| - 1]), cps[|cps| - 1])
  }

  predicate NothingPending(p: Parser) {
    !p.discardNext && p.unicodeRemaining == 0
  }

  function Awaiting(p: Parser, cp: nat, n: nat): Parser {
    p.(codePoint := cp, unicodeRemaining := n)
  }

  lemma PutLead(cfg: Config, t: Term, c: byte, cp: nat, n: nat)
    requires NothingPending(t.parser) && 0xc0 <= c <= 0xf7
    requires (c <= 0xdf && n == 1 && cp == c % 0x20 * 0x40) || (0xe0 <= c <= 0xef && n == 2 && cp == c % 0x10 * 0x1000)
      || (0xf0 <= c && n == 3 && cp == c % 8 * 0x4_0000)
    ensures PutChar(cfg, t, c) == WithParser(t, Awaiting(t.parser, cp, n))
  {
    hide TermOk, WellFormed, WriteCodePoint, EscapeByte, ControlByte, WriteByte, SelectCharset;
  }

  /** A code point with six more bits read while `n` bytes were awaited. */
  function WithBits(cp: nat, bits: nat, n: nat): nat
    requires n >= 1
  {
    cp + bits * Pow64(n - 1)
  }

  lemma PutContinuation(cfg: Config, t: Term, p: Parser, bits: nat, cp: nat, n: nat)
    requires !p.discardNext && 1 <= n && Aligned(cp, n) && bits < 0x40
    ensures var u, next := WithParser(t, Awaiting(p, cp, n)), WithBits(cp, bits, n);
      PutChar(cfg, u, 0x80 + bits) ==
        if n == 1 then WithScreen(WithParser(t, Awaiting(p, next, 0)), WriteCodePoint(cfg, t.screen, next))
        else WithParser(t, Awaiting(p, next, n - 1))
  {
    hide TermOk, WellFormed, WriteCodePoint, FreshByte, Pow64, BitOr, Aligned;
    var u := WithParser(t, Awaiting(p, cp, n));
    assert (0x80 + bits) / 0x40 == 2 && (0x80 + bits) % 0x40 == bits by { DivModUnique(2, 0x40, bits); }
    OrIsSum(u.parser, 0x80 + bits);
    assert ContinuationByte(u.parser, 0x80 + bits) == Awaiting(p, WithBits(cp, bits, n), n - 1);
    WithParserTwice(t, Awaiting(p, cp, n), Awaiting(p, WithBits(cp, bits, n), n - 1));
  }

  /** The digits of a code point in base 64. */
  lemma SixBits(cp: nat)
    requires cp < 0x11_0000
    ensures cp == cp / 0x40 * 0x40 + cp % 0x40
    ensures cp == cp / 0x1000 * 0x1000 + cp / 0x40 % 0x40 * 0x40 + cp % 0x40
    ensures cp == cp / 0x4_0000 * 0x4_0000 + cp / 0x1000 % 0x40 * 0x1000 + cp / 0x40 % 0x40 * 0x40 + cp % 0x40
  {
  }

  /** Continuation bytes on the way. */
  lemma PutMiddle(cfg: Config, t: Term, p: Parser, before: seq<byte>, bits: nat, cp: nat, n: nat)
    requires !p.discardNext && 2 <= n <= 3 && Aligned(cp, n) && bits < 0x40
    requires PutAll(cfg, t, before) == WithParser(t, Awaiting(p, cp, n))
    ensures PutAll(cfg, t, before + [0x80 + bits]) == WithParser(t, Awaiting(p, WithBits(cp, bits, n), n - 1))
  {
    hide PutAll, PutChar, WithParser, WithScreen, Awaiting, WriteCodePoint;
    PutLast(cfg, t, before, 0x80 + bits);
    PutContinuation(cfg, t, p, bits, cp, n);
  }

  lemma PutEnd(cfg: Config, t: Term, p: Parser, before: seq<byte>, bits: nat, cp: nat)
    requires !p.discardNext && Aligned(cp, 1) && bits < 0x40
    requires PutAll(cfg, t, before) == WithParser(t, Awaiting(p, cp, 1))
    ensures PutAll(cfg, t, before + [0x80 + bits]) ==
      WithScreen(WithParser(t, Awaiting(p, cp + bits, 0)), WriteCodePoint(cfg, t.screen, cp + bits))
  {
    hide PutAll, PutChar, WithParser, WithScreen, Awaiting, WriteCodePoint;
    PutLast(cfg, t, before, 0x80 + bits);
    PutContinuation(cfg, t, p, bits, cp, 1);
    assert Pow64(0) == 1;
  }

  lemma PutStart(cfg: Config, t: Term, c: byte, cp: nat, n: nat)
    requires NothingPending(t.parser) && 0xc0 <= c <= 0xf7
    requires (c <= 0xdf && n == 1 && cp == c % 0x20 * 0x40) || (0xe0 <= c <= 0xef && n == 2 && cp == c % 0x10 * 0x1000)
      || (0xf0 <= c && n == 3 && cp == c % 8 * 0x4_0000)
    ensures PutAll(cfg, t, [c]) == WithParser(t, Awaiting(t.parser, cp, n))
  {
    hide PutAll, PutChar, WithParser, Awaiting;
    PutOne(cfg, t, c);
    PutLead(cfg, t, c, cp, n);
  }

  /** One encoded code point is decoded and written, whatever escape sequence it interrupts. */
  lemma Utf8RoundTrip(cfg: Config, t: Term, cp: nat)
    requires NothingPending(t.parser) && 0x80 <= cp < 0x11_0000
    ensures PutAll(cfg, t, Utf8(cp)) ==
      WithScreen(WithParser(t, Awaiting(t.parser, cp, 0)), WriteCodePoint(cfg, t.screen, cp))
  {
    hide PutAll, WriteCodePoint, WithScreen, WithParser, Awaiting, Utf8;
    if cp < 0x800 {
      Utf8TwoBytes(cfg, t, cp);
    } else if cp < 0x1_0000 {
      Utf8ThreeBytes(cfg, t, cp);
    } else {
      Utf8FourBytes(cfg, t, cp);
    }
  }

  lemma Utf8TwoBytes(cfg: Config, t: Term, cp: nat)
    requires NothingPending(t.parser) && 0x80 <= cp < 0x800
    ensures PutAll(cfg, t, Utf8(cp)) ==
      WithScreen(WithParser(t, Awaiting(t.parser, cp, 0)), WriteCodePoint(cfg, t.screen, cp))
  {
    hide PutAll, WriteCodePoint, WithScreen, WithParser, Awaiting, Pow64;
    SixBits(cp);
    var first: seq<byte> := [0xc0 + cp / 0x40];
    PutStart(cfg, t, first[0], cp / 0x40 * 0x40, 1);
    DigitsAligned(0, 0, cp / 0x40);
    PutEnd(cfg, t, t.parser, first, cp % 0x40, cp / 0x40 * 0x40);
    assert Utf8(cp) == first + [0x80 + cp % 0x40];
  }

  lemma Utf8ThreeBytes(cfg: Config, t: Term, cp: nat)
    requires NothingPending(t.parser) && 0x800 <= cp < 0x1_0000
    ensures PutAll(cfg, t, Utf8(cp)) ==
      WithScreen(WithParser(t, Awaiting(t.parser, cp, 0)), WriteCodePoint(cfg, t.screen, cp))
  {
    hide PutAll, WriteCodePoint, WithScreen, WithParser, Awaiting, Pow64;
    SixBits(cp);
    ThreeBytes(cfg, t, cp / 0x1000, cp / 0x40 % 0x40, cp % 0x40);
  }

  lemma ThreeBytes(cfg: Config, t: Term, a: nat, b: nat, c: nat)
    requires NothingPending(t.parser) && a < 0x10 && b < 0x40 && c < 0x40
    ensures var cp := a * 0x1000 + b * 0x40 + c;
      PutAll(cfg, t, [0xe0 + a, 0x80 + b, 0x80 + c]) ==
        WithScreen(WithParser(t, Awaiting(t.parser, cp, 0)), WriteCodePoint(cfg, t.screen, cp))
  {
    hide PutAll, WriteCodePoint, WithScreen, WithParser, Awaiting, Pow64;
    var p, top := t.parser, a * 0x1000;
    PowersOf64();
    DigitsAligned(0, a, b);
    PutStart(cfg, t, 0xe0 + a, top, 2);
    PutMiddle(cfg, t, p, [0xe0 + a], b, top, 2);
    PutEnd(cfg, t, p, [0xe0 + a] + [0x80 + b], c, top + b * 0x40);
    assert [0xe0 + a, 0x80 + b, 0x80 + c] == [0xe0 + a] + [0x80 + b] + [0x80 + c];
  }

  lemma DigitsAligned(a: nat, b: nat, c: nat)
    ensures Aligned(a * 0x4_0000, 3) && Aligned(a * 0x4_0000 + b * 0x1000, 2)
    ensures Aligned(a * 0x4_0000 + b * 0x1000 + c * 0x40, 1)
  {
    DivModUnique(a, 0x4_0000, 0);
    DivModUnique(a * 0x40 + b, 0x1000, 0);
    DivModUnique(a * 0x1000 + b * 0x40 + c, 0x40, 0);
  }

  lemma PowersOf64()
    ensures Pow64(0) == 1 && Pow64(1) == 0x40 && Pow64(2) == 0x1000
  {
  }

  lemma Utf8FourBytes(cfg: Config, t: Term, cp: nat)
    requires NothingPending(t.parser) && 0x1_0000 <= cp < 0x11_0000
    ensures PutAll(cfg, t, Utf8(cp)) ==
      WithScreen(WithParser(t, Awaiting(t.parser, cp, 0)), WriteCodePoint(cfg, t.screen, cp))
  {
    hide PutAll, WriteCodePoint, WithScreen, WithParser, Awaiting, Pow64;
    SixBits(cp);
    FourBytes(cfg, t, cp / 0x4_0000, cp / 0x1000 % 0x40, cp / 0x40 % 0x40, cp % 0x40);
  }

  lemma FourBytes(cfg: Config, t: Term, a: nat, b: nat, c: nat, d: nat)
    requires NothingPending(t.parser) && a < 8 && b < 0x40 && c < 0x40 && d < 0x40
    ensures var cp := a * 0x4_0000 + b * 0x1000 + c * 0x40 + d;
      PutAll(cfg, t, [0xf0 + a, 0x80 + b, 0x80 + c, 0x80 + d]) ==
        WithScreen(WithParser(t, Awaiting(t.parser, cp, 0)), WriteCodePoint(cfg, t.screen, cp))
  {
    hide PutAll, WriteCodePoint, WithScreen, WithParser, Awaiting, Pow64;
    var p, top := t.parser, a * 0x4_0000;
    PowersOf64();
    DigitsAligned(a, b, c);
    PutStart(cfg, t, 0xf0 + a, top, 3);
    PutMiddle(cfg, t, p, [0xf0 + a], b, top, 3);
    PutMiddle(cfg, t, p, [0xf0 + a] + [0x80 + b], c, top + b * 0x1000, 2);
    PutEnd(cfg, t, p, [0xf0 + a] + [0x80 + b] + [0x80 + c], d, top + b * 0x1000 + c * 0x40);
    assert [0xf0 + a, 0x80 + b, 0x80 + c, 0x80 + d] == [0xf0 + a] + [0x80 + b] + [0x80 + c] + [0x80 + d];
  }

  /** The encodings of any list of code points decode to exactly that list. */
  lemma {:induction false} Utf8ListRoundTrip(cfg: Config, t: Term, cps: seq<nat>)
    requires NothingPending(t.parser) && forall i :: 0 <= i < |cps| ==> 0x80 <= cps[i] < 0x11_0000
    ensures var r := PutAll(cfg, t, Utf8All(cps));
      && r.screen == WriteAll(cfg, t.screen, cps)
      && r.parser == (if |cps| == 0 then t.parser else Awaiting(t.parser, cps[|cps| - 1], 0))
  {
    hide PutChar, WriteCodePoint, Utf8, WithScreen, WithParser;
    if |cps| > 0 {
      var front, last := cps[..|cps| - 1], cps[|cps| - 1];
      Utf8ListRoundTrip(cfg, t, front);
      PutAllConcat(cfg, t, Utf8All(front), Utf8(last));
      Utf8RoundTrip(cfg, PutAll(cfg, t, Utf8All(front)), last);
    }
  }

  /** A byte that cannot continue a started sequence is treated as if the sequence had not been started. */
  lemma InterruptedSequence(cfg: Config, t: Term, c: byte)
    requires t.parser.unicodeRemaining != 0 && c / 0x40 != 2
    ensures PutChar(cfg, t, c) == PutChar(cfg, WithParser(t, t.parser.(unicodeRemaining := 0)), c)
  {
    hide TermOk, WellFormed, WriteCodePoint, FreshByte;
    WithParserTwice(t, t.parser.(unicodeRemaining := 0), Cancelled(t.parser));
  }
}
