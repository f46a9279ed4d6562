/** Private control sequences and function keys. */
module PrivateLaws {
  import opened Basics
  import opened Terminals
  import opened ParserLaws
  import opened SequenceLaws
  import opened EscapeLaws

  /** The parser that a private function finds. */
  function PrivateParsed(p: Parser, vs: seq<u32>, c: byte): Parser {
    At(Parsed(p.(decPrivate := true), vs, c), 3 + |Parameters(vs)|)
  }

  /** The list behind the mark is read as without it. */
  lemma CollectPrivate(p: Parser, vs: seq<u32>, c: byte)
    requires AtRest(p)
    ensures ParameterBytes(Parameters(vs))
    ensures var q := CollectAll(At(Introduced(p.(decPrivate := true)), 2), Parameters(vs));
      WithDefaults(EndValue(At(q, q.escapeOffset + 1)), c) == PrivateParsed(p, vs, c)
  {
    hide CollectAll, ParameterBytes, Parsed, Introduced, EndValue, WithDefaults, Parameters, At, Typed, AtRest;
    var p' := p.(decPrivate := true);
    var i, n := Introduced(p'), |Parameters(vs)|;
    MarkedBegins(p);
    CollectParameters(i, vs);
    var q := CollectAll(i, Parameters(vs));
    OffsetFree(i, 2, Parameters(vs));
    OffsetCounts(i, Parameters(vs));
    OffsetSame(q);
    CompleteAt(p', q, q.escapeOffset, vs, c);
    AtCounts(q, 2 + n);
    OffsetKept(At(q, 2 + n), q.escapeOffset, c);
    AtTwice(q, 2 + n, q.escapeOffset + 1);
  }

  lemma MarkedBegins(p: Parser)
    requires AtRest(p)
    ensures AtRest(p.(decPrivate := true))
    ensures var i := Introduced(p.(decPrivate := true));
      Reading(i) && i.count == 0 && i.values == ReadValues([], 0) && i.escapeOffset == 1
  {
    assert Introduced(p).values == ReadValues([], 0);
  }

  lemma AtCounts(p: Parser, k: nat)
    ensures At(p, k).escapeOffset == k
  {
  }

  /** `ESC [ ?`, any list of parameters and a final byte reach the private function with the parameters as written. */
  lemma PrivateSequence(cfg: Config, t: Term, vs: seq<u32>, c: byte)
    requires AtRest(t.parser) && IsFinal(c)
    ensures PutAll(cfg, t, [0x1b, 0x5b, 0x3f] + Parameters(vs) + [c]) ==
      Finish(DecMode(WithParser(t, PrivateParsed(t.parser, vs, c)), c))
  {
    hide PutAll, PutChar, DecMode, Control, Finish, Parameters, CollectAll, WithDefaults, WithParser, EndValue,
      PrivateParsed;
    PrivateMark(cfg, t);
    var bytes, i := Parameters(vs), At(Introduced(t.parser.(decPrivate := true)), 2);
    var u := PutAll(cfg, t, [0x1b, 0x5b, 0x3f]);
    assert u.parser == i;
    assert InSequence(i);
    CollectPrivate(t.parser, vs, c);
    PutParameters(cfg, u, bytes);
    var q := CollectAll(i, bytes);
    WithParserTwice(t, i, q);
    PutAllConcat(cfg, t, [0x1b, 0x5b, 0x3f], bytes);
    PutLast(cfg, t, [0x1b, 0x5b, 0x3f] + bytes, c);
    PutFinal(cfg, WithParser(t, q), c);
    WithParserTwice(t, q, PrivateParsed(t.parser, vs, c));
    assert PrivateParsed(t.parser, vs, c).decPrivate by { PrivateMarked(t.parser, vs, c); }
  }

  lemma PrivateMarked(p: Parser, vs: seq<u32>, c: byte)
    ensures PrivateParsed(p, vs, c).decPrivate
  {
  }

  /** `CSI ? 25 h` shows the cursor and `CSI ? 25 l` hides it; other private sequences do nothing here. */
  lemma CursorMode(cfg: Config, t: Term, vs: seq<u32>, c: byte)
    requires AtRest(t.parser) && IsFinal(c)
    ensures var s, r := t.screen, PutAll(cfg, t, [0x1b, 0x5b, 0x3f] + Parameters(vs) + [c]);
      && Idle(r.parser)
      && r == t.(parser := r.parser, screen := s.(cursorEnabled :=
        if |vs| >= 1 && vs[0] == 25 && c == 0x68 then true
        else if |vs| >= 1 && vs[0] == 25 && c == 0x6c then false
        else s.cursorEnabled))
  {
    hide PutAll, Parameters;
    PrivateSequence(cfg, t, vs, c);
    var p := PrivateParsed(t.parser, vs, c);
    assert |vs| >= 1 ==> p.values[0] == vs[0];
    assert p.count == MinValues(|vs|);
  }

  /** `ESC [ [` and any byte: nothing, as the Linux console's function keys ask for. */
  lemma FunctionKey(cfg: Config, t: Term, c: byte)
    requires Idle(t.parser)
    ensures var r := PutAll(cfg, t, [0x1b, 0x5b, 0x5b, c]);
      r == WithParser(t, r.parser) && Idle(r.parser)
  {
    hide TermOk, WriteCodePoint, ControlByte, SelectCharset, WriteByte, Dispatch, ContinuationByte, LeadByte,
      EscapeFunction, OscByte, BeginControlSequence, WithParser;
    assert [0x1b, 0x5b, 0x5b, c] == [0x1b, 0x5b] + [0x5b] + [c];
    PutLast(cfg, t, [0x1b, 0x5b] + [0x5b], c);
    PutLast(cfg, t, [0x1b, 0x5b], 0x5b);
    PutIntroducer(cfg, t);
    var u := WithParser(t, Introduced(t.parser));
    IntroducedReads(t.parser);
    var v := CountByte(u);
    assert PutChar(cfg, u, 0x5b) == EscapeByte(cfg, u, 0x5b);
    assert EscapeByte(cfg, u, 0x5b) == ControlSequence(cfg, v, 0x5b);
    var w := WithParser(v, DiscardSequence(v.parser));
    assert ControlSequence(cfg, v, 0x5b) == w;
    WithParserTwice(t, u.parser, v.parser);
    WithParserTwice(t, v.parser, w.parser);
    assert PutChar(cfg, w, c) == WithParser(w, Cancelled(w.parser));
    WithParserTwice(t, w.parser, Cancelled(w.parser));
    KeptUnmarked(t.parser);
  }

  lemma KeptUnmarked(p: Parser)
    requires Idle(p)
    ensures Idle(Cancelled(DiscardSequence(Introduced(p))))
  {
  }
}
