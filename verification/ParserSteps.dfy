/** The assignments by which the source moves its parser on, in its order (kernel/flanterm/flanterm.c). */
module ParserSteps {
  import opened Basics
  import opened Terminals

  /** `*= 10`, then `+= c - '0'`, both in 32 bits. */
  method TakeDigit(p: Parser, c: byte) returns (q: Parser)
    requires 0x30 <= c <= 0x39
    ensures q == Digit(p, c)
  {
    q := p;
    if p.count == MAX_VALUES {
      return;
    }
    var ten := p.values[p.count] as int * 10;
    var v := ToU32(ten) as int + (c - 0x30);
    var w := ToU32(v);
    WrapTwice(ten, c - 0x30);
    q := q.(rrr := true, values := p.values[p.count := w]);
  }

  lemma WrapTwice(a: nat, b: nat)
    ensures ToU32(ToU32(a) as int + b) == ToU32(a + b)
  {
    FlatPlace(a, U32_LIMIT, a % U32_LIMIT, a / U32_LIMIT);
    var r := a % U32_LIMIT + b;
    FlatPlace(r, U32_LIMIT, r % U32_LIMIT, r / U32_LIMIT);
    assert a + b == (a / U32_LIMIT + r / U32_LIMIT) * U32_LIMIT + r % U32_LIMIT;
    DivModUnique(a / U32_LIMIT + r / U32_LIMIT, U32_LIMIT, r % U32_LIMIT);
  }

  /** A `;`: ends the value being typed, or stores a zero where none was. */
  method TakeSeparator(p: Parser) returns (q: Parser)
    ensures q == if p.rrr then EndValue(p) else EmptyValue(p)
  {
    q := p;
    if p.rrr {
      q := q.(rrr := false);
      q := q.(count := p.count + 1);
    } else if p.count != MAX_VALUES {
      q := q.(values := p.values[p.count := 0]);
      q := q.(count := p.count + 1);
    }
  }

  /** The part of `control_sequence_parse` before its function is carried out; `more` if the sequence goes on. */
  method TakeByte(p: Parser, c: byte) returns (q: Parser, more: bool)
    ensures more <==> Collects(p, c)
    ensures q == if more then Collect(p, c) else EndValue(p)
  {
    hide Digit, EmptyValue;
    q, more := p, true;
    if p.escapeOffset == 2 {
      if c == 0x5b {
        q := p.(discardNext := true, controlSequence := false, escape := false);
        return;
      } else if c == 0x3f {
        q := p.(decPrivate := true);
        return;
      }
    }
    if c >= 0x30 && c <= 0x39 {
      q := TakeDigit(p, c);
      return;
    }
    if p.rrr || c == 0x3b {
      q := TakeSeparator(p);
    }
    more := c == 0x3b;
  }

  /** The loop that clears the values, and the flags of a new control sequence. */
  method StartControlSequence(p: Parser) returns (q: Parser)
    ensures q == BeginControlSequence(p)
  {
    var values, i := p.values, 0;
    while i < MAX_VALUES
      invariant i <= MAX_VALUES && |values| == MAX_VALUES
      invariant forall j :: 0 <= j < i ==> values[j] == 0
    {
      values := values[i := 0];
      i := i + 1;
    }
    assert values == ZeroedParser.values;
    q := p.(rrr := false);
    q := q.(values := values, count := 0);
    q := q.(csi := false);
    q := q.(controlSequence := true);
  }

  /** `osc_parse` */
  method TakeOscByte(p: Parser, c: byte) returns (q: Parser)
    ensures q == OscByte(p, c)
  {
    q := p;
    if !(p.oscEscape && c == 0x5c) {
      q := q.(oscEscape := false);
      if c == 0x1b {
        q := q.(oscEscape := true);
        return;
      }
      if c != 0x07 {
        return;
      }
    }
    q := q.(oscEscape := false);
    q := q.(osc := false);
    q := q.(escape := false);
  }

  /** The lead byte of a UTF-8 sequence. */
  method TakeLeadByte(p: Parser, c: byte) returns (q: Parser)
    requires 0xc0 <= c <= 0xf7
    ensures q == LeadByte(p, c)
  {
    if c >= 0xc0 && c <= 0xdf {
      q := p.(unicodeRemaining := 1, codePoint := c % 0x20 * 0x40);
    } else if c >= 0xe0 && c <= 0xef {
      q := p.(unicodeRemaining := 2, codePoint := c % 0x10 * 0x1000);
    } else {
      q := p.(unicodeRemaining := 3, codePoint := c % 8 * 0x4_0000);
    }
  }

  /** `unicode_remaining--`, then `|=` of six bits shifted by as many times six. */
  method TakeContinuation(p: Parser, c: byte) returns (q: Parser)
    requires p.unicodeRemaining > 0
    ensures q == ContinuationByte(p, c)
  {
    q := p.(unicodeRemaining := p.unicodeRemaining - 1);
    var bits, i := c % 0x40, 0;
    while i < q.unicodeRemaining
      invariant i <= q.unicodeRemaining && bits == c % 0x40 * Pow64(i)
    {
      bits := bits * 64;
      i := i + 1;
    }
    q := q.(codePoint := BitOr(q.codePoint, bits));
  }

  /** The assignments behind CAN, SUB and a discarded byte. */
  method Cancel(p: Parser) returns (q: Parser)
    ensures q == Cancelled(p)
  {
    q := p.(discardNext := false);
    q := q.(escape := false);
    q := q.(csi := false);
    q := q.(controlSequence := false);
    q := q.(unicodeRemaining := 0);
    q := q.(osc := false);
    q := q.(oscEscape := false);
    q := q.(gSelect := 0);
  }
}
