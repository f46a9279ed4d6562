/** Printing numbers into a caller's buffer (kernel/printf/printf.c). */
module Printf {
  import opened Basics
  import opened Numerals

  const MINUS: byte := 0x2d

  function Reversed(text: seq<byte>): (r: seq<byte>)
    ensures |r| == |text|
    ensures forall k :: 0 <= k < |text| ==> r[k] == text[|text| - 1 - k]
  {
    if |text| == 0 then [] else Reversed(text[1..]) + [text[0]]
  }

  lemma ReversedAppend(text: seq<byte>, b: byte)
    ensures Reversed(text + [b]) == [b] + Reversed(text)
  {
  }

  lemma ReversedPrepend(text: seq<byte>, b: byte)
    ensures Reversed([b] + text) == Reversed(text) + [b]
  {
  }

  lemma ReversedTwice(text: seq<byte>)
    ensures Reversed(Reversed(text)) == text
  {
  }

  /** The end parts of the first `length` bytes have changed places, `start` bytes on each side. */
  ghost predicate Exchanged(was: seq<byte>, now: seq<byte>, length: nat, start: nat)
    requires length <= |was| == |now|
  {
    && (forall k :: 0 <= k < start || length - start <= k < length ==> 0 <= k < length && now[k] == was[length - 1 - k])
    && forall k :: start <= k < length - start || length <= k < |was| ==> now[k] == was[k]
  }

  lemma ExchangedAll(was: seq<byte>, now: seq<byte>, length: nat, start: nat)
    requires length <= |was| == |now| && Exchanged(was, now, length, start) && length <= 2 * start + 1
      && start <= length
    ensures now[..length] == Reversed(was[..length]) && now[length..] == was[length..]
  {
    assert forall k :: 0 <= k < length ==> now[k] == was[length - 1 - k];
  }

  /** `reverse`: the first `length` bytes in opposite order, the others as they were. */
  method Reverse(str: array<byte>, length: nat)
    requires length <= str.Length
    modifies str
    ensures str[..length] == Reversed(old(str[..length]))
    ensures str[length..] == old(str[length..])
  {
    ghost var was := str[..];
    var start, end := 0, length - 1;
    while start < end
      invariant 0 <= start <= end + 1 && start + end == length - 1
      invariant Exchanged(was, str[..], length, start)
    {
      var temp := str[start];
      str[start] := str[end];
      str[end] := temp;
      start := start + 1;
      end := end - 1;
    }
    ExchangedAll(was, str[..], length, start);
    assert str[..][..length] == str[..length] && str[..][length..] == str[length..];
    assert was[..length] == old(str[..length]);
  }

  /** The digit loop of both functions: at least one digit, least significant first. */
  method PutDigits(buffer: array<byte>, base: nat, value: nat) returns (i: nat)
    requires 2 <= base <= 16 && |Numeral(base, value)| <= buffer.Length
    modifies buffer
    ensures i == |Numeral(base, value)|
    ensures buffer[..i] == Reversed(Numeral(base, value))
    ensures buffer[i..] == old(buffer[i..])
  {
    hide Numeral, Reversed, DigitByte;
    ghost var before := buffer[..];
    buffer[0] := DigitByte(value % base);
    i := 1;
    var rest: nat := value / base;
    DigitsBegin(base, value);
    assert buffer[..1] == [DigitByte(value % base)];
    while rest != 0
      invariant 1 <= i <= |Numeral(base, value)|
      invariant Written(base, value, rest, buffer[..i])
      invariant buffer[i..] == before[i..]
      decreases rest
    {
      DigitsContinue(base, value, rest, buffer[..i]);
      ghost var written := buffer[..i];
      buffer[i] := DigitByte(rest % base);
      assert buffer[..i + 1] == written + [DigitByte(rest % base)];
      assert buffer[i + 1..] == before[i + 1..];
      i := i + 1;
      rest := rest / base;
    }
    DigitsEnd(base, value, buffer[..i]);
  }

  /** What is written, and the number still to be written in front of it. */
  ghost predicate Written(base: nat, value: nat, rest: nat, digits: seq<byte>)
    requires 2 <= base <= 16
  {
    Numeral(base, value) == (if rest == 0 then [] else Numeral(base, rest)) + Reversed(digits)
  }

  lemma DigitsBegin(base: nat, value: nat)
    requires 2 <= base <= 16
    ensures Written(base, value, value / base, [DigitByte(value % base)])
    ensures 0 <= value / base
  {
    assert Reversed([DigitByte(value % base)]) == [DigitByte(value % base)];
    if value < base {
      DivModUnique(0, base, value);
    } else {
      Quotient(value, base);
    }
  }

  lemma DigitsContinue(base: nat, value: nat, rest: nat, digits: seq<byte>)
    requires 2 <= base <= 16 && rest >= 1 && Written(base, value, rest, digits)
    ensures 0 <= rest / base < rest && |digits| < |Numeral(base, value)|
    ensures Written(base, value, rest / base, digits + [DigitByte(rest % base)])
  {
    ReversedAppend(digits, DigitByte(rest % base));
    if rest < base {
      DivModUnique(0, base, rest);
    } else {
      Quotient(rest, base);
    }
  }

  lemma DigitsEnd(base: nat, value: nat, digits: seq<byte>)
    requires 2 <= base <= 16 && Written(base, value, 0, digits)
    ensures digits == Reversed(Numeral(base, value))
  {
    ReversedTwice(digits);
  }

  /** The decimal text of an int. */
  function IntText(value: int): seq<byte> {
    if value < 0 then [MINUS] + Numeral(10, -value) else Numeral(10, value)
  }

  /** The last two steps of both functions: the terminator, and the bytes in front of it in opposite
      order. */
  method Terminate(buffer: array<byte>, i: nat, ghost text: seq<byte>)
    requires i == |text| < buffer.Length && buffer[..i] == Reversed(text)
    modifies buffer
    ensures buffer[..] == text + [0] + old(buffer[i + 1..])
  {
    hide Reversed;
    ghost var before := buffer[..];
    buffer[i] := 0;
    assert buffer[..i] == before[..i];
    assert buffer[i..] == [0] + before[i + 1..];
    ReversedTwice(text);
    Reverse(buffer, i);
    assert buffer[..] == buffer[..i] + buffer[i..];
  }

  /** `int2str`: the text and its terminator are written to the front of the buffer, and the length
      without the terminator is returned. */
  method Int2Str(buffer: array<byte>, value: int) returns (i: nat)
    requires -0x8000_0000 < value < 0x8000_0000 && |IntText(value)| < buffer.Length
    modifies buffer
    ensures i == |IntText(value)|
    ensures buffer[..] == IntText(value) + [0] + old(buffer[i + 1..])
  {
    hide Reversed, Numeral;
    ghost var before := buffer[..];
    var negative := value < 0;
    var magnitude := if negative then -value else value;
    i := PutDigits(buffer, 10, magnitude);
    ghost var digits := Numeral(10, magnitude);
    assert buffer[i + 1..] == before[i + 1..] by { assert buffer[i..][1..] == before[i..][1..]; }
    if negative {
      ReversedPrepend(digits, MINUS);
      ghost var written, rest := buffer[..i], buffer[i + 1..];
      buffer[i] := MINUS;
      i := i + 1;
      assert buffer[..i] == written + [MINUS];
      assert buffer[i..] == rest;
      assert buffer[i + 1..] == before[i + 1..] by { assert buffer[i..][1..] == before[i..][1..]; }
    }
    Terminate(buffer, i, IntText(value));
  }

  /** `uintptr2str`: upper-case hexadecimal. */
  method UIntPtr2Str(buffer: array<byte>, value: u64)
    requires |Numeral(16, value)| < buffer.Length
    modifies buffer
    ensures var n := |Numeral(16, value)|; buffer[..] == Numeral(16, value) + [0] + old(buffer[n + 1..])
  {
    hide Reversed, Numeral;
    ghost var before := buffer[..];
    var i := PutDigits(buffer, 16, value);
    assert buffer[i + 1..] == before[i + 1..] by { assert buffer[i..][1..] == before[i..][1..]; }
    Terminate(buffer, i, Numeral(16, value));
  }

  // ---- What the texts mean

  /** Reading a decimal integer. */
  function ReadInt(text: seq<byte>): int {
    if |text| > 0 && text[0] == MINUS then 0 - Value(10, text[1..]) else Value(10, text)
  }

  /** A number without leading zeros, or a minus and one that is not zero. */
  predicate CanonicalInt(text: seq<byte>) {
    if |text| > 0 && text[0] == MINUS then Canonical(10, text[1..]) && text[1] != 0x30 else Canonical(10, text)
  }

  /** For every int the text is canonical and reads back as the int. */
  lemma IntRoundTrip(value: int)
    ensures CanonicalInt(IntText(value)) && ReadInt(IntText(value)) == value
  {
    var magnitude := if value < 0 then -value else value;
    NumeralCanonical(10, magnitude);
    NumeralValue(10, magnitude);
    assert IsDigit(10, Numeral(10, magnitude)[0]);
    if value < 0 {
      assert IntText(value)[1..] == Numeral(10, magnitude);
    }
  }

  /** And it is the only canonical text that does. */
  lemma IntTextUnique(text: seq<byte>)
    requires CanonicalInt(text)
    ensures text == IntText(ReadInt(text))
  {
    if |text| > 0 && text[0] == MINUS {
      CanonicalUnique(10, text[1..], Value(10, text[1..]));
      PositiveValue(10, text[1..]);
      assert text == [MINUS] + text[1..];
    } else {
      CanonicalUnique(10, text, Value(10, text));
    }
  }

  /** The buffers of `printf`, 12 bytes for an int and 20 for a pointer, hold the text and its terminator. */
  lemma TextsFit(value: int, pointer: u64)
    requires -0x8000_0000 < value < 0x8000_0000
    ensures |IntText(value)| + 1 <= 12
    ensures |Numeral(16, pointer)| + 1 <= 17
  {
    var magnitude := if value < 0 then -value else value;
    PowersHere();
    NumeralLength(10, magnitude, 10);
    NumeralLength(16, pointer, 16);
  }

  lemma PowersHere()
    ensures Power(10, 10) == 100_0000_0000 && Power(16, 16) == U64_LIMIT
  {
    assert Power(10, 4) == 1_0000;
    assert Power(10, 8) == 1_0000_0000;
    assert Power(16, 4) == 0x1_0000;
    assert Power(16, 8) == 0x1_0000_0000;
    assert Power(16, 12) == 0x1_0000_0000_0000;
  }
}
