/** Numbers as text: the digits of a number in a base up to sixteen, most significant first. */
module Numerals {
  import opened Basics

  function DigitByte(d: nat): byte
    requires d < 16
  {
    if d < 10 then 0x30 + d else 0x41 + (d - 10)
  }

  function DigitValue(b: byte): nat {
    if 0x30 <= b <= 0x39 then b - 0x30 else if 0x41 <= b <= 0x46 then b - 0x41 + 10 else 0
  }

  function Numeral(base: nat, n: nat): (text: seq<byte>)
    requires 2 <= base <= 16
    ensures |text| >= 1
    decreases n
  {
    if n < base then [DigitByte(n)] else Numeral(base, n / base) + [DigitByte(n % base)]
  }

  /** The number that a text stands for. */
  function Value(base: nat, text: seq<byte>): nat {
    if |text| == 0 then 0 else Value(base, text[..|text| - 1]) * base + DigitValue(text[|text| - 1])
  }

  predicate IsDigit(base: nat, b: byte) {
    (0x30 <= b <= 0x39 || 0x41 <= b <= 0x46) && DigitValue(b) < base
  }

  /** Digits only, and no leading zero unless the text is just that. */
  predicate Canonical(base: nat, text: seq<byte>) {
    && |text| >= 1
    && (forall i :: 0 <= i < |text| ==> IsDigit(base, text[i]))
    && (|text| > 1 ==> text[0] != 0x30)
  }

  lemma Quotient(n: nat, base: nat)
    requires 2 <= base <= n
    ensures 1 <= n / base < n && n / base * base + n % base == n
  {
  }

  lemma DigitRoundTrip(d: nat)
    requires d < 16
    ensures DigitValue(DigitByte(d)) == d
  {
  }

  /** Reading back what was written. */
  lemma {:induction false} NumeralValue(base: nat, n: nat)
    requires 2 <= base <= 16
    ensures Value(base, Numeral(base, n)) == n
    decreases n
  {
    var text := Numeral(base, n);
    if n < base {
      DigitRoundTrip(n);
      assert text[..0] == [];
      assert Value(base, []) == 0;
    } else {
      Quotient(n, base);
      DigitRoundTrip(n % base);
      NumeralValue(base, n / base);
      assert text[..|text| - 1] == Numeral(base, n / base);
    }
  }

  lemma {:induction false} NumeralCanonical(base: nat, n: nat)
    requires 2 <= base <= 16
    ensures Canonical(base, Numeral(base, n))
    ensures n >= 1 ==> Numeral(base, n)[0] != 0x30
    decreases n
  {
    if n >= base {
      Quotient(n, base);
      NumeralCanonical(base, n / base);
    }
  }

  /** Texts of numbers below base^k have at most k digits. */
  lemma {:induction false} NumeralLength(base: nat, n: nat, k: nat)
    requires 2 <= base <= 16 && k >= 1 && n < Power(base, k)
    ensures |Numeral(base, n)| <= k
    decreases k
  {
    if n >= base {
      assert k > 1 by { assert Power(base, 0) == 1; assert Power(base, 1) == base; }
      assert n / base < Power(base, k - 1);
      NumeralLength(base, n / base, k - 1);
    }
  }

  function Power(base: nat, k: nat): nat {
    if k == 0 then 1 else base * Power(base, k - 1)
  }

  /** Two canonical texts of the same number are the same. */
  lemma {:induction false} CanonicalUnique(base: nat, a: seq<byte>, n: nat)
    requires 2 <= base <= 16 && Canonical(base, a) && Value(base, a) == n
    ensures a == Numeral(base, n)
    decreases |a|
  {
    var front, last := a[..|a| - 1], a[|a| - 1];
    assert IsDigit(base, last);
    if |a| == 1 {
      assert Value(base, front) == 0;
    } else {
      assert Canonical(base, front) by {
        forall i | 0 <= i < |front| ensures IsDigit(base, front[i]) {
          assert IsDigit(base, a[i]);
        }
      }
      PositiveValue(base, front);
      var v := Value(base, front);
      assert n == v * base + DigitValue(last);
      DivModUnique(v, base, DigitValue(last));
      MulMonotone(1, v, base);
      CanonicalUnique(base, front, v);
      assert a == front + [last];
    }
  }

  /** A text that does not start with zero is not zero. */
  lemma {:induction false} PositiveValue(base: nat, a: seq<byte>)
    requires base >= 2 && |a| >= 1 && a[0] != 0x30 && forall i :: 0 <= i < |a| ==> IsDigit(base, a[i])
    ensures Value(base, a) >= 1
    decreases |a|
  {
    if |a| == 1 {
      assert a[..0] == [];
      assert IsDigit(base, a[0]);
    } else {
      var front := a[..|a| - 1];
      forall i | 0 <= i < |front| ensures IsDigit(base, front[i]) {
        assert IsDigit(base, a[i]);
      }
      PositiveValue(base, front);
      MulMonotone(1, Value(base, front), base);
    }
  }
}
