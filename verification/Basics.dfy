/** Machine integers and the few facts about variable division that the models share. */
module Basics {

  datatype Option<+T> = None | Some(value: T)

  const U32_LIMIT := 0x1_0000_0000
  const U64_LIMIT := 0x1_0000_0000_0000_0000

  type byte = x: int | 0 <= x < 256
  type u32 = x: int | 0 <= x < 0x1_0000_0000
  type u64 = x: int | 0 <= x < 0x1_0000_0000_0000_0000

  /** Conversion to `size_t` or `uint64_t`: the value modulo 2^64. */
  function ToU64(x: int): u64 {
    x % U64_LIMIT
  }

  /** `i--` on a `size_t`: below zero comes the largest value. */
  function Decrement(i: u64): u64 {
    if i == 0 then U64_LIMIT - 1 else i - 1
  }

  /** Conversion to `uint32_t`. */
  function ToU32(x: int): u32 {
    x % U32_LIMIT
  }

  /** The sign test `(int)x < 0` on a `size_t`: bit 31 of the value. */
  predicate IntIsNegative(x: u64) {
    x % U32_LIMIT >= 0x8000_0000
  }

  /** The quotient and the remainder are determined by the equation they solve. */
  lemma DivModUnique(q: int, d: int, r: int)
    requires 0 <= r < d
    ensures (q * d + r) / d == q
    ensures (q * d + r) % d == r
  {
    var a := q * d + r;
    var e := q - a / d;
    assert e * d == a % d - r;
    if e >= 1 {
      MulMonotone(1, e, d);
    } else if e <= -1 {
      MulMonotone(e, -1, d);
    }
  }

  lemma MulMonotone(a: int, b: int, d: int)
    requires a <= b && 0 <= d
    ensures a * d <= b * d
  {
  }

  /** A cell of a `rows` by `cols` grid lies inside its row-major array, and the array
      position gives both coordinates back. */
  lemma FlatIndex(x: nat, y: nat, rows: nat, cols: nat)
    requires x < cols && y < rows
    ensures 0 <= y * cols + x < rows * cols
    ensures (y * cols + x) / cols == y
    ensures (y * cols + x) % cols == x
  {
    DivModUnique(y, cols, x);
    MulMonotone(y + 1, rows, cols);
  }

  lemma FlatPlace(k: int, d: int, x: int, y: int)
    requires d >= 1 && k % d == x && k / d == y
    ensures k == y * d + x
  {
  }

  lemma FlatUnique(x: nat, y: nat, u: nat, v: nat, cols: nat)
    requires x < cols && u < cols && y * cols + x == v * cols + u
    ensures x == u && y == v
  {
    DivModUnique(y, cols, x);
    DivModUnique(v, cols, u);
  }

  /** Every array position is the position of a cell. */
  lemma FlatCell(i: nat, rows: nat, cols: nat)
    requires cols >= 1 && i < rows * cols
    ensures 0 <= i / cols < rows && 0 <= i % cols < cols
    ensures (i / cols) * cols + i % cols == i
  {
    if i / cols >= rows {
      MulMonotone(rows, i / cols, cols);
    }
  }

  /** Bitwise or. */
  function BitOr(a: nat, b: nat): nat
    decreases a + b
  {
    if a == 0 && b == 0 then 0
    else BitOr(a / 2, b / 2) * 2 + if a % 2 == 1 || b % 2 == 1 then 1 else 0
  }

  function Pow2(k: nat): (r: nat)
    ensures r >= 1
  {
    if k == 0 then 1 else 2 * Pow2(k - 1)
  }

  /** Numbers without a common bit: or is a sum. */
  lemma {:induction false} OrOfDisjoint(a: nat, b: nat, k: nat)
    requires b < Pow2(k) && a % Pow2(k) == 0
    ensures BitOr(a, b) == a + b
    decreases k, a
  {
    if k == 0 {
      if a > 0 {
        DivModUnique(a / 2, 1, 0);
        OrOfDisjoint(a / 2, 0, 0);
      }
    } else {
      var half := Pow2(k - 1);
      FlatPlace(a, 2 * half, 0, a / (2 * half));
      assert a == a / (2 * half) * half * 2;
      DivModUnique(a / (2 * half), half, 0);
      OrOfDisjoint(a / 2, b / 2, k - 1);
    }
  }

  /** No bit above the highest of both. */
  lemma {:induction false} OrBelow(a: nat, b: nat, k: nat)
    requires a < Pow2(k) && b < Pow2(k)
    ensures BitOr(a, b) < Pow2(k)
    decreases k
  {
    if k > 0 {
      OrBelow(a / 2, b / 2, k - 1);
    }
  }

  lemma MachinePowers()
    ensures Pow2(8) == 0x100 && Pow2(16) == 0x1_0000 && Pow2(32) == U32_LIMIT
  {
    assert Pow2(4) == 0x10 && Pow2(8) == 0x100 && Pow2(12) == 0x1000 && Pow2(16) == 0x1_0000;
    assert Pow2(20) == 0x10_0000 && Pow2(24) == 0x100_0000 && Pow2(28) == 0x1000_0000;
  }
}
