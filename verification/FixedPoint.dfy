/** The 16.16 fixed-point macros of Assignment 4's thread.c on 32-bit two's complement
    integers: every result is cut to 32 bits, C's division truncates toward zero and the
    right shift rounds down. */
module FixedPoint {
  predicate Fits(x: int) {
    -0x8000_0000 <= x < 0x8000_0000
  }

  /** The low 32 bits of x, read as a signed number. */
  function Int32(x: int): (r: int)
    ensures Fits(r) && (r - x) % 0x1_0000_0000 == 0
    ensures Fits(x) ==> r == x
  {
    (x + 0x8000_0000) % 0x1_0000_0000 - 0x8000_0000
  }

  /** C's integer division. */
  function TruncDiv(a: int, b: int): int
    requires b != 0
  {
    if a >= 0 then a / b else -(-a / b)
  }

  /** The quotient is the exact one cut toward zero: the remainder is smaller than the
      divisor and has the sign of the dividend. */
  lemma TruncatesTowardZero(a: int, b: int)
    requires b > 0
    ensures var r := a - TruncDiv(a, b) * b; -b < r < b && (a > 0 ==> r >= 0) && (a < 0 ==> r <= 0)
  {
    var n := if a >= 0 then a else -a;
    assert n == n / b * b + n % b;
    assert (-(n / b)) * b == -(n / b * b);
  }

  /** a << 16 before it is cut to size. */
  function Fix(a: int): int {
    a * 0x1_0000
  }

  function FpConst(a: int): int {
    Int32(Fix(a))
  }

  function FpAdd(a: int, b: int): int {
    Int32(a + b)
  }

  function FpAddMix(a: int, b: int): int {
    Int32(a + FpConst(b))
  }

  function FpSub(a: int, b: int): int {
    Int32(a - b)
  }

  function FpSubMix(a: int, b: int): int {
    Int32(a - FpConst(b))
  }

  function FpMultMix(a: int, b: int): int {
    Int32(a * b)
  }

  function FpDivMix(a: int, b: int): int
    requires b != 0
  {
    Int32(TruncDiv(a, b))
  }

  /** The 64-bit product of two 32-bit numbers cannot overflow. */
  function FpMult(a: int, b: int): int {
    Int32(a * b / 0x1_0000)
  }

  function FpDiv(a: int, b: int): int
    requires b != 0
  {
    Int32(TruncDiv(Fix(a), b))
  }

  function FpIntPart(a: int): int {
    a / 0x1_0000
  }

  function FpRound(a: int): int {
    if a >= 0 then Int32(a + 0x8000) / 0x1_0000 else Int32(a - 0x8000) / 0x1_0000
  }
}
