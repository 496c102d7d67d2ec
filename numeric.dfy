/**
 * Java's integer and floating-point conversions used by the image transforms,
 * stated over unbounded integers and exact reals.
 */
module Numeric {

  const IntMin: int := -0x8000_0000
  const IntMax: int := 0x7FFF_FFFF

  /** `Math.min(Math.max(v, lo), hi)`: the nearest value to `v` in [lo, hi]. */
  function Clamp(v: int, lo: int, hi: int): (r: int)
    requires lo <= hi
    ensures lo <= r <= hi
    ensures lo <= v <= hi ==> r == v
    ensures v < lo ==> r == lo
    ensures hi < v ==> r == hi
  {
    if v < lo then lo else if hi < v then hi else v
  }

  /** Java's `a / b` on `int` for a positive divisor: the quotient rounded toward zero. */
  function JavaDiv(a: int, b: int): (q: int)
    requires b > 0
    ensures a >= 0 ==> 0 <= q * b <= a < q * b + b
    ensures a < 0 ==> q * b - b < a <= q * b <= 0
  {
    if a >= 0 then
      DivisionBounds(a, b);
      a / b
    else
      DivisionBounds(-a, b);
      -((-a) / b)
  }

  lemma DivisionBounds(a: nat, b: int)
    requires b > 0
    ensures 0 <= (a / b) * b <= a < (a / b) * b + b
  {
    assert a == (a / b) * b + a % b;
  }

  /** Rounding toward zero of an exact real. */
  function Truncate(x: real): (r: int)
    ensures 0.0 <= x ==> r as real <= x < r as real + 1.0
    ensures x < 0.0 ==> r as real - 1.0 < x <= r as real
  {
    if x >= 0.0 then x.Floor else -((-x).Floor)
  }

  /**
   * Java's narrowing cast `(int) d` of a finite double: rounds toward zero and
   * saturates at the bounds of a 32-bit int.
   */
  function DoubleToInt(x: real): (r: int)
    ensures IntMin <= r <= IntMax
    ensures IntMin as real < x < IntMax as real ==> r == Truncate(x)
    ensures x >= IntMax as real ==> r == IntMax
    ensures x <= IntMin as real ==> r == IntMin
  {
    if x >= IntMax as real then IntMax
    else if x <= IntMin as real then IntMin
    else Truncate(x)
  }

  /** `Math.round(d)` on a double: the nearest integer, halves rounded up. */
  function RoundHalfUp(x: real): (r: int)
    ensures r as real - 0.5 <= x < r as real + 0.5
  {
    (x + 0.5).Floor
  }

  /** Java's 32-bit two's-complement wrap-around of a mathematical integer. */
  function Wrap32(x: int): (r: int)
    ensures IntMin <= r <= IntMax
    ensures (x - r) % 0x1_0000_0000 == 0
    ensures IntMin <= x <= IntMax ==> r == x
  {
    (x - IntMin) % 0x1_0000_0000 + IntMin
  }

  /**
   * Clamping to a byte after Java's truncating cast gives the same value as
   * clamping after rounding down: the two differ only on (-1, 0), where both
   * clamp to 0, and on values beyond the int range, where both clamp to an end.
   */
  lemma ClampedCastIsFloor(x: real)
    ensures Clamp(DoubleToInt(x), 0, 255) == Clamp(x.Floor, 0, 255)
  {
    if 0.0 <= x < IntMax as real {
      assert DoubleToInt(x) == x.Floor;
    } else if x < 0.0 {
      assert DoubleToInt(x) <= 0;
      assert x.Floor < 0;
    }
  }

  /** The nearest value to `x` in [lo, hi]: the clamp on the sum that clamping before the cast would use. */
  function ClampReal(x: real, lo: real, hi: real): (r: real)
    requires lo <= hi
    ensures lo <= r <= hi
    ensures lo <= x <= hi ==> r == x
    ensures x < lo ==> r == lo
    ensures hi < x ==> r == hi
  {
    if x < lo then lo else if hi < x then hi else x
  }

  /**
   * Clamping the sum to [0, 255] before the cast would give the same byte as the
   * cast followed by the clamp.
   */
  lemma ClampBeforeCast(x: real)
    ensures DoubleToInt(ClampReal(x, 0.0, 255.0)) == Clamp(DoubleToInt(x), 0, 255)
  {
    ClampedCastIsFloor(x);
  }

  /** Rounding an exact integer gives it back. */
  lemma RoundHalfUpOfInteger(n: int)
    ensures RoundHalfUp(n as real) == n
  {
  }
}
