/**
 * The parts of Java's `int` and `(int)` cast semantics that the engine relies
 * on: 32-bit two's-complement wrap-around, division truncating toward zero,
 * and the truncating conversion of a (finite, in-range) double to int.
 */
module JavaInt {

  const IntMin: int := -0x8000_0000
  const IntMax: int := 0x7FFF_FFFF
  const Modulus: int := 0x1_0000_0000

  /** The values of Java's `int`. */
  type Int32 = x: int | -0x8000_0000 <= x <= 0x7FFF_FFFF

  /** The `int` that Java arithmetic yields for the mathematical value `x`. */
  function Wrap(x: int): (r: Int32)
    ensures (x - r) % Modulus == 0
    ensures IntMin <= x <= IntMax ==> r == x
  {
    var m := x % Modulus;
    if m > IntMax then m - Modulus else m
  }

  /** Java's `a / b` on integers: the quotient truncated toward zero. */
  function Div(a: int, b: int): (q: int)
    requires b != 0
    ensures b > 0 && a >= 0 ==> q * b <= a < q * b + b
    ensures b > 0 && a < 0 ==> q * b - b < a <= q * b
  {
    if a >= 0 then
      (if b > 0 then a / b else -(a / -b))
    else
      (if b > 0 then -((-a) / b) else (-a) / (-b))
  }

  /** Java's `(int) x` for a finite double: the value truncated toward zero. */
  function Trunc(x: real): (r: int)
    ensures x >= 0.0 ==> r as real <= x < r as real + 1.0
    ensures x < 0.0 ==> r as real - 1.0 < x <= r as real
  {
    if x >= 0.0 then x.Floor else -((-x).Floor)
  }
}
