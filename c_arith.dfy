/** Integer operations with the semantics of C and C++, which the source
    relies on: `/` and `%` truncate toward zero (Dafny's are Euclidean),
    `round` rounds halves away from zero, and a conversion to `char`
    keeps the low eight bits as a signed value. */
module CArith {

  /** INT_MIN of a 32-bit `int`. */
  const IntMin: int := -0x8000_0000
  /** INT64_MIN of a `qint64`; also the value of AV_NOPTS_VALUE. */
  const Int64Min: int := -0x8000_0000_0000_0000
  const NoPts: int := Int64Min

  function Abs(x: int): (r: nat)
    ensures r == x || r == -x
  {
    if x < 0 then -x else x
  }

  /** C's `a / b` for a positive divisor: the quotient truncated toward
      zero. Every divisor in the modelled code is positive. */
  function Div(a: int, b: int): (q: int)
    requires b > 0
    ensures a >= 0 ==> 0 <= q * b <= a < q * b + b
    ensures a < 0 ==> q * b - b < a <= q * b <= 0
  {
    if a >= 0 then
      Euclid(a, b);
      a / b
    else
      Euclid(-a, b);
      NegMul((-a) / b, b);
      -((-a) / b)
  }

  lemma Euclid(a: nat, b: int)
    requires b > 0
    ensures (a / b) * b + a % b == a && 0 <= a % b < b && a / b >= 0
  {
  }

  lemma NegMul(x: int, b: int)
    ensures (-x) * b == -(x * b)
  {
  }

  /** C's `a % b`: the remainder that goes with `Div`; it takes the sign of
      the dividend. */
  function Mod(a: int, b: int): (r: int)
    requires b > 0
    ensures a == Div(a, b) * b + r
    ensures a >= 0 ==> 0 <= r < b
    ensures a < 0 ==> -b < r <= 0
  {
    a - Div(a, b) * b
  }

  /** C's `round(a / b)` for an exact quotient: the nearest integer, halves
      rounded away from zero. */
  function RoundDiv(a: int, b: int): (r: int)
    requires b > 0
    ensures Abs(2 * (r * b - a)) <= b
    ensures 2 * Abs(r * b - a) == b ==> Abs(r * b) > Abs(a)
    ensures a >= 0 ==> r >= 0
  {
    if a >= 0 then
      RoundHalfUp(a, b);
      (2 * a + b) / (2 * b)
    else
      RoundHalfUp(-a, b);
      NegMul((2 * -a + b) / (2 * b), b);
      -((2 * -a + b) / (2 * b))
  }

  /** For a natural dividend, rounding half up leaves twice the error
      equal to `b` minus the remainder of `2a + b` by `2b`. */
  lemma RoundHalfUp(a: nat, b: int)
    requires b > 0
    ensures var q := (2 * a + b) / (2 * b);
      q >= 0 && 2 * (q * b - a) == b - (2 * a + b) % (2 * b) && 0 <= (2 * a + b) % (2 * b) < 2 * b
  {
    var q := (2 * a + b) / (2 * b);
    Euclid(2 * a + b, 2 * b);
    assert q * (2 * b) == 2 * (q * b);
  }

  /** The value a signed 8-bit `char` takes when an `int` is converted to
      it (two's complement wrap-around). */
  function ToChar(n: int): (c: int)
    ensures -128 <= c < 128
    ensures (c - n) % 256 == 0
  {
    (n + 128) % 256 - 128
  }
}
