/**
  Java's numeric conversions that the preprocessors use when turning a
  frequency cut-off into an integer count limit.
 */
module JavaNum {

  /**
    `(int) x` for a double `x`: the value rounded toward zero (the saturation
    of values beyond the 32-bit range is not modelled).
   */
  function TruncToInt(x: real): (r: int)
    ensures x >= 0.0 ==> r as real <= x < r as real + 1.0
    ensures x < 0.0 ==> r as real - 1.0 < x <= r as real
  {
    if x >= 0.0 then x.Floor else -((-x).Floor)
  }

  /** Java's `a / b` on ints for a positive divisor: the quotient rounded toward zero. */
  function JavaDiv(a: int, b: int): (q: int)
    requires b > 0
    ensures a >= 0 ==> q * b <= a < q * b + b
    ensures a < 0 ==> q * b - b < a <= q * b
  {
    if a >= 0 then a / b else -((-a) / b)
  }
}
