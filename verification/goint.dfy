/** Go's integer arithmetic as far as the populate and lookup code uses it. */
module GoInt {

  /** Go's `int` on a 64-bit platform, which is also what `strconv.ParseInt(_, 10, 64)` yields. */
  type Int64 = x: int | -0x8000_0000_0000_0000 <= x < 0x8000_0000_0000_0000

  /** Go's `/` on integers: the quotient truncated toward zero. Dafny's own `/` is Euclidean,
      so for a negative dividend the two differ. */
  function TruncDiv(a: int, b: int): int
    requires b > 0
  {
    if a >= 0 then a / b else -((-a) / b)
  }

  /** The truncated quotient leaves a remainder that takes the sign of the dividend and is smaller
      than the divisor in magnitude. */
  lemma TruncDivRemainder(a: int, b: int)
    requires b > 0
    ensures a >= 0 ==> 0 <= a - b * TruncDiv(a, b) < b
    ensures a < 0 ==> -b < a - b * TruncDiv(a, b) <= 0
  {
  }

  function Min(a: int, b: int): int {
    if a < b then a else b
  }

  function Max(a: int, b: int): int {
    if a < b then b else a
  }
}
