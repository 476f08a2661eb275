/** Go's integer `/` and `%`, which truncate toward zero where Dafny's operators are Euclidean. */
module GoInt {

  /** Go's `a / b` for a positive divisor: the quotient is truncated toward zero. */
  function Div(a: int, b: int): (q: int)
    requires b > 0
    ensures a >= 0 ==> q * b <= a < q * b + b
    ensures a < 0 ==> q * b - b < a <= q * b
  {
    if a >= 0 then a / b else -((-a) / b)
  }

  /** Go's `a % b` for a positive divisor: the remainder takes the sign of the dividend. */
  function Rem(a: int, b: int): (r: int)
    requires b > 0
    ensures a >= 0 ==> 0 <= r < b
    ensures a < 0 ==> -b < r <= 0
  {
    a - Div(a, b) * b
  }

  /** The test `i%2 == 0` means "i is even" for every integer, negative ones included. */
  lemma RemTwoIsZeroIffEven(i: int)
    ensures Rem(i, 2) == 0 <==> i % 2 == 0
  {
  }

  /** Unlike Dafny's `%`, Go's gives -1 for a negative odd number. */
  lemma RemOfNegativeOdd(i: int)
    requires i < 0 && i % 2 != 0
    ensures Rem(i, 2) == -1
  {
  }
}
