/** Column snapping: terrain and drops are drawn on even columns only. */
module Coords {
  import GoInt

  /**
   * `grid`: odd columns move one to the right, even columns stay. The source
   * tests `i%2 == 0` with Go's truncating remainder; GoInt.RemTwoIsZeroIffEven
   * shows that test means "even" for negative columns as well.
   */
  function Grid(i: int): (r: int)
    ensures r % 2 == 0
    ensures i <= r <= i + 1
  {
    GoInt.RemTwoIsZeroIffEven(i);
    if GoInt.Rem(i, 2) == 0 then i else i + 1
  }

  lemma GridFixesExactlyEven(i: int)
    ensures Grid(i) == i <==> i % 2 == 0
    ensures i % 2 != 0 ==> Grid(i) == i + 1
  {
  }

  lemma GridIdempotent(i: int)
    ensures Grid(Grid(i)) == Grid(i)
  {
  }

  lemma GridMonotone(i: int, j: int)
    requires i <= j
    ensures Grid(i) <= Grid(j)
  {
  }

  /** The columns that snap onto `c`: none when `c` is odd, `c - 1` and `c` when it is even. */
  lemma GridPreimage(x: int, c: int)
    ensures Grid(x) == c <==> c % 2 == 0 && (x == c || x == c - 1)
  {
  }
}
