/** Elementary facts about real arithmetic that the solver needs spelled out. */
module RealMath {

  /** The only law of the library's square root that is used. */
  ghost predicate LawfulSqrt(sqrt: real -> real) {
    forall x :: x >= 0.0 ==> sqrt(x) >= 0.0 && sqrt(x) * sqrt(x) == x
  }

  lemma SquareSign(x: real)
    ensures x * x >= 0.0
    ensures x * x == 0.0 <==> x == 0.0
  {
    if x > 0.0 {
      ProductSign(x, x);
    } else if x < 0.0 {
      ProductSign(-x, -x);
    }
  }

  lemma ProductSign(x: real, y: real)
    requires x >= 0.0 && y >= 0.0
    ensures x * y >= 0.0
    ensures x * y == 0.0 <==> x == 0.0 || y == 0.0
  {
  }

  lemma SumOfSquares(x: real, y: real)
    ensures x * x + y * y >= 0.0
    ensures x * x + y * y == 0.0 <==> x == 0.0 && y == 0.0
  {
    SquareSign(x);
    SquareSign(y);
  }

  lemma MulMonotone(x: real, y: real, c: real)
    requires x <= y && c >= 0.0
    ensures x * c <= y * c && c * x <= c * y
  {
  }

  /** Squaring is injective on the non-negative reals. */
  lemma EqualSquares(x: real, y: real)
    requires x >= 0.0 && y >= 0.0 && x * x == y * y
    ensures x == y
  {
    assert (x - y) * (x + y) == 0.0;
    if x < y {
      ProductSign(y - x, x + y);
    } else {
      ProductSign(x - y, x + y);
    }
  }

  lemma Quotient(q: real, n: real, a: real)
    requires n != 0.0 && q * n == a
    ensures a / n == q
  {
  }
}
