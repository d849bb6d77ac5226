/**
 JavaScript bigint division, and the facts about floors of quotients that the
 difficulty controller rests on.
 */
module BigInt {

  /** `a / b` on bigints truncates towards zero; every divisor in the program is positive. */
  function Div(a: int, b: int): int
    requires b > 0
  {
    if a >= 0 then a / b else -((-a) / b)
  }

  /** The quotient is the whole number next to the exact one on the side of zero. */
  lemma DivTruncates(a: int, b: int)
    requires b > 0
    ensures a >= 0 ==> b * Div(a, b) <= a < b * Div(a, b) + b
    ensures a <= 0 ==> b * Div(a, b) - b < a <= b * Div(a, b)
  {
  }

  lemma QuotientBounds(a: int, b: int)
    requires b > 0
    ensures b * (a / b) <= a < b * (a / b) + b
  {
  }

  lemma MulOrder(b: int, p: int, q: int)
    requires b >= 0 && p <= q
    ensures b * p <= b * q
  {
    assert b * (q - p) >= 0;
  }

  lemma QuotientAtLeast(a: int, b: int, q: int)
    requires b > 0
    ensures q <= a / b <==> b * q <= a
  {
    QuotientBounds(a, b);
    assert b * (a / b + 1) == b * (a / b) + b;
    if q <= a / b {
      MulOrder(b, q, a / b);
    } else {
      MulOrder(b, a / b + 1, q);
    }
  }

  /** The quotient is the greatest integer whose multiple stays below the dividend. */
  lemma QuotientIs(a: int, b: int, q: int)
    requires b > 0
    requires b * q <= a < b * q + b
    ensures a / b == q
  {
    QuotientAtLeast(a, b, q);
    QuotientAtLeast(a, b, q + 1);
  }

  lemma QuotientMonotone(a: int, c: int, b: int)
    requires b > 0 && a <= c
    ensures a / b <= c / b
  {
    QuotientBounds(a, b);
    QuotientAtLeast(c, b, a / b);
  }

  lemma MulMonotone(a: int, b: int, m: int)
    requires a <= b && m >= 0
    ensures a * m <= b * m
  {
    assert (b - a) * m >= 0;
  }

  lemma ScaledSum(a: int, d: int, p: int, q: int, f: int)
    requires d >= 0 && 0 <= p <= q && a * p < q * f + q
    ensures (a + d) * p < q * (f + d + 1)
  {
    MulOrder(d, p, q);
    assert (a + d) * p == a * p + d * p;
    assert q * (f + d + 1) == q * f + q + d * q;
  }

  /** Scaling by a ratio of at most one never stretches a distance. */
  lemma ScaledDistance(a: int, b: int, p: int, q: int)
    requires a <= b && 0 <= p <= q && q > 0
    ensures a * p / q <= b * p / q <= a * p / q + (b - a)
  {
    MulMonotone(a, b, p);
    QuotientMonotone(a * p, b * p, q);
    QuotientBounds(a * p, q);
    ScaledSum(a, b - a, p, q, a * p / q);
    QuotientAtLeast(b * p, q, a * p / q + (b - a) + 1);
  }

  function Pow(b: int, e: nat): int
  {
    if e == 0 then 1 else b * Pow(b, e - 1)
  }

  lemma {:induction false} PowPositive(b: int, e: nat)
    requires b >= 1
    ensures Pow(b, e) >= 1
  {
    if e != 0 {
      PowPositive(b, e - 1);
      MulMonotone(1, b, Pow(b, e - 1));
    }
  }
}
