/** Small facts about integer multiplication and Euclidean division that the
    solver does not find on its own. */
module Arith {

  lemma MulMono(a: int, b: int, c: int)
    requires a <= b && 0 <= c
    ensures a * c <= b * c
  {
    assert b * c - a * c == (b - a) * c;
  }

  lemma MulCancelStrict(a: int, b: int, c: int)
    requires 0 < c && a * c < b * c
    ensures a < b
  {
    if b <= a {
      MulMono(b, a, c);
    }
  }

  lemma MulNonNeg(a: int, c: int)
    requires 0 <= a && 0 <= c
    ensures 0 <= a * c
  {
    MulMono(0, a, c);
  }

  lemma MulSucc(a: int, c: int)
    ensures (a + 1) * c == a * c + c
    ensures (a - 1) * c == a * c - c
  {
  }

  /** Quotient and remainder are determined by `n == q * d + m`, `0 <= m < d`. */
  lemma DivModUnique(n: int, d: int, q: int, m: int)
    requires 0 < d && 0 <= m < d && n == q * d + m
    ensures n / d == q && n % d == m
  {
    var q', m' := n / d, n % d;
    assert n == q' * d + m';
    if q' < q {
      MulMono(q' + 1, q, d);
      MulSucc(q', d);
    } else if q < q' {
      MulMono(q + 1, q', d);
      MulSucc(q, d);
    }
  }

  /** `n / d * d` is the largest multiple of `d` at or below `n`. */
  lemma DivBounds(n: int, d: int)
    requires 0 < d
    ensures (n / d) * d <= n < (n / d + 1) * d
  {
    MulSucc(n / d, d);
  }
}
