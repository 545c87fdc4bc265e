/** Two facts of integer arithmetic the solver needs spelled out when the
    operands are not constants. */
module Arith {

  lemma MulLe(a: nat, b: nat, c: nat)
    requires b <= c
    ensures a * b <= a * c && b * a <= c * a
  {
    assert a * c == a * b + a * (c - b);
  }

  /** Euclidean division has exactly one quotient and remainder. */
  lemma DivModUnique(m: int, c: int, q: int, s: int)
    requires c > 0 && 0 <= s < c
    requires m == q * c + s
    ensures m / c == q && m % c == s
  {
    var t := q - m / c;
    assert t * c == m % c - s by {
      assert m == (m / c) * c + m % c;
      assert t * c == q * c - (m / c) * c;
    }
    if t >= 1 {
      MulLe(c, 1, t);
      assert false;
    }
  }
}
