/** Small facts of integer arithmetic that the solver does not find on its own. */
module Arith {

  lemma MulMonotone(a: int, b: int, c: nat)
    requires a <= b
    ensures a * c <= b * c
  {
  }

  lemma MulSucc(p: int, s: int)
    ensures (p + 1) * s == p * s + s
  {
  }

  /** Quotient and remainder are the unique q, r with a == q * s + r and 0 <= r < s. */
  lemma DivModUnique(a: int, s: int, q: int, r: int)
    requires s > 0 && 0 <= r < s && a == q * s + r
    ensures a / s == q && a % s == r
  {
    var q', r' := a / s, a % s;
    assert a == q' * s + r';
    if q < q' {
      MulMonotone(q + 1, q', s);
      assert false;
    } else if q' < q {
      MulMonotone(q' + 1, q, s);
      assert false;
    }
  }
}
