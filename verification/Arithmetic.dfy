/** The few facts about products and quotients the other modules need. */
module Arithmetic {

  lemma CancelFactor(a: int, b: int, c: nat)
    requires a * c < b * c
    ensures a < b
  {
    assert a >= b ==> (a - b) * c >= 0;
  }

  /** Quotient and remainder are unique. */
  lemma DivisionUnique(p: nat, q: nat, d: nat, r: nat)
    requires r < d && p == q * d + r
    ensures p / d == q && p % d == r
  {
    var q', r' := p / d, p % d;
    assert p == q' * d + r';
    assert q' * d < (q + 1) * d by {
      assert (q + 1) * d == q * d + d;
    }
    assert q * d < (q' + 1) * d by {
      assert (q' + 1) * d == q' * d + d;
    }
    CancelFactor(q', q + 1, d);
    CancelFactor(q, q' + 1, d);
  }
}
