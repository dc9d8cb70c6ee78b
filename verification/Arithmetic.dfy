/** Facts of nonlinear arithmetic, kept small. */
module Arithmetic {
  lemma DivUnique(q: nat, r: nat, p: nat)
    requires r < p
    ensures (q * p + r) / p == q && (q * p + r) % p == r
  {
    var a := q * p + r;
    assert a == a / p * p + a % p;
    if a / p < q { MulStep(a / p, q, p); }
    if a / p > q { MulStep(q, a / p, p); }
  }

  lemma MulStep(a: int, b: int, p: nat)
    requires a < b
    ensures a * p + p <= b * p
  {
    assert (a + 1) * p <= b * p;
  }
}
