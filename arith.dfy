/** Facts about multiplication and Euclidean division of natural numbers that
    the index arithmetic of the grid and of the work partition rests on. */
module Arith {

  /** Multiplication by a natural number is monotonic. */
  lemma {:induction false} MulMono(a: nat, b: nat, c: nat)
    requires a <= b
    ensures a * c <= b * c
    decreases b - a
  {
    if a < b {
      MulMono(a, b - 1, c);
      assert b * c == (b - 1) * c + c;
    }
  }

  lemma MulSucc(a: nat, c: nat)
    ensures (a + 1) * c == a * c + c
  {
  }

  lemma MulStrict(a: nat, b: nat, c: nat)
    requires a * c < b * c
    ensures a < b
  {
    if b <= a {
      MulMono(b, a, c);
    }
  }

  /** Euclidean division has a unique quotient and remainder. */
  lemma DivModUnique(k: nat, d: nat, q: nat, r: nat)
    requires r < d && k == q * d + r
    ensures k / d == q && k % d == r
  {
    var q' := k / d;
    assert k == q' * d + k % d;
    assert (q + 1) * d == q * d + d;
    assert (q' + 1) * d == q' * d + d;
    MulStrict(q', q + 1, d);
    MulStrict(q, q' + 1, d);
  }
}
