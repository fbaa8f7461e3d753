// Quotients of natural numbers.
module Numbers {

  lemma Multiples(a: nat, b: nat, n: nat)
    requires a <= b
    ensures a * n <= b * n
  {
  }

  // The quotient is told by its multiples.
  lemma QuotientIs(x: nat, n: nat, q: nat)
    requires n > 0 && q * n <= x < (q + 1) * n
    ensures x / n == q
  {
    var p := x / n;
    assert p * n <= x < (p + 1) * n;
    if p < q {
      Multiples(p + 1, q, n);
    } else if q < p {
      Multiples(q + 1, p, n);
    }
  }
}
