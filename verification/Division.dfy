/** Quotients and remainders of variable divisors. */
module Division {
  lemma AtLeastOnce(k: int, d: nat)
    requires k >= 1
    ensures k * d >= d
  {
  }

  /** Quotient and remainder are unique. */
  lemma DivModUnique(x: int, d: nat, q: int, r: nat)
    requires r < d && x == q * d + r
    ensures x / d == q && x % d == r
  {
    var p := x / d;
    assert x == p * d + x % d;
    assert (q - p) * d == x % d - r && (p - q) * d == r - x % d;
    if p < q {
      AtLeastOnce(q - p, d);
    } else if q < p {
      AtLeastOnce(p - q, d);
    }
  }

  /** How a multiple compares with another shows in its quotient. */
  lemma MultipleOrder(i: nat, j: nat, d: nat)
    requires d > 0 && i % d == 0
    ensures i / d >= j <==> i >= j * d
    ensures i / d == j <==> i == j * d
  {
    var p := i / d;
    assert i == p * d;
    assert (p - j) * d == i - j * d && (j - p) * d == j * d - i;
    if p < j {
      AtLeastOnce(j - p, d);
    } else if p > j {
      AtLeastOnce(p - j, d);
    }
  }
}
