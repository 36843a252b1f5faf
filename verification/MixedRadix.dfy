/** Positions written with a quotient and a remainder, for all divisors. */
module MixedRadix {

  type Positive = n: int | 0 < n witness 1

  lemma MulMonotone(a: nat, b: nat, m: nat)
    requires a <= b
    ensures a * m <= b * m
  {
    assert (b - a) * m >= 0;
    assert b * m == a * m + (b - a) * m;
  }

  /** Digit `r` of block `q` lies inside `n` blocks. */
  lemma InBlock(q: nat, n: nat, m: nat, r: nat)
    requires q < n && r < m
    ensures q * m + r < n * m
  {
    MulMonotone(q + 1, n, m);
    assert (q + 1) * m == q * m + m;
  }

  lemma QuotientBounds(k: nat, m: nat)
    requires m > 0
    ensures k == k / m * m + k % m && 0 <= k % m < m && 0 <= k / m
  {
  }

  /** The quotient and the remainder are determined by the number they stand for. */
  lemma DigitsUnique(q: nat, r: nat, q': nat, r': nat, m: nat)
    requires r < m && r' < m && q * m + r == q' * m + r'
    ensures q == q' && r == r'
  {
    assert (q + 1) * m == q * m + m && (q' + 1) * m == q' * m + m;
    if q < q' { MulMonotone(q + 1, q', m); }
    if q' < q { MulMonotone(q' + 1, q, m); }
  }

  lemma DigitsDecode(q: nat, r: nat, m: nat)
    requires r < m
    ensures (q * m + r) / m == q && (q * m + r) % m == r
  {
    var k := q * m + r;
    QuotientBounds(k, m);
    DigitsUnique(q, r, k / m, k % m, m);
  }

  /** Below `n` blocks the quotient is below `n`. */
  lemma QuotientInRange(k: nat, n: nat, m: nat)
    requires k < n * m
    ensures m > 0 && k / m < n && k % m < m && k == k / m * m + k % m
  {
    assert m > 0;
    QuotientBounds(k, m);
    if n <= k / m { MulMonotone(n, k / m, m); }
  }
}
