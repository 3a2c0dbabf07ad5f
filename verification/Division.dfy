/** Facts about multiplication and division by a variable, kept apart from the proofs that use them. */
module Division {

  lemma ProductBound(x: nat, y: nat, m: nat, n: nat)
    requires x <= m && y <= n
    ensures x * y <= m * n
  {
    assert m * n == x * y + (m - x) * y + m * (n - y);
  }

  lemma Successor(j: nat, count: nat)
    ensures (j + 1) * count == j * count + count
  {
  }

  lemma NextMultiple(j: nat, k: nat, count: nat)
    requires j < k
    ensures j * count + count <= k * count
  {
    ProductBound(j + 1, count, k, count);
    Successor(j, count);
  }

  /** The quotient is the only k whose block [k * count, (k + 1) * count) holds d. */
  lemma BlockOf(d: nat, count: nat, k: nat)
    requires count > 0
    requires k * count <= d < k * count + count
    ensures d / count == k && d % count == d - k * count
  {
    var q := d / count;
    if q < k {
      NextMultiple(q, k, count);
    } else if q > k {
      NextMultiple(k, q, count);
    }
  }

  lemma QuotientBound(d: nat, count: nat, limit: nat)
    requires count > 0 && d < limit * count
    ensures d / count < limit
  {
    var q := d / count;
    assert q * count <= d;
    if q >= limit {
      ProductBound(limit, count, q, count);
    }
  }
}
