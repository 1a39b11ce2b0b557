/** A remainder is determined by its quotient. */
module Remainders {
  lemma AtLeastOnce(n: nat, k: int)
    requires k >= 1
    ensures n * k >= n
  {
  }

  lemma SameQuotient(n: nat, k: int, y: nat, q: int, z: nat)
    requires n * k + y == n * q + z && y < n && z < n
    ensures y == z
  {
    assert n * (q - k) == n * q - n * k && n * (k - q) == n * k - n * q;
    if q > k {
      AtLeastOnce(n, q - k);
    } else if q < k {
      AtLeastOnce(n, k - q);
    }
  }

  lemma RemainderUnique(n: nat, k: int, y: nat)
    requires y < n
    ensures (n * k + y) % n == y
  {
    var x := n * k + y;
    assert x == n * (x / n) + x % n;
    SameQuotient(n, k, y, x / n, x % n);
  }

  lemma AddMultiple(m: nat, x: nat, k: nat)
    requires m > 0
    ensures (m * k + x) % m == x % m
  {
    var q, r := x / m, x % m;
    assert x == m * q + r;
    assert m * k + x == m * (k + q) + r by {
      assert m * (k + q) == m * k + m * q;
    }
    RemainderUnique(m, k + q, r);
  }

  lemma RemainderFirst(m: nat, x: nat, y: nat)
    requires m > 0
    ensures (x % m + y) % m == (x + y) % m
  {
    var q := x / m;
    assert x == m * q + x % m;
    AddMultiple(m, x % m + y, q);
  }
}
