/** Facts about multiples and remainders that the cursor, the breaker and the rotation share. */
module Arithmetic {
  lemma WrapOnce(n: nat, x: nat)
    requires x < 2 * n
    ensures x % n == if x < n then x else x - n
  {
    if x >= n {
      assert x == n + (x - n);
    }
  }

  lemma CancelLess(x: int, y: int, n: nat)
    requires x * n < y * n
    ensures x < y
  {
    assert (y - x) * n == y * n - x * n;
  }

  lemma NextMultiple(x: int, n: int)
    ensures (x + 1) * n == x * n + n
  {
  }

  lemma DivisionBounds(n: nat, m: nat, q: nat)
    requires n > 0 && q * n <= m + n - 1 && m <= q * n + n - 1
    ensures m / n <= q <= (m + n - 1) / n
  {
    var up := (m + n - 1) / n;
    NextMultiple(q, n);
    NextMultiple(up, n);
    CancelLess(m / n, q + 1, n);
    CancelLess(q, up + 1, n);
  }

  lemma FitsInDivision(k: nat, elapsed: nat, n: nat)
    requires n > 0 && k * n <= elapsed
    ensures k <= elapsed / n
  {
    var q := elapsed / n;
    NextMultiple(q, n);
    CancelLess(k, q + 1, n);
  }
}
