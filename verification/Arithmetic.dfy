/** Division facts that the verifier does not find by itself. */
module Arithmetic {

  lemma SmallMultiple(x: int, p: int)
    requires p > 0 && -p < x * p < p
    ensures x == 0
  {
    assert x >= 1 ==> x * p >= p;
    assert x <= -1 ==> x * p <= -p;
  }

  /** Quotient and remainder are the only numbers that fit. */
  lemma DivModUnique(n: nat, p: nat, q: nat, r: nat)
    requires p > 0 && n == q * p + r && r < p
    ensures n / p == q && n % p == r
  {
    var q', r' := n / p, n % p;
    assert n == q' * p + r';
    assert (q' - q) * p == q' * p - q * p;
    SmallMultiple(q' - q, p);
  }

  /** Numbers less than n apart have different remainders. */
  lemma ModDistinct(a: nat, b: nat, n: nat)
    requires a < b < a + n
    ensures a % n != b % n
  {
    var q, r := a / n, b / n;
    assert a == q * n + a % n && b == r * n + b % n;
    assert (r - q) * n == r * n - q * n;
    if a % n == b % n {
      SmallMultiple(r - q, n);
    }
  }

  lemma ModNext(a: nat, n: nat)
    requires 0 < n
    ensures (a + 1) % n == if a % n + 1 == n then 0 else a % n + 1
  {
    var q, r := a / n, a % n;
    assert a == q * n + r;
    if r + 1 == n {
      assert a + 1 == (q + 1) * n;
      DivModUnique(a + 1, n, q + 1, 0);
    } else {
      DivModUnique(a + 1, n, q, r + 1);
    }
  }
}
