/** The uniqueness of quotient and remainder, for a symbolic divisor. */
module Mods {

  lemma MulBound(k: int, n: int)
    requires n > 0
    ensures k >= 1 ==> k * n >= n
    ensures k <= -1 ==> k * n <= -n
  {
    if k >= 1 {
      assert k * n == n + (k - 1) * n;
    } else if k <= -1 {
      assert k * n == (k + 1) * n - n;
    }
  }

  lemma DivModUnique(x: int, n: int, q: int, r: int)
    requires 0 <= r < n && x == q * n + r
    ensures x / n == q && x % n == r
  {
    var k := x / n - q;
    assert x == (x / n) * n + x % n;
    assert k * n == (x / n) * n - q * n;
    MulBound(k, n);
  }

  lemma DivModParts(x: nat, n: nat)
    requires n > 0
    ensures x == (x / n) * n + x % n && x / n >= 0 && 0 <= x % n < n
  {
  }
}
