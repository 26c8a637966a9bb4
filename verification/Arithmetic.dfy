/** Remainders by a variable divisor. */
module Arithmetic {

  lemma Multiples(x: int, d: nat)
    ensures x >= 1 ==> x * d >= d
    ensures x <= -1 ==> x * d <= 0 - d
  {
  }

  /** Quotient and remainder are unique. */
  lemma ModOf(n: nat, d: nat, q: nat, r: nat)
    requires r < d && n == q * d + r
    ensures n % d == r && n / d == q
  {
    var p := n / d;
    assert n == p * d + n % d;
    assert (p - q) * d == r - n % d;
    Multiples(p - q, d);
  }

  lemma NextMod(n: nat, d: nat)
    requires d > 0
    ensures (n + 1) % d == if n % d + 1 == d then 0 else n % d + 1
    ensures (n + 1) / d == n / d + if n % d + 1 == d then 1 else 0
  {
    var q, r := n / d, n % d;
    assert n == q * d + r;
    if r + 1 == d {
      assert n + 1 == (q + 1) * d;
      ModOf(n + 1, d, q + 1, 0);
    } else {
      ModOf(n + 1, d, q, r + 1);
    }
  }
}
