/** Remainders by a variable modulus. */
module Modulo {
  lemma SmallMod(a: nat, n: nat)
    requires a < n
    ensures a % n == a
  {
  }

  /** Adding a whole turn changes nothing. */
  lemma ModTurn(a: nat, n: nat)
    requires n > 0
    ensures (a + n) % n == a % n
  {
    var q := a / n;
    assert a == n * q + a % n;
    assert a + n == n * (q + 1) + a % n;
    ModUnique(a + n, n, q + 1, a % n);
  }

  /** Quotient and remainder are unique. */
  lemma ModUnique(x: nat, n: nat, q: nat, w: nat)
    requires w < n && x == n * q + w
    ensures x % n == w && x / n == q
  {
    var d := q - x / n;
    assert x == n * (x / n) + x % n;
    assert n * d == x % n - w;
    Scaled(n, d);
  }

  lemma Scaled(n: nat, d: int)
    ensures d >= 1 ==> n * d >= n
    ensures d <= -1 ==> n * d + n <= 0
  {
    if d >= 1 { assert n * (d - 1) >= 0; }
    if d <= -1 { assert n * (-d - 1) >= 0; }
  }
}
