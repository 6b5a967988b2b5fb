/** Counting on, modulo a length. */
module Modulo {
  lemma NextModulo(a: nat, n: nat)
    requires n > 0
    ensures (a + 1) % n == if a % n + 1 >= n then 0 else a % n + 1
  {
    var q, r := a / n, a % n;
    assert a == n * q + r;
    if r + 1 >= n {
      assert n * (q + 1) == n * q + n;
      ModuloIs(a + 1, n, q + 1, 0);
    } else {
      ModuloIs(a + 1, n, q, r + 1);
    }
  }

  lemma ModuloIs(a: nat, n: nat, q: nat, r: nat)
    requires r < n && a == n * q + r
    ensures a % n == r
  {
    var d: int := a / n - q;
    assert n * (a / n) - n * q == n * d;
    assert d >= 1 ==> n * d >= n;
    assert d <= -1 ==> n * d <= n * -1;
  }

  lemma SmallModulo(a: nat, n: nat)
    requires a < n
    ensures a % n == a
  {
    ModuloIs(a, n, 0, a);
  }
}
