/** Remainders by a modulus that is not a constant. */
module Remainders {

  lemma MulAtLeast(m: int, d: int)
    requires m > 0 && d >= 1
    ensures m * d >= m
  {
  }

  lemma QuotientUnique(m: int, q: int, r: int, q': int, r': int)
    requires 0 <= r < m && 0 <= r' < m && m * q + r == m * q' + r'
    ensures q == q' && r == r'
  {
    assert m * (q - q') == r' - r && m * (q' - q) == r - r';
    if q > q' {
      MulAtLeast(m, q - q');
    } else if q < q' {
      MulAtLeast(m, q' - q);
    }
  }

  lemma DivModUnique(m: int, q: int, r: int)
    requires 0 <= r < m
    ensures (m * q + r) % m == r && (m * q + r) / m == q
  {
    var x := m * q + r;
    QuotientUnique(m, q, r, x / m, x % m);
  }

  lemma ModPlusMultiple(x: int, k: int, m: int)
    requires m > 0
    ensures (x + m * k) % m == x % m
  {
    assert x + m * k == m * (x / m + k) + x % m;
    DivModUnique(m, x / m + k, x % m);
  }

  /** Equal remainders mean a difference that is a multiple. */
  lemma SameRemainder(x: int, y: int, m: int)
    requires m > 0
    ensures x % m == y % m <==> (x - y) % m == 0
  {
    if x % m == y % m {
      assert x - y == m * (x / m - y / m) + 0;
      DivModUnique(m, x / m - y / m, 0);
    }
    if (x - y) % m == 0 {
      assert x == y + m * ((x - y) / m);
      ModPlusMultiple(y, (x - y) / m, m);
    }
  }

  lemma ModAdd(x: int, y: int, m: int)
    requires m > 0
    ensures (x % m + y % m) % m == (x + y) % m
  {
    assert x + y == x % m + y % m + m * (x / m + y / m);
    ModPlusMultiple(x % m + y % m, x / m + y / m, m);
  }

  lemma ModMul(x: int, k: int, m: int)
    requires m > 0
    ensures (k * (x % m)) % m == (k * x) % m
  {
    var q := x / m;
    assert x == m * q + x % m;
    assert k * x == k * (x % m) + m * (k * q) by {
      assert k * (m * q) == m * (k * q);
    }
    ModPlusMultiple(k * (x % m), k * q, m);
  }

  lemma HalfMod(a: nat, m: nat)
    requires m > 0
    ensures a % (2 * m) == 2 * (a / 2 % m) + a % 2 && a % (2 * m) / 2 == a / 2 % m && a % (2 * m) % 2 == a % 2
  {
    var q, r := a / 2 / m, a / 2 % m;
    assert a / 2 == m * q + r && a == 2 * (m * q + r) + a % 2;
    assert 2 * (m * q) == 2 * m * q;
    DivModUnique(2 * m, q, 2 * r + a % 2);
  }
}
