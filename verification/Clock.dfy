/** The time arithmetic of ducknet/lib/utils.cpp. */
module Clock {
  import opened Remainders

  /** mul_div: both factors are divided by d first, so that the products stay small. */
  function MulDiv(a: int, b: int, d: int): int
    requires d > 0
  {
    Parts(a / d, a % d, b / d, b % d, d)
  }

  function Parts(x: int, y: int, u: int, v: int, d: int): int
    requires d > 0
  {
    x * u * d + x * v + y * u + y * v / d
  }

  lemma Spread(x: int, y: int, u: int, v: int, d: int)
    ensures (d * x + y) * (d * u + v) == d * (x * u * d + x * v + y * u) + y * v
  {
    calc {
      (d * x + y) * (d * u + v);
      (d * x + y) * (d * u) + (d * x + y) * v;
      (d * x) * (d * u) + y * (d * u) + (d * x) * v + y * v;
      { assert (d * x) * (d * u) == d * (x * u * d) && y * (d * u) == d * (y * u) && (d * x) * v == d * (x * v); }
      d * (x * u * d) + d * (y * u) + d * (x * v) + y * v;
    }
  }

  lemma Collect(w: int, p: int, d: int)
    requires d > 0
    ensures (d * w + p) / d == w + p / d
  {
    assert d * w + p == d * (w + p / d) + p % d;
    DivModUnique(d, w + p / d, p % d);
  }

  /** mul_div is the exact rounded-down quotient of the product. */
  lemma MulDivExact(a: int, b: int, d: int)
    requires d > 0
    ensures MulDiv(a, b, d) == a * b / d
  {
    hide Parts;
    var x, y, u, v := a / d, a % d, b / d, b % d;
    assert a == d * x + y;
    assert b == d * u + v;
    PartsExact(a, b, x, y, u, v, d);
  }

  lemma PartsExact(a: int, b: int, x: int, y: int, u: int, v: int, d: int)
    requires d > 0 && a == d * x + y && b == d * u + v
    ensures Parts(x, y, u, v, d) == a * b / d
  {
    var w, p := x * u * d + x * v + y * u, y * v;
    assert a * b == d * w + p by {
      Spread(x, y, u, v, d);
    }
    assert Parts(x, y, u, v, d) == w + p / d;
    Collect(w, p, d);
  }

  function AddMs(t: nat, ms: nat, freq: nat): (r: nat)
    ensures r == t + ms * freq / 1000
  {
    MulDivExact(ms, freq, 1000);
    t + MulDiv(ms, freq, 1000)
  }
}
