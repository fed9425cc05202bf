/** The arithmetic behind kern/solver_faster.cpp: a window of digits gets prefix sums weighted by
    powers of ten modulo M, and equal prefix sums reveal substrings divisible by M. */
module SolverArithmetic {
  import opened Remainders

  const WINDOW: nat := 256
  const MAX_BATCH: nat := 400
  const SIZE: nat := 656
  const SEED: nat := 233333333

  const M1: nat := 299236546
  const M2: nat := 1046482571183 * 100000000000000 + 48370704723401
  const M3: nat := 500000000000000243
  const M4: nat := 387420489

  ghost predicate Digits(ds: seq<int>) {
    forall i :: 0 <= i < |ds| ==> 0 <= ds[i] <= 9
  }

  function Pow10(k: nat): (r: nat)
    ensures r > 0
  {
    if k == 0 then 1 else 10 * Pow10(k - 1)
  }

  /** The number a string of digits denotes. */
  function Value(ds: seq<int>): int {
    if ds == [] then 0 else 10 * Value(ds[..|ds| - 1]) + ds[|ds| - 1]
  }

  /** The first n digits of the buffer, digit i weighted by 10^(655 - i). */
  ghost function RawSum(ds: seq<int>, n: nat): int
    requires n <= |ds| && n <= SIZE
  {
    if n == 0 then 0 else RawSum(ds, n - 1) + ds[n - 1] * Pow10(SIZE - n)
  }

  /** The running sum after n digits. */
  ghost function PrefixSum(ds: seq<int>, n: nat, m: nat): (r: nat)
    requires n <= |ds| && n <= SIZE && m > 0
    ensures r < m
  {
    (SEED + RawSum(ds, n)) % m
  }

  /** The addition of a T, an unsigned machine type of w values, brought back below m. */
  function AddMod(a: nat, b: nat, m: nat, w: nat): (r: nat)
    requires 0 < 2 * m <= w && a < m && b < m
    ensures r < m && r == (a + b) % m
  {
    AddModCorrect(a, b, m, w);
    var sum := (a + b) % w;
    if sum >= m then sum - m else sum
  }

  lemma AddModCorrect(a: nat, b: nat, m: nat, w: nat)
    requires 0 < 2 * m <= w && a < m && b < m
    ensures (a + b) % w == a + b
    ensures (a + b) % m == if a + b >= m then a + b - m else a + b
  {
    DivModUnique(w, 0, a + b);
    if a + b >= m {
      DivModUnique(m, 1, a + b - m);
    } else {
      DivModUnique(m, 0, a + b);
    }
  }

  // ----- prefix sums and values

  lemma {:induction false} ValueAppend(ds: seq<int>, i: nat, j: nat, n: nat)
    requires i <= j < n <= |ds|
    ensures Value(ds[i..j + 1]) == 10 * Value(ds[i..j]) + ds[j]
  {
    assert ds[i..j + 1][..j - i] == ds[i..j];
  }

  /** Two prefix sums differ by the value of the digits between them, shifted by a power of ten. */
  lemma {:induction false} RawSumDifference(ds: seq<int>, v: nat, n: nat)
    requires v <= n <= |ds| && n <= SIZE
    ensures RawSum(ds, n) - RawSum(ds, v) == Value(ds[v..n]) * Pow10(SIZE - n)
    decreases n
  {
    if n == v {
      assert ds[v..n] == [];
    } else {
      RawSumDifference(ds, v, n - 1);
      ValueAppend(ds, v, n - 1, n);
      assert Pow10(SIZE - (n - 1)) == 10 * Pow10(SIZE - n);
      NextDigit(Value(ds[v..n - 1]), ds[n - 1], Pow10(SIZE - n));
    }
  }

  lemma NextDigit(x: int, d: int, p: int)
    ensures x * (10 * p) + d * p == (10 * x + d) * p
  {
  }

  /** The test of the solver: equal sums before and after a substring, exactly when M divides its
      value times a power of ten fixed by where it ends. */
  lemma SumsEqualIff(ds: seq<int>, v: nat, n: nat, m: nat)
    requires v <= n <= |ds| && n <= SIZE && m > 0
    ensures PrefixSum(ds, n, m) == PrefixSum(ds, v, m) <==> (Value(ds[v..n]) * Pow10(SIZE - n)) % m == 0
  {
    RawSumDifference(ds, v, n);
    SameRemainder(SEED + RawSum(ds, n), SEED + RawSum(ds, v), m);
  }

  lemma InverseTimes(x: int, m: nat, inv: nat, k: nat)
    requires 10 * inv == 1 + m * k
    ensures inv * (10 * x) == x + m * (k * x)
  {
    calc {
      inv * (10 * x);
      (10 * inv) * x;
      (1 + m * k) * x;
      x + (m * k) * x;
      x + m * (k * x);
    }
  }

  /** With an inverse of ten modulo m, a factor of ten can be dropped. */
  lemma CancelTen(x: int, m: nat, inv: nat, k: nat)
    requires m > 0 && 10 * inv == 1 + m * k
    ensures (10 * x) % m == 0 <==> x % m == 0
  {
    ModMul(x, 10, m);
    ModMul(10 * x, inv, m);
    InverseTimes(x, m, inv, k);
    ModPlusMultiple(x, k * x, m);
    var a, b := (10 * x) % m, x % m;
    assert b == 0 ==> 10 * b == 0;
    assert a == 0 ==> inv * a == 0;
    DivModUnique(m, 0, 0);
  }

  lemma {:induction false} CancelPow10(x: int, e: nat, m: nat, inv: nat, k: nat)
    requires m > 0 && 10 * inv == 1 + m * k
    ensures (x * Pow10(e)) % m == 0 <==> x % m == 0
  {
    if e == 0 {
    } else {
      CancelPow10(x, e - 1, m, inv, k);
      CancelTen(x * Pow10(e - 1), m, inv, k);
      assert x * Pow10(e) == 10 * (x * Pow10(e - 1));
    }
  }

  /** M2, M3 and M4 are coprime to ten: for them the test is divisibility of the value. */
  ghost predicate CoprimeToTen(m: nat) {
    m == M2 || m == M3 || m == M4
  }

  lemma CoprimeTest(x: int, e: nat, m: nat)
    requires CoprimeToTen(m)
    ensures (x * Pow10(e)) % m == 0 <==> x % m == 0
  {
    if m == M2 {
      CancelPow10(x, e, M2, 94183431406513533634251061, 9);
    } else if m == M3 {
      CancelPow10(x, e, M3, 150000000000000073, 3);
    } else {
      CancelPow10(x, e, M4, 38742049, 1);
    }
  }

  /** M1 is twice an odd number H coprime to ten.  Short of the last place of the buffer the factor
      of ten supplies the two, and the test for M1 is divisibility by H only. */
  const H: nat := 149618273

  /** H is odd. */
  lemma EvenMultiple(q: int)
    requires (H * q) % 2 == 0
    ensures q % 2 == 0
  {
    assert H * q == 2 * (74809136 * q) + q;
  }

  lemma MultipleOfM1(k: int)
    ensures (M1 * k) % M1 == 0 && (M1 * k) % H == 0 && (M1 * k) % 2 == 0
  {
    assert M1 * k == H * (2 * k) == 2 * (H * k);
    DivModUnique(M1, k, 0);
    DivModUnique(H, 2 * k, 0);
    DivModUnique(2, H * k, 0);
  }

  lemma M1MultipleIff(x: int)
    ensures x % M1 == 0 <==> x % H == 0 && x % 2 == 0
  {
    if x % M1 == 0 {
      MultipleOfM1(x / M1);
    } else if x % H == 0 && x % 2 == 0 {
      var q := x / H;
      EvenMultiple(q);
      assert x == M1 * (q / 2);
      MultipleOfM1(q / 2);
    }
  }

  lemma TenTest(y: int)
    ensures (10 * y) % M1 == 0 <==> (10 * y) % H == 0
  {
    assert 10 * y == 2 * (5 * y);
    DivModUnique(2, 5 * y, 0);
    M1MultipleIff(10 * y);
  }

  lemma M1Test(x: int, e: nat)
    ensures (x * Pow10(e)) % M1 == 0 <==> if e == 0 then x % M1 == 0 else x % H == 0
  {
    if e == 0 {
      assert x * Pow10(0) == x;
    } else {
      var y := x * Pow10(e - 1);
      assert x * Pow10(e) == 10 * y;
      TenTest(y);
      CancelPow10(x, e, H, 44885482, 3);
    }
  }
}
