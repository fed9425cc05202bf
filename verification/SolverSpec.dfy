/** What the solver reports, as a plain search: for every received digit, the substrings of at most
    256 digits ending there that the test accepts and the reporter does not filter out, shortest first. */
module SolverSpec {
  import opened Machine
  import opened Remainders
  import opened SolverArithmetic

  /** The filters of report_digits: no leading zero, and not too short for the modulus to matter. */
  predicate Passes(s: seq<int>, mNumber: int)
    requires s != []
  {
    && s[0] != 0
    && !(mNumber == 1 && |s| < 14)
    && !(mNumber == 2 && |s| < 27)
    && !(mNumber == 3 && |s| < 54)
    && !(mNumber == 4 && |s| < 68)
  }

  /** The 64-bit hash key after n digits of the buffer. */
  ghost function Key(ds: seq<int>, n: nat, m: nat): nat
    requires n <= |ds| && n <= SIZE && m > 0
  {
    PrefixSum(ds, n, m) % TWO64
  }

  /** The reports for the digit at place q of the buffer, among substrings starting at n or before. */
  ghost function Scan(ds: seq<int>, q: nat, m: nat, mNumber: int, n: nat): seq<seq<int>>
    requires n <= q < |ds| && q < SIZE && m > 0
    decreases n
  {
    if n == 0 then []
    else
      (if Key(ds, n, m) == Key(ds, q + 1, m) && q + 1 - n <= WINDOW && Passes(ds[n..q + 1], mNumber)
       then [ds[n..q + 1]] else [])
      + Scan(ds, q, m, mNumber, n - 1)
  }

  /** The reports for the first k digits of a batch that stands behind the window. */
  ghost function ScanBatch(ds: seq<int>, k: nat, m: nat, mNumber: int): seq<seq<int>>
    requires WINDOW + k <= |ds| && WINDOW + k <= SIZE && m > 0
  {
    if k == 0 then []
    else ScanBatch(ds, k - 1, m, mNumber) + Scan(ds, WINDOW + k - 1, m, mNumber, WINDOW + k - 1)
  }

  /** The naive search over a stream t: substrings ending at p and starting at n or before. */
  ghost function Naive(t: seq<int>, p: nat, m: nat, mNumber: int, n: nat): seq<seq<int>>
    requires n <= p < |t| && m > 0
    decreases n
  {
    if n + WINDOW < p + 1 then []
    else
      (if Value(t[n..p + 1]) % m == 0 && Passes(t[n..p + 1], mNumber) then [t[n..p + 1]] else [])
      + if n == 0 then [] else Naive(t, p, m, mNumber, n - 1)
  }

  /** The naive search for all the digits of t from a on. */
  ghost function NaiveAll(t: seq<int>, a: nat, b: nat, m: nat, mNumber: int): seq<seq<int>>
    requires a <= b <= |t| && m > 0
    decreases b
  {
    if a == b then [] else NaiveAll(t, a, b - 1, m, mNumber) + Naive(t, b - 1, m, mNumber, b - 1)
  }

  /** x is the substring from k to p, of at most 256 digits, divisible by m and not filtered. */
  ghost predicate Found(t: seq<int>, k: int, p: nat, m: nat, mNumber: int, x: seq<int>)
    requires p < |t| && m > 0
  {
    && 0 <= k <= p && p + 1 - k <= WINDOW && x == t[k..p + 1]
    && Value(x) % m == 0 && Passes(x, mNumber)
  }

  /** The naive search finds exactly the divisible substrings of at most 256 digits that pass. */
  lemma {:induction false} NaiveExact(t: seq<int>, p: nat, m: nat, mNumber: int, n: nat, x: seq<int>)
    requires n <= p < |t| && m > 0
    ensures x in Naive(t, p, m, mNumber, n) <==> exists k :: k <= n && Found(t, k, p, m, mNumber, x)
    decreases n
  {
    hide Naive, Value, Passes;
    assert Found(t, n, p, m, mNumber, x) <==> Found(t, n, p, m, mNumber, t[n..p + 1]) && x == t[n..p + 1];
    if n == 0 {
      NaiveBase(t, p, m, mNumber);
    } else {
      NaiveStep(t, p, m, mNumber, n);
      NaiveExact(t, p, m, mNumber, n - 1, x);
    }
  }

  lemma NaiveBase(t: seq<int>, p: nat, m: nat, mNumber: int)
    requires p < |t| && m > 0
    ensures Naive(t, p, m, mNumber, 0) == if Found(t, 0, p, m, mNumber, t[0..p + 1]) then [t[0..p + 1]] else []
  {
    hide Value, Passes;
  }

  lemma NaiveStep(t: seq<int>, p: nat, m: nat, mNumber: int, n: nat)
    requires 0 < n <= p < |t| && m > 0
    ensures Naive(t, p, m, mNumber, n) ==
            (if Found(t, n, p, m, mNumber, t[n..p + 1]) then [t[n..p + 1]] else []) + Naive(t, p, m, mNumber, n - 1)
  {
    hide Value, Passes;
  }

  // ----- the buffer search is the naive search

  lemma KeyIsSum(ds: seq<int>, n: nat, m: nat)
    requires n <= |ds| && n <= SIZE && 0 < m <= TWO64
    ensures Key(ds, n, m) == PrefixSum(ds, n, m)
  {
    hide RawSum;
    var x := PrefixSum(ds, n, m);
    DivModUnique(TWO64, 0, x);
  }

  /** For M3 and M4, whose sums fit in a key, equal keys mean a divisible substring. */
  lemma KeysEqualIff(ds: seq<int>, n: nat, q: nat, m: nat)
    requires n <= q < |ds| && q < SIZE && (m == M3 || m == M4)
    ensures Key(ds, n, m) == Key(ds, q + 1, m) <==> Value(ds[n..q + 1]) % m == 0
  {
    hide Key, PrefixSum, Value;
    KeyIsSum(ds, n, m);
    KeyIsSum(ds, q + 1, m);
    SumsEqualIff(ds, n, q + 1, m);
    CoprimeTest(Value(ds[n..q + 1]), SIZE - (q + 1), m);
  }

  /** M2 keys are the low half of the sums: a divisible substring always has equal keys. */
  lemma M2NeverMisses(ds: seq<int>, n: nat, q: nat)
    requires n <= q < |ds| && q < SIZE && Value(ds[n..q + 1]) % M2 == 0
    ensures Key(ds, n, M2) == Key(ds, q + 1, M2)
  {
    hide PrefixSum, Value;
    SumsEqualIff(ds, n, q + 1, M2);
    CoprimeTest(Value(ds[n..q + 1]), SIZE - (q + 1), M2);
  }

  /** M1 keys are equal for multiples of half of M1, except at the last place of a full batch. */
  lemma M1KeysEqualIff(ds: seq<int>, n: nat, q: nat)
    requires n <= q < |ds| && q < SIZE
    ensures Key(ds, n, M1) == Key(ds, q + 1, M1) <==>
            Value(ds[n..q + 1]) % (if q + 1 == SIZE then M1 else H) == 0
  {
    hide Key, PrefixSum, Value;
    KeyIsSum(ds, n, M1);
    KeyIsSum(ds, q + 1, M1);
    SumsEqualIff(ds, n, q + 1, M1);
    M1Test(Value(ds[n..q + 1]), SIZE - (q + 1));
  }

  /** With modulus m, the keys around a substring that ends at place q tell whether d divides it. */
  ghost predicate TestsFor(m: nat, d: nat, q: nat) {
    if m == M1 then d == (if q + 1 == SIZE then M1 else H) else d == m && (m == M3 || m == M4)
  }

  lemma KeysTest(ds: seq<int>, n: nat, q: nat, m: nat, d: nat)
    requires n <= q < |ds| && q < SIZE && TestsFor(m, d, q)
    ensures m > 0 && d > 0 && (Key(ds, n, m) == Key(ds, q + 1, m) <==> Value(ds[n..q + 1]) % d == 0)
  {
    hide Key, Value;
    if m == M1 {
      M1KeysEqualIff(ds, n, q);
    } else {
      KeysEqualIff(ds, n, q, m);
    }
  }

  lemma SliceOfSlice(t: seq<int>, ds: seq<int>, off: nat, i: nat, j: nat)
    requires off + |ds| <= |t| && ds == t[off..off + |ds|] && i <= j <= |ds|
    ensures ds[i..j] == t[off + i..off + j]
  {
    forall k | 0 <= k < j - i ensures ds[i..j][k] == t[off + i..off + j][k] {
      assert ds[i + k] == t[off..off + |ds|][i + k];
    }
  }

  lemma ScanUnfold(ds: seq<int>, q: nat, m: nat, d: nat, mNumber: int, n: nat)
    requires 0 < n <= q < |ds| && q < SIZE && TestsFor(m, d, q)
    ensures m > 0 && d > 0
    ensures Scan(ds, q, m, mNumber, n) ==
            (if Found(ds, n, q, d, mNumber, ds[n..q + 1]) then [ds[n..q + 1]] else []) + Scan(ds, q, m, mNumber, n - 1)
  {
    hide Key, Value, Passes;
    KeysTest(ds, n, q, m, d);
  }

  lemma NoneLeft(ds: seq<int>, q: nat, m: nat, d: nat, mNumber: int, t: seq<int>, p: nat, n: nat)
    requires q < |ds| && q < SIZE && m > 0 && d > 0 && n <= p < |t| && n + WINDOW < p + 1
    ensures Scan(ds, q, m, mNumber, 0) == Naive(t, p, d, mNumber, n)
  {
  }

  /** The search for one digit of the buffer is the naive search of the stream for that digit. */
  lemma {:induction false} ScanIsNaive(ds: seq<int>, q: nat, m: nat, d: nat, mNumber: int, n: nat, t: seq<int>,
                                       off: nat)
    requires n <= q < |ds| && q < SIZE && TestsFor(m, d, q)
    requires off + |ds| <= |t| && ds == t[off..off + |ds|]
    requires q >= WINDOW
    ensures m > 0 && d > 0 && Scan(ds, q, m, mNumber, n) == Naive(t, off + q, d, mNumber, off + n)
    decreases n
  {
    hide Scan, Naive, Value, Passes;
    if n == 0 {
      NoneLeft(ds, q, m, d, mNumber, t, off + q, off);
    } else {
      SliceOfSlice(t, ds, off, n, q + 1);
      ScanUnfold(ds, q, m, d, mNumber, n);
      ScanIsNaive(ds, q, m, d, mNumber, n - 1, t, off);
      NaiveStep(t, off + q, d, mNumber, off + n);
    }
  }

  lemma {:induction false} BatchIsNaive(ds: seq<int>, k: nat, m: nat, d: nat, mNumber: int, t: seq<int>, off: nat)
    requires WINDOW + k <= |ds| && WINDOW + k <= SIZE && m > 0 && d > 0
    requires forall q :: WINDOW <= q < WINDOW + k ==> TestsFor(m, d, q)
    requires off + |ds| <= |t| && ds == t[off..off + |ds|]
    ensures ScanBatch(ds, k, m, mNumber) == NaiveAll(t, off + WINDOW, off + WINDOW + k, d, mNumber)
  {
    hide Scan, Naive;
    if k == 0 {
    } else {
      BatchIsNaive(ds, k - 1, m, d, mNumber, t, off);
      ScanIsNaive(ds, WINDOW + k - 1, m, d, mNumber, WINDOW + k - 1, t, off);
    }
  }

  /** What the M1 channel reports for a batch from a to b: the multiples of H, half of M1, but at the
      last digit of a full batch the multiples of M1. */
  ghost function M1Batch(t: seq<int>, a: nat, b: nat): seq<seq<int>>
    requires a <= b <= |t| && b - a <= MAX_BATCH
  {
    if b - a == MAX_BATCH then NaiveAll(t, a, b - 1, H, 1) + Naive(t, b - 1, M1, 1, b - 1) else NaiveAll(t, a, b, H, 1)
  }

  lemma BatchIsM1(ds: seq<int>, k: nat, t: seq<int>, off: nat)
    requires WINDOW + k == |ds| <= SIZE && off + |ds| <= |t| && ds == t[off..off + |ds|]
    ensures ScanBatch(ds, k, M1, 1) == M1Batch(t, off + WINDOW, off + WINDOW + k)
  {
    hide Scan, Naive, NaiveAll;
    if k == MAX_BATCH {
      BatchIsNaive(ds, k - 1, M1, H, 1, t, off);
      ScanIsNaive(ds, WINDOW + k - 1, M1, M1, 1, WINDOW + k - 1, t, off);
    } else {
      BatchIsNaive(ds, k, M1, H, 1, t, off);
    }
  }

  lemma {:induction false} NaiveAllSplit(t: seq<int>, a: nat, b: nat, c: nat, m: nat, mNumber: int)
    requires a <= b <= c <= |t| && m > 0
    ensures NaiveAll(t, a, c, m, mNumber) == NaiveAll(t, a, b, m, mNumber) + NaiveAll(t, b, c, m, mNumber)
    decreases c
  {
    hide Naive;
    if b == c {
    } else {
      NaiveAllSplit(t, a, b, c - 1, m, mNumber);
    }
  }

  // ----- what the other two moduli report

  ghost predicate Reported(ds: seq<int>, q: nat, m: nat, mNumber: int, n: nat)
    requires 0 < n <= q < |ds| && q < SIZE && m > 0
  {
    Key(ds, n, m) == Key(ds, q + 1, m) && q + 1 - n <= WINDOW && Passes(ds[n..q + 1], mNumber)
  }

  lemma {:induction false} ScanMember(ds: seq<int>, q: nat, m: nat, mNumber: int, n: nat, k: nat)
    requires 0 < k <= n <= q < |ds| && q < SIZE && m > 0 && Reported(ds, q, m, mNumber, k)
    ensures ds[k..q + 1] in Scan(ds, q, m, mNumber, n)
    decreases n
  {
    hide Key, Passes;
    if k == n {
    } else {
      ScanMember(ds, q, m, mNumber, n - 1, k);
    }
  }

  /** The sum behind a substring, from the sum before it and the value. */
  lemma SumBehind(ds: seq<int>, n: nat, k: nat, m: nat)
    requires n <= k <= |ds| && k <= SIZE && m > 0
    ensures var s, r := PrefixSum(ds, n, m), (Value(ds[n..k]) * Pow10(SIZE - k)) % m;
            PrefixSum(ds, k, m) == if s + r < m then s + r else s + r - m
  {
    var x, y := SEED + RawSum(ds, n), Value(ds[n..k]) * Pow10(SIZE - k);
    RawSumDifference(ds, n, k);
    ModAdd(x, y, m);
    var s, r := x % m, y % m;
    if s + r < m {
      DivModUnique(m, 0, s + r);
    } else {
      DivModUnique(m, 1, s + r - m);
    }
  }

  /** What M2 reports: with r what the substring adds to the sum modulo M2, a multiple of 2^64, or,
      where the sum comes round, one that differs from M2 by a multiple of 2^64.  The true matches
      are those that add nothing. */
  lemma M2ReportedIff(ds: seq<int>, q: nat, n: nat)
    requires 0 < n <= q < |ds| && q < SIZE && q + 1 - n <= WINDOW && Passes(ds[n..q + 1], 2)
    ensures var s, r := PrefixSum(ds, n, M2), (Value(ds[n..q + 1]) * Pow10(SIZE - (q + 1))) % M2;
            && (Reported(ds, q, M2, 2, n) <==> if s + r < M2 then r % TWO64 == 0 else (r - M2) % TWO64 == 0)
            && (Value(ds[n..q + 1]) % M2 == 0 <==> r == 0)
  {
    hide PrefixSum, Value, Passes, Pow10;
    SumBehind(ds, n, q + 1, M2);
    SameRemainder(PrefixSum(ds, q + 1, M2), PrefixSum(ds, n, M2), TWO64);
    CoprimeTest(Value(ds[n..q + 1]), SIZE - (q + 1), M2);
  }

  /** The reports whose value m divides. */
  ghost function Divisible(xs: seq<seq<int>>, m: nat): seq<seq<int>>
    requires m > 0
  {
    if xs == [] then []
    else
      var x := xs[|xs| - 1];
      Divisible(xs[..|xs| - 1], m) + if Value(x) % m == 0 then [x] else []
  }

  lemma {:induction false} DivisibleConcat(xs: seq<seq<int>>, ys: seq<seq<int>>, m: nat)
    requires m > 0
    ensures Divisible(xs + ys, m) == Divisible(xs, m) + Divisible(ys, m)
    decreases |ys|
  {
    hide Value;
    if ys == [] {
      assert xs + ys == xs;
    } else {
      var n := |ys| - 1;
      assert (xs + ys)[..|xs + ys| - 1] == xs + ys[..n];
      DivisibleConcat(xs, ys[..n], m);
    }
  }

  lemma DivisibleOne(x: seq<int>, m: nat)
    requires m > 0
    ensures Divisible([x], m) == if Value(x) % m == 0 then [x] else []
    ensures Divisible([], m) == []
  {
    hide Value;
    assert [x][..0] == [];
  }

  lemma M2Unfold(ds: seq<int>, q: nat, n: nat)
    requires 0 < n <= q < |ds| && q < SIZE
    ensures Divisible(Scan(ds, q, M2, 2, n), M2) ==
            (if Found(ds, n, q, M2, 2, ds[n..q + 1]) then [ds[n..q + 1]] else [])
            + Divisible(Scan(ds, q, M2, 2, n - 1), M2)
  {
    hide Key, Value, Passes, Divisible;
    var x := ds[n..q + 1];
    var first := if Reported(ds, q, M2, 2, n) then [x] else [];
    DivisibleConcat(first, Scan(ds, q, M2, 2, n - 1), M2);
    DivisibleOne(x, M2);
    if Value(x) % M2 == 0 {
      M2NeverMisses(ds, n, q);
    }
  }

  /** The true matches among the M2 reports for one digit are the naive search, each once. */
  lemma {:induction false} ScanTrue(ds: seq<int>, q: nat, n: nat, t: seq<int>, off: nat)
    requires n <= q < |ds| && WINDOW <= q < SIZE && off + |ds| <= |t| && ds == t[off..off + |ds|]
    ensures Divisible(Scan(ds, q, M2, 2, n), M2) == Naive(t, off + q, M2, 2, off + n)
    decreases n
  {
    hide Scan, Naive, Value, Passes, Divisible;
    if n == 0 {
      NoneLeft(ds, q, M2, M2, 2, t, off + q, off);
      NothingScanned(ds, q);
    } else {
      SliceOfSlice(t, ds, off, n, q + 1);
      M2Unfold(ds, q, n);
      ScanTrue(ds, q, n - 1, t, off);
      NaiveStep(t, off + q, M2, 2, off + n);
    }
  }

  lemma NothingScanned(ds: seq<int>, q: nat)
    requires q < |ds| && q < SIZE
    ensures Scan(ds, q, M2, 2, 0) == [] == Divisible(Scan(ds, q, M2, 2, 0), M2)
  {
  }

  /** The multiples of M1 among those of H are all the multiples of M1. */
  lemma {:induction false} NaiveTrue(t: seq<int>, p: nat, d: nat, n: nat)
    requires n <= p < |t| && (d == H || d == M1)
    ensures Divisible(Naive(t, p, d, 1, n), M1) == Naive(t, p, M1, 1, n)
    decreases n
  {
    hide Naive, Value, Passes, Divisible;
    var x := t[n..p + 1];
    M1MultipleIff(Value(x));
    DivisibleOne(x, M1);
    if n == 0 {
      assert t[0..p + 1] == x;
      NaiveBase(t, p, d, 1);
      NaiveBase(t, p, M1, 1);
    } else {
      NaiveStep(t, p, d, 1, n);
      NaiveStep(t, p, M1, 1, n);
      NaiveTrue(t, p, d, n - 1);
      DivisibleConcat(if Found(t, n, p, d, 1, x) then [x] else [], Naive(t, p, d, 1, n - 1), M1);
    }
  }

  lemma {:induction false} NaiveAllTrue(t: seq<int>, a: nat, b: nat)
    requires a <= b <= |t|
    ensures Divisible(NaiveAll(t, a, b, H, 1), M1) == NaiveAll(t, a, b, M1, 1)
    decreases b
  {
    hide Naive, Divisible;
    if a == b {
      DivisibleOne([], M1);
    } else {
      NaiveAllTrue(t, a, b - 1);
      NaiveTrue(t, b - 1, H, b - 1);
      DivisibleConcat(NaiveAll(t, a, b - 1, H, 1), Naive(t, b - 1, H, 1, b - 1), M1);
    }
  }

  /** The true matches among the M1 reports of a batch are the naive search. */
  lemma M1True(t: seq<int>, a: nat, b: nat)
    requires a <= b <= |t| && b - a <= MAX_BATCH
    ensures Divisible(M1Batch(t, a, b), M1) == NaiveAll(t, a, b, M1, 1)
  {
    hide Naive, Divisible;
    if b - a == MAX_BATCH {
      NaiveAllTrue(t, a, b - 1);
      NaiveTrue(t, b - 1, M1, b - 1);
      DivisibleConcat(NaiveAll(t, a, b - 1, H, 1), Naive(t, b - 1, M1, 1, b - 1), M1);
    } else {
      NaiveAllTrue(t, a, b);
    }
  }

  lemma {:induction false} BatchTrue(ds: seq<int>, k: nat, t: seq<int>, off: nat)
    requires WINDOW + k <= |ds| && WINDOW + k <= SIZE && off + |ds| <= |t| && ds == t[off..off + |ds|]
    ensures Divisible(ScanBatch(ds, k, M2, 2), M2) == NaiveAll(t, off + WINDOW, off + WINDOW + k, M2, 2)
  {
    hide Scan, Naive, Value;
    if k == 0 {
      assert ScanBatch(ds, k, M2, 2) == [];
    } else {
      var q := WINDOW + k - 1;
      BatchTrue(ds, k - 1, t, off);
      ScanTrue(ds, q, q, t, off);
      DivisibleConcat(ScanBatch(ds, k - 1, M2, 2), Scan(ds, q, M2, 2, q), M2);
    }
  }

  /** For M1, short of the last place of a full batch, the reports are the multiples of H: exactly
      those with an even value are divisible by M1. */
  lemma M1Reports(ds: seq<int>, q: nat, n: nat)
    requires 0 < n <= q < |ds| && q + 1 < SIZE && q + 1 - n <= WINDOW && Passes(ds[n..q + 1], 1)
    ensures Reported(ds, q, M1, 1, n) <==> Value(ds[n..q + 1]) % H == 0
    ensures Reported(ds, q, M1, 1, n) ==>
            (Value(ds[n..q + 1]) % M1 == 0 <==> Value(ds[n..q + 1]) % 2 == 0)
  {
    hide Key, Value, Passes;
    M1KeysEqualIff(ds, n, q);
    M1MultipleIff(Value(ds[n..q + 1]));
  }

  const ODD_MULTIPLE: seq<int> := [1, 4, 9, 6, 1, 9, 7, 6, 9, 1, 8, 2, 7, 3]

  lemma ValueStep(s: seq<int>, k: nat)
    requires k < |s|
    ensures Value(s[..k + 1]) == 10 * Value(s[..k]) + s[k]
  {
    assert s[..k + 1][..k] == s[..k];
  }

  lemma OddMultipleValue()
    ensures Value(ODD_MULTIPLE) == H * 100001
  {
    hide Value;
    var s := ODD_MULTIPLE;
    EmptyValue(s);
    ValueStep(s, 0); ValueStep(s, 1); ValueStep(s, 2); ValueStep(s, 3); ValueStep(s, 4);
    ValueStep(s, 5); ValueStep(s, 6); ValueStep(s, 7); ValueStep(s, 8); ValueStep(s, 9);
    ValueStep(s, 10); ValueStep(s, 11); ValueStep(s, 12); ValueStep(s, 13);
    assert s[..14] == s;
  }

  lemma EmptyValue(s: seq<int>)
    ensures Value(s[..0]) == 0
  {
  }

  /** A report for M1 that M1 does not divide: these fourteen digits, wherever they end short of
      the last place. */
  lemma M1OverReports(ds: seq<int>, q: nat)
    requires WINDOW <= q < |ds| && q + 1 < SIZE && ds[q - 13..q + 1] == ODD_MULTIPLE
    ensures ODD_MULTIPLE in Scan(ds, q, M1, 1, q) && Value(ODD_MULTIPLE) % M1 != 0
  {
    hide Scan, Value;
    OddMultipleValue();
    M1Reports(ds, q, q - 13);
    ScanMember(ds, q, M1, 1, q, q - 13);
  }
}
