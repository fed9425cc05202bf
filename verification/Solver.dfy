/** The streaming solver of kern/solver_faster.cpp: per modulus a power table, a chained hash of
    prefix sums and a running sum; one digit buffer for all four.

    The machine types are unsigned: u32 for M1 and M4, u64 for M3, u128 for M2, given here by the
    number w of their values.  What is reported is returned instead of being sent. */
module Solver {
  import opened Machine
  import opened Remainders
  import opened SolverArithmetic
  import opened SolverSpec
  import opened SolverText

  const HASH_SIZE: nat := 1024
  const CAPACITY: nat := 661

  /** key & (HASH_SIZE - 1). */
  function Bucket(key: nat): (b: nat)
    ensures b < HASH_SIZE
  {
    key % HASH_SIZE
  }

  /** The last of the entries 1..n in bucket b, or 0. */
  ghost function LastIn(keys: seq<nat>, b: nat, n: nat): (r: nat)
    requires n < |keys|
    ensures r <= n && (r != 0 ==> Bucket(keys[r]) == b)
  {
    if n == 0 then 0 else if Bucket(keys[n]) == b then n else LastIn(keys, b, n - 1)
  }

  /** The chains: first points at the last entry of a bucket, next at the one before in the same bucket. */
  ghost predicate Chained(first: seq<nat>, next: seq<nat>, keys: seq<nat>, cnt: nat) {
    && |first| == HASH_SIZE && |next| == |keys| == CAPACITY && cnt < CAPACITY
    && (forall b :: 0 <= b < HASH_SIZE ==> first[b] == LastIn(keys, b, cnt))
    && (forall i {:trigger next[i]} :: 1 <= i <= cnt ==> next[i] == LastIn(keys, Bucket(keys[i]), i - 1))
  }

  /** What a query with the given key reports from the entries 1..n. */
  ghost function Matches(keys: seq<nat>, values: seq<nat>, n: nat, key: nat, ds: seq<int>, q: nat,
                         mNumber: int): seq<seq<int>>
    requires n < |keys| == |values| && q < |ds| && forall i :: 1 <= i <= n ==> values[i] < q
  {
    if n == 0 then []
    else
      (if keys[n] == key && q - values[n] <= WINDOW && Passes(ds[values[n] + 1..q + 1], mNumber)
       then [ds[values[n] + 1..q + 1]] else [])
      + Matches(keys, values, n - 1, key, ds, q, mNumber)
  }

  lemma {:induction false} LastInFrame(keys: seq<nat>, keys': seq<nat>, b: nat, n: nat)
    requires n < |keys| == |keys'| && forall i :: 1 <= i <= n ==> keys'[i] == keys[i]
    ensures LastIn(keys', b, n) == LastIn(keys, b, n)
  {
    if n == 0 {
    } else {
      LastInFrame(keys, keys', b, n - 1);
    }
  }

  lemma MatchesNone(keys: seq<nat>, values: seq<nat>, key: nat, ds: seq<int>, q: nat, mNumber: int)
    requires 0 < |keys| == |values| && q < |ds|
    ensures Matches(keys, values, 0, key, ds, q, mNumber) == []
  {
  }

  lemma MatchesStep(keys: seq<nat>, values: seq<nat>, n: nat, key: nat, ds: seq<int>, q: nat, mNumber: int)
    requires 0 < n < |keys| == |values| && q < |ds| && forall i :: 1 <= i <= n ==> values[i] < q
    ensures Matches(keys, values, n, key, ds, q, mNumber) ==
            (if keys[n] == key && q - values[n] <= WINDOW && Passes(ds[values[n] + 1..q + 1], mNumber)
             then [ds[values[n] + 1..q + 1]] else [])
            + Matches(keys, values, n - 1, key, ds, q, mNumber)
  {
  }

  /** Between two entries of a chain there is nothing a query of that bucket would report. */
  lemma {:induction false} MatchesSkip(keys: seq<nat>, values: seq<nat>, n: nat, key: nat, ds: seq<int>, q: nat,
                                       mNumber: int)
    requires n < |keys| == |values| && q < |ds| && forall i :: 1 <= i <= n ==> values[i] < q
    ensures Matches(keys, values, n, key, ds, q, mNumber) ==
            Matches(keys, values, LastIn(keys, Bucket(key), n), key, ds, q, mNumber)
  {
    hide Passes, Bucket;
    if n == 0 || Bucket(keys[n]) == Bucket(key) {
    } else {
      MatchesSkip(keys, values, n - 1, key, ds, q, mNumber);
    }
  }

  /** The entries are the prefix sums of the first n digits, entry i for digit i - 1. */
  ghost predicate HoldsPrefixes(keys: seq<nat>, values: seq<nat>, n: nat, ds: seq<int>, m: nat) {
    && n < |keys| == |values| && n <= |ds| && n <= SIZE && m > 0
    && (forall i :: 1 <= i <= n ==> keys[i] == Key(ds, i, m) && values[i] == i - 1)
  }

  lemma {:induction false} MatchesScan(keys: seq<nat>, values: seq<nat>, n: nat, ds: seq<int>, q: nat, m: nat,
                                       mNumber: int)
    requires HoldsPrefixes(keys, values, n, ds, m) && n <= q < |ds| && q < SIZE
    ensures Matches(keys, values, n, Key(ds, q + 1, m), ds, q, mNumber) == Scan(ds, q, m, mNumber, n)
    decreases n
  {
    hide Passes, Key;
    if n == 0 {
    } else {
      var key, w := Key(ds, q + 1, m), ds[n..q + 1];
      var head := if Key(ds, n, m) == key && q + 1 - n <= WINDOW && Passes(w, mNumber) then [w] else [];
      assert keys[n] == Key(ds, n, m) && values[n] == n - 1;
      assert Matches(keys, values, n, key, ds, q, mNumber) ==
             head + Matches(keys, values, n - 1, key, ds, q, mNumber);
      assert Scan(ds, q, m, mNumber, n) == head + Scan(ds, q, m, mNumber, n - 1);
      MatchesScan(keys, values, n - 1, ds, q, m, mNumber);
    }
  }

  class Hash {
    const first: array<nat>
    const next: array<nat>
    const values: array<nat>
    const keys: array<nat>
    var cnt: nat

    ghost predicate Shape()
    {
      && first.Length == HASH_SIZE && next.Length == values.Length == keys.Length == CAPACITY
      && first != next && first != values && first != keys && next != values && next != keys && values != keys
    }

    ghost predicate Valid()
      reads this, first, next, keys
    {
      Shape() && Chained(first[..], next[..], keys[..], cnt)
    }

    constructor ()
      ensures Shape() && fresh(first) && fresh(next) && fresh(values) && fresh(keys)
    {
      first := new nat[HASH_SIZE];
      next := new nat[CAPACITY];
      values := new nat[CAPACITY];
      keys := new nat[CAPACITY];
      cnt := 0;
    }

    method Clear()
      requires Shape()
      modifies this, first
      ensures Valid() && cnt == 0
    {
      cnt := 0;
      forall b | 0 <= b < HASH_SIZE {
        first[b] := 0;
      }
    }

    method Insert(key: nat, value: nat)
      requires Valid() && cnt + 1 < CAPACITY
      modifies this, first, next, values, keys
      ensures Valid() && cnt == old(cnt) + 1
      ensures keys[..] == old(keys[..])[cnt := key] && values[..] == old(values[..])[cnt := value]
    {
      ghost var keys0: seq<nat>, next0: seq<nat>, first0: seq<nat> := keys[..], next[..], first[..];
      var idx := Bucket(key);
      cnt := cnt + 1;
      next[cnt] := first[idx];
      keys[cnt] := key;
      values[cnt] := value;
      first[idx] := cnt;
      assert keys[..] == keys0[cnt := key] && next[..] == next0[cnt := first0[idx]] && first[..] == first0[idx := cnt];
      InsertChained(first0, next0, keys0, cnt, key);
    }

    /** query_all: the reports for the digit at place q, from the last entry to the first. */
    method QueryAll(digits: array<int>, key: nat, q: nat, mNumber: int) returns (out: seq<seq<int>>)
      requires Valid() && q < digits.Length && forall i :: 1 <= i <= cnt ==> values[i] < q
      ensures out == Matches(keys[..], values[..], cnt, key, digits[..], q, mNumber)
    {
      hide LastIn, Bucket, Passes, Matches;
      MatchesNone(keys[..], values[..], key, digits[..], q, mNumber);
      out := [];
      var i := first[Bucket(key)];
      ghost var ks, vs, ds := keys[..], values[..], digits[..];
      ghost var all := Matches(ks, vs, cnt, key, ds, q, mNumber);
      MatchesSkip(ks, vs, cnt, key, ds, q, mNumber);
      assert i == first[..][Bucket(key)];
      while i != 0
        invariant 0 <= i <= cnt && (i != 0 ==> Bucket(ks[i]) == Bucket(key))
        invariant out + Matches(ks, vs, i, key, ds, q, mNumber) == all
        decreases i
      {
        MatchesSkip(ks, vs, i - 1, key, ds, q, mNumber);
        MatchesStep(ks, vs, i, key, ds, q, mNumber);
        if keys[i] == key {
          var value := values[i];
          assert digits[value + 1..q + 1] == ds[value + 1..q + 1];
          if q - value <= WINDOW && Passes(digits[value + 1..q + 1], mNumber) {
            out := out + [digits[value + 1..q + 1]];
          }
        }
        assert next[i] == next[..][i];
        i := next[i];
      }
    }
  }

  lemma InsertChained(first: seq<nat>, next: seq<nat>, keys: seq<nat>, cnt: nat, key: nat)
    requires 1 <= cnt < CAPACITY && Chained(first, next, keys, cnt - 1)
    ensures Chained(first[Bucket(key) := cnt], next[cnt := first[Bucket(key)]], keys[cnt := key], cnt)
  {
    hide Bucket;
    var keys' := keys[cnt := key];
    forall b | 0 <= b < HASH_SIZE ensures first[Bucket(key) := cnt][b] == LastIn(keys', b, cnt) {
      LastInFrame(keys, keys', b, cnt - 1);
    }
    forall i | 1 <= i <= cnt
      ensures next[cnt := first[Bucket(key)]][i] == LastIn(keys', Bucket(keys'[i]), i - 1)
    {
      LastInFrame(keys, keys', Bucket(keys'[i]), i - 1);
    }
  }

  // ----- one modulus

  /** The entry of the power table for digit x % 10 at place x / 10. */
  ghost function Weight(x: nat, m: nat): (r: nat)
    requires x < 10 * SIZE && m > 0
    ensures r < m
  {
    (x % 10 * Pow10(SIZE - 1 - x / 10)) % m
  }

  ghost predicate TableOk(e: seq<nat>, m: nat) {
    |e| == 10 * SIZE && m > 0 && forall x :: 0 <= x < |e| ==> e[x] == Weight(x, m)
  }

  /** Adding the table entry of the next digit extends the prefix sum by that digit. */
  lemma AddWeight(ds: seq<int>, n: nat, m: nat)
    requires n < |ds| && n < SIZE && m > 0 && 0 <= ds[n] <= 9
    ensures (PrefixSum(ds, n, m) + Weight(10 * n + ds[n], m)) % m == PrefixSum(ds, n + 1, m)
  {
    hide Pow10;
    var x := 10 * n + ds[n];
    assert x / 10 == n && x % 10 == ds[n];
    ModAdd(SEED + RawSum(ds, n), ds[n] * Pow10(SIZE - (n + 1)), m);
  }

  /** Ten additions of the weight of a one give the weight of the next ten. */
  lemma WeightStep(i: nat, j: nat, m: nat, tmp: nat, cur: nat)
    requires i < SIZE && j <= 9 && m > 0
    requires cur == Pow10(SIZE - 1 - i) % m && tmp == (j * Pow10(SIZE - 1 - i)) % m
    ensures (tmp + cur) % m == ((j + 1) * Pow10(SIZE - 1 - i)) % m
    ensures tmp == Weight(10 * i + j, m)
  {
    hide Pow10;
    var p := Pow10(SIZE - 1 - i);
    ModAdd(j * p, p, m);
    assert (j + 1) * p == j * p + p;
    assert (10 * i + j) / 10 == i && (10 * i + j) % 10 == j;
  }

  class Channel {
    const m: nat
    const w: nat
    const mNumber: int
    const e: array<nat>
    const h: Hash
    var sum: nat

    ghost const Repr: set<object>

    ghost predicate Shape()
    {
      && SEED < m && 2 * m <= w
      && h.Shape()
      && e.Length == 10 * SIZE && e != h.first && e != h.next && e != h.values && e != h.keys
      && Repr == {this, e, h, h.first, h.next, h.values, h.keys}
    }

    /** The power table is filled in. */
    ghost predicate Valid()
      reads Repr
    {
      Shape() && TableOk(e[..], m)
    }

    /** The state that prepare sets up for the window ds. */
    ghost predicate Prepared(ds: seq<int>)
      reads Repr
    {
      && Valid() && h.Valid() && h.cnt == WINDOW
      && |ds| >= WINDOW && sum == PrefixSum(ds, WINDOW, m)
      && HoldsPrefixes(h.keys[..], h.values[..], WINDOW, ds, m)
    }

    constructor (m: nat, w: nat, mNumber: int)
      requires SEED < m && 2 * m <= w
      ensures Shape() && fresh(Repr)
      ensures this.m == m && this.w == w && this.mNumber == mNumber
    {
      this.m, this.w, this.mNumber := m, w, mNumber;
      var table := new nat[10 * SIZE];
      var hash := new Hash();
      e, h, sum := table, hash, 0;
      Repr := {this, table, hash, hash.first, hash.next, hash.values, hash.keys};
    }

    /** init_e: the table of digit weights, by additions alone. */
    method InitE()
      requires Shape()
      modifies Repr
      ensures Valid()
    {
      hide Pow10, Weight;
      var cur := 1;
      OneMod(m);
      var i := SIZE;
      while i > 0
        invariant 0 <= i <= SIZE
        invariant cur == Pow10(SIZE - i) % m
        invariant forall x :: 10 * i <= x < 10 * SIZE ==> e[x] == Weight(x, m)
      {
        i := i - 1;
        var tmp := 0;
        var j := 0;
        ZeroMod(m, Pow10(SIZE - 1 - i));
        while j <= 9
          invariant 0 <= j <= 10
          invariant tmp == (j * Pow10(SIZE - 1 - i)) % m
          invariant forall x :: 10 * i <= x < 10 * i + j ==> e[x] == Weight(x, m)
          invariant forall x :: 10 * (i + 1) <= x < 10 * SIZE ==> e[x] == Weight(x, m)
        {
          WeightStep(i, j, m, tmp, cur);
          e[i * 10 + j] := tmp;
          tmp := AddMod(tmp, cur, m, w);
          j := j + 1;
        }
        cur := tmp;
        NextPower(SIZE - 1 - i);
      }
    }

    /** do_prepare_digits: the sums of the window, from scratch. */
    method Prepare(digits: array<int>)
      requires Valid() && digits.Length == SIZE && Digits(digits[..WINDOW]) && digits !in Repr
      modifies Repr
      ensures Valid() && Prepared(digits[..WINDOW])
    {
      hide Pow10, Weight, Chained, LastIn, Key, PrefixSum;
      ghost var ds := digits[..WINDOW];
      sum := SEED;
      SeedSum(ds, m);
      h.Clear();
      var i := 0;
      while i < WINDOW
        invariant 0 <= i <= WINDOW && Valid() && h.Valid() && h.cnt == i && digits[..WINDOW] == ds
        invariant sum == PrefixSum(ds, i, m)
        invariant HoldsPrefixes(h.keys[..], h.values[..], i, ds, m)
      {
        var d := digits[i];
        assert d == ds[i];
        AddOne(ds, i, d);
        sum := AddMod(sum, e[i * 10 + d], m, w);
        h.Insert(sum % TWO64, i);
        KeyOf(ds, i + 1, m);
        i := i + 1;
      }
    }

    /** Adding a digit, as both loops do it. */
    lemma AddOne(ds: seq<int>, n: nat, d: int)
      requires Valid() && n < |ds| && n < SIZE && d == ds[n] && 0 <= d <= 9
      ensures e[n * 10 + d] < m && PrefixSum(ds, n, m) < m
      ensures (PrefixSum(ds, n, m) + e[n * 10 + d]) % m == PrefixSum(ds, n + 1, m)
    {
      hide PrefixSum, Weight, Pow10;
      AddWeight(ds, n, m);
      assert e[..][n * 10 + d] == Weight(10 * n + d, m);
    }

    /** do_add_digits: the running sum is a parameter by value there, so the field stays. */
    method AddDigits(digits: array<int>, len: nat) returns (out: seq<seq<int>>)
      requires digits.Length == SIZE && WINDOW + len <= SIZE && Digits(digits[..WINDOW + len]) && digits !in Repr
      requires Prepared(digits[..WINDOW])
      modifies Repr - {this}
      ensures Valid()
      ensures out == ScanBatch(digits[..WINDOW + len], len, m, mNumber)
    {
      hide Pow10, Weight, Chained, LastIn, Key, PrefixSum, Passes, Scan, TableOk, RawSum;
      ghost var ds := digits[..WINDOW + len];
      var s := sum;
      assert ds[..WINDOW] == digits[..WINDOW];
      WindowOnly(ds, m, h.keys[..], h.values[..]);
      out := [];
      var i := 0;
      while i < len
        invariant 0 <= i <= len && Valid() && h.Valid() && h.cnt == WINDOW + i && digits[..WINDOW + len] == ds
        invariant s == PrefixSum(ds, WINDOW + i, m)
        invariant HoldsPrefixes(h.keys[..], h.values[..], WINDOW + i, ds, m)
        invariant out == ScanBatch(ds, i, m, mNumber)
      {
        var d := digits[WINDOW + i];
        assert d == ds[WINDOW + i];
        AddOne(ds, WINDOW + i, d);
        s := AddMod(s, e[(WINDOW + i) * 10 + d], m, w);
        KeyOf(ds, WINDOW + i + 1, m);
        var r := Query(digits, s % TWO64, WINDOW + i, ds);
        out := out + r;
        h.Insert(s % TWO64, WINDOW + i);
        i := i + 1;
      }
    }

    method Query(digits: array<int>, key: nat, q: nat, ghost ds: seq<int>) returns (out: seq<seq<int>>)
      requires Valid() && h.Valid() && h.cnt == q && digits.Length == SIZE && q < |ds| <= SIZE && ds == digits[..|ds|]
      requires HoldsPrefixes(h.keys[..], h.values[..], q, ds, m) && key == Key(ds, q + 1, m)
      ensures out == Scan(ds, q, m, mNumber, q)
    {
      hide Pow10, Weight, Chained, LastIn, Key, Passes;
      out := h.QueryAll(digits, key, q, mNumber);
      MatchesFrame(h.keys[..], h.values[..], q, key, digits[..], ds, q, mNumber);
      MatchesScan(h.keys[..], h.values[..], q, ds, q, m, mNumber);
    }
  }

  lemma OneMod(m: nat)
    requires m > 1
    ensures 1 % m == 1 && Pow10(0) == 1
  {
    DivModUnique(m, 0, 1);
  }

  lemma ZeroMod(m: nat, p: nat)
    requires m > 0
    ensures (0 * p) % m == 0
  {
    DivModUnique(m, 0, 0);
  }

  lemma NextPower(k: nat)
    ensures Pow10(k + 1) == 10 * Pow10(k)
  {
  }

  lemma SeedSum(ds: seq<int>, m: nat)
    requires SEED < m
    ensures PrefixSum(ds, 0, m) == SEED
  {
    DivModUnique(m, 0, SEED);
  }

  lemma KeyOf(ds: seq<int>, n: nat, m: nat)
    requires n <= |ds| && n <= SIZE && m > 0
    ensures Key(ds, n, m) == PrefixSum(ds, n, m) % TWO64
  {
  }

  lemma {:induction false} RawSumPrefix(ds: seq<int>, ds': seq<int>, n: nat)
    requires n <= |ds| && n <= |ds'| && n <= SIZE && ds[..n] == ds'[..n]
    ensures RawSum(ds, n) == RawSum(ds', n)
  {
    if n == 0 {
    } else {
      assert ds[..n - 1] == ds[..n][..n - 1] && ds'[..n - 1] == ds'[..n][..n - 1];
      assert ds[n - 1] == ds[..n][n - 1] && ds'[n - 1] == ds'[..n][n - 1];
      RawSumPrefix(ds, ds', n - 1);
    }
  }

  /** Prefix sums of the window do not depend on the digits behind it. */
  lemma WindowOnly(ds: seq<int>, m: nat, keys: seq<nat>, values: seq<nat>)
    requires |ds| >= WINDOW && HoldsPrefixes(keys, values, WINDOW, ds[..WINDOW], m)
    ensures PrefixSum(ds[..WINDOW], WINDOW, m) == PrefixSum(ds, WINDOW, m)
    ensures HoldsPrefixes(keys, values, WINDOW, ds, m)
  {
    hide RawSum;
    forall n | 0 <= n <= WINDOW ensures PrefixSum(ds[..WINDOW], n, m) == PrefixSum(ds, n, m) {
      assert ds[..WINDOW][..n] == ds[..n];
      RawSumPrefix(ds[..WINDOW], ds, n);
    }
  }

  lemma {:induction false} MatchesFrame(keys: seq<nat>, values: seq<nat>, n: nat, key: nat, ds: seq<int>,
                                        ds': seq<int>, q: nat, mNumber: int)
    requires n < |keys| == |values| && q < |ds'| <= |ds| && ds' == ds[..|ds'|] && forall i :: 1 <= i <= n ==>
              values[i] < q
    ensures Matches(keys, values, n, key, ds, q, mNumber) == Matches(keys, values, n, key, ds', q, mNumber)
  {
    hide Passes;
    if n == 0 {
    } else {
      assert ds[values[n] + 1..q + 1] == ds'[values[n] + 1..q + 1];
      MatchesFrame(keys, values, n - 1, key, ds, ds', q, mNumber);
    }
  }

  // ----- the four moduli together

  /** A batch as recv_input takes it. */
  ghost predicate Batch(buf: string) {
    1 <= |buf| <= 400 && forall i :: 0 <= i < |buf| ==> '0' <= buf[i] <= '9'
  }

  function DigitsOf(buf: string): (r: seq<int>)
    requires Batch(buf)
    ensures |r| == |buf| && Digits(r)
  {
    seq(|buf|, i requires 0 <= i < |buf| => buf[i] as int - '0' as int)
  }

  /** memcpy of a batch behind the window. */
  method CopyBehind(digits: array<int>, newDigits: seq<int>)
    requires digits.Length == SIZE && |newDigits| <= MAX_BATCH
    modifies digits
    ensures digits[..WINDOW] == old(digits[..WINDOW])
    ensures digits[..WINDOW + |newDigits|] == old(digits[..WINDOW]) + newDigits
  {
    forall i | 0 <= i < |newDigits| {
      digits[WINDOW + i] := newDigits[i];
    }
  }

  /** memmove of the last window to the front. */
  method Slide(digits: array<int>, len: nat)
    requires digits.Length == SIZE && len <= MAX_BATCH
    modifies digits
    ensures digits[..WINDOW] == old(digits[..WINDOW + len])[len..]
  {
    forall i | 0 <= i < WINDOW {
      digits[i] := digits[i + len];
    }
  }

  lemma DigitsConcat(a: seq<int>, b: seq<int>)
    requires Digits(a) && Digits(b)
    ensures Digits(a + b)
  {
  }

  lemma DigitsSlice(stream: seq<int>, off: nat)
    requires Digits(stream) && off <= |stream|
    ensures Digits(stream[off..])
  {
  }

  /** The reports of one call, by modulus. */
  datatype Reports = Reports(r1: seq<seq<int>>, r2: seq<seq<int>>, r3: seq<seq<int>>, r4: seq<seq<int>>)

  class StreamSolver {
    const digits: array<int>
    const c1: Channel
    const c2: Channel
    const c3: Channel
    const c4: Channel

    /** The digits seen so far, behind the 256 nines that the buffer starts with. */
    ghost var stream: seq<int>

    ghost predicate Shape()
    {
      && digits.Length == SIZE
      && c1.Shape() && c2.Shape() && c3.Shape() && c4.Shape()
      && c1.m == M1 && c2.m == M2 && c3.m == M3 && c4.m == M4
      && c1.mNumber == 1 && c2.mNumber == 2 && c3.mNumber == 3 && c4.mNumber == 4
      && c1.Repr !! c2.Repr && c1.Repr !! c3.Repr && c1.Repr !! c4.Repr
      && c2.Repr !! c3.Repr && c2.Repr !! c4.Repr && c3.Repr !! c4.Repr
      && digits !in c1.Repr + c2.Repr + c3.Repr + c4.Repr
      && this !in c1.Repr + c2.Repr + c3.Repr + c4.Repr
    }

    ghost predicate Valid()
      reads this, digits, c1.Repr, c2.Repr, c3.Repr, c4.Repr
    {
      && Shape()
      && c1.Valid() && c2.Valid() && c3.Valid() && c4.Valid()
      && |stream| >= WINDOW && Digits(stream) && digits[..WINDOW] == stream[|stream| - WINDOW..]
    }

    /** The sums and hashes are those of the window: what prepare leaves and recv_input needs. */
    ghost predicate Prepared()
      reads this, digits, c1.Repr, c2.Repr, c3.Repr, c4.Repr
    {
      && Valid()
      && c1.Prepared(digits[..WINDOW]) && c2.Prepared(digits[..WINDOW])
      && c3.Prepared(digits[..WINDOW]) && c4.Prepared(digits[..WINDOW])
    }

    constructor ()
      ensures Shape()
    {
      hide Channel.Shape;
      var ch1 := new Channel(M1, TWO32, 1);
      var ch2 := new Channel(M2, TWO128, 2);
      var ch3 := new Channel(M3, TWO64, 3);
      var ch4 := new Channel(M4, TWO32, 4);
      digits, c1, c2, c3, c4 := new int[SIZE], ch1, ch2, ch3, ch4;
      stream := [];
    }

    /** init: a window of nines, the four tables, and the first preparation. */
    method Init()
      requires Shape()
      modifies this, digits, c1.Repr, c2.Repr, c3.Repr, c4.Repr
      ensures Prepared() && stream == seq(256, _ => 9)
    {
      hide Channel.Shape, Channel.Valid, Channel.Prepared;
      stream := seq(WINDOW, _ => 9);
      forall i | 0 <= i < WINDOW {
        digits[i] := 9;
      }
      assert digits[..WINDOW] == stream == stream[|stream| - WINDOW..];
      c1.InitE();
      c2.InitE();
      c3.InitE();
      c4.InitE();
      Prepare();
    }

    method Prepare()
      requires Valid()
      modifies c1.Repr, c2.Repr, c3.Repr, c4.Repr
      ensures Prepared()
    {
      hide Channel.Shape, Channel.Valid, Channel.Prepared;
      WindowDigits();
      c1.Prepare(digits);
      c2.Prepare(digits);
      c3.Prepare(digits);
      c4.Prepare(digits);
    }

    lemma WindowDigits()
      requires Valid()
      ensures Digits(digits[..WINDOW])
    {
      DigitsSlice(stream, |stream| - WINDOW);
    }

    /** add_digits: put the batch behind the window, search it with each modulus, slide the window. */
    method AddDigits(newDigits: seq<int>) returns (r: Reports)
      requires Prepared() && |newDigits| <= MAX_BATCH && Digits(newDigits)
      modifies this, digits, c1.Repr, c2.Repr, c3.Repr, c4.Repr
      ensures Valid() && stream == old(stream) + newDigits
      ensures r == Searched(stream[|old(stream)| - WINDOW..], |newDigits|)
    {
      hide Channel.Shape, Channel.Valid, Channel.Prepared, Digits, Searched;
      DigitsConcat(stream, newDigits);
      WindowSlides(stream, newDigits, digits[..WINDOW] + newDigits);
      r := SearchBatch(newDigits);
      Slide(digits, |newDigits|);
      stream := stream + newDigits;
    }

    method SearchBatch(newDigits: seq<int>) returns (r: Reports)
      requires Prepared() && |newDigits| <= MAX_BATCH && Digits(newDigits)
      modifies digits, c1.Repr, c2.Repr, c3.Repr, c4.Repr
      ensures Valid() && digits[..WINDOW + |newDigits|] == old(digits[..WINDOW]) + newDigits
      ensures r == Searched(old(digits[..WINDOW]) + newDigits, |newDigits|)
    {
      hide Channel.Shape, Channel.Valid, Channel.Prepared, Digits, Searched;
      WindowDigits();
      DigitsConcat(digits[..WINDOW], newDigits);
      CopyBehind(digits, newDigits);
      r := Search(|newDigits|);
    }

    method Search(len: nat) returns (r: Reports)
      requires Prepared() && WINDOW + len <= SIZE && Digits(digits[..WINDOW + len])
      modifies c1.Repr, c2.Repr, c3.Repr, c4.Repr
      ensures Valid() && r == Searched(digits[..WINDOW + len], len)
    {
      hide Channel.Shape, Channel.Valid, Channel.Prepared, Digits, ScanBatch;
      var r1 := c1.AddDigits(digits, len);
      var r4 := c4.AddDigits(digits, len);
      var r3 := c3.AddDigits(digits, len);
      var r2 := c2.AddDigits(digits, len);
      r := Reports(r1, r2, r3, r4);
    }

    /** recv_input: every report for the digits of this batch. */
    method RecvInput(buf: string) returns (r: Reports)
      requires Prepared() && Batch(buf)
      modifies this, digits, c1.Repr, c2.Repr, c3.Repr, c4.Repr
      ensures Valid() && stream == old(stream) + DigitsOf(buf)
      ensures r == Searched(stream[|old(stream)| - WINDOW..], |buf|)
    {
      var newDigits := [];
      for i := 0 to |buf|
        invariant newDigits == DigitsOf(buf)[..i]
      {
        newDigits := newDigits + [buf[i] as int - '0' as int];
      }
      r := AddDigits(newDigits);
    }

    /** recv_input and prepare, as the callers pair them. */
    method Round(buf: string) returns (r: Reports)
      requires Prepared() && Batch(buf)
      modifies this, digits, c1.Repr, c2.Repr, c3.Repr, c4.Repr
      ensures Prepared() && stream == old(stream) + DigitsOf(buf) && |old(stream)| >= WINDOW
      ensures r == Searched(stream[|old(stream)| - WINDOW..], |buf|)
    {
      hide Searched, DigitsOf, Channel.Shape, Channel.Valid, Channel.Prepared;
      r := RecvInput(buf);
      Prepare();
    }

    /** A whole run: the batches in turn, each followed by prepare. */
    method Process(bufs: seq<string>) returns (r: Reports)
      requires Prepared() && forall i :: 0 <= i < |bufs| ==> Batch(bufs[i])
      modifies this, digits, c1.Repr, c2.Repr, c3.Repr, c4.Repr
      ensures Prepared() && stream == old(stream) + AllDigits(bufs)
      ensures Exact(r, stream, |old(stream)|) && |old(stream)| >= WINDOW
      ensures r.r1 == M1Run(old(stream), bufs) && r.r2 == M2Run(old(stream), bufs)
      ensures Digits(old(stream)) && Reads(r, Text(old(stream)) + Joined(bufs), |old(stream)|)
    {
      hide Exact, Searched, AllDigits, DigitsOf, M1Run, M2Run, Prepared, Batch, Reads, Text, Digits;
      Started();
      NoDigits(stream);
      r := Reports([], [], [], []);
      NothingYet(stream);
      var i := 0;
      while i < |bufs|
        invariant 0 <= i <= |bufs| && Prepared()
        invariant stream == old(stream) + AllDigits(bufs[..i])
        invariant Exact(r, stream, |old(stream)|)
        invariant r.r1 == M1Run(old(stream), bufs[..i]) && r.r2 == M2Run(old(stream), bufs[..i])
      {
        ghost var before := stream;
        var next := Round(bufs[i]);
        AllDigitsNext(bufs, i);
        M1RunNext(old(stream), bufs, i);
        M2RunNext(old(stream), bufs, i);
        ExactStep(r, before, DigitsOf(bufs[i]), |old(stream)|);
        r := Reports(r.r1 + next.r1, r.r2 + next.r2, r.r3 + next.r3, r.r4 + next.r4);
        i := i + 1;
      }
      assert bufs[..i] == bufs;
      Started();
      AllDigitsText(bufs);
      TextConcat(old(stream), AllDigits(bufs));
      ExactReads(r, stream, |old(stream)|);
    }

    lemma Started()
      requires Prepared()
      ensures |stream| >= WINDOW && Digits(stream)
    {
      hide Channel.Shape, Channel.Valid, Channel.Prepared;
    }
  }

  lemma NoDigits(t: seq<int>)
    requires |t| >= WINDOW
    ensures AllDigits([]) == [] && M1Run(t, []) == [] && M2Run(t, []) == []
  {
  }

  lemma WindowSlides(stream: seq<int>, newDigits: seq<int>, ds: seq<int>)
    requires |stream| >= WINDOW && ds == stream[|stream| - WINDOW..] + newDigits
    ensures var stream' := stream + newDigits;
            && ds == stream'[|stream| - WINDOW..]
            && ds[|newDigits|..] == stream'[|stream'| - WINDOW..]
  {
  }

  /** What the four searches of one batch report, ds being the window and the batch. */
  ghost function Searched(ds: seq<int>, len: nat): Reports
    requires |ds| == WINDOW + len <= SIZE
  {
    Reports(ScanBatch(ds, len, M1, 1), ScanBatch(ds, len, M2, 2), ScanBatch(ds, len, M3, 3), ScanBatch(ds, len, M4, 4))
  }

  /** The digits of all batches. */
  ghost function AllDigits(bufs: seq<string>): seq<int>
    requires forall i :: 0 <= i < |bufs| ==> Batch(bufs[i])
  {
    if bufs == [] then [] else AllDigits(bufs[..|bufs| - 1]) + DigitsOf(bufs[|bufs| - 1])
  }

  /** The M1 reports of a run that starts behind t. */
  ghost function M1Run(t: seq<int>, bufs: seq<string>): seq<seq<int>>
    requires forall i :: 0 <= i < |bufs| ==> Batch(bufs[i])
  {
    if bufs == [] then []
    else
      var before := t + AllDigits(bufs[..|bufs| - 1]);
      var after := before + DigitsOf(bufs[|bufs| - 1]);
      M1Run(t, bufs[..|bufs| - 1]) + M1Batch(after, |before|, |after|)
  }

  /** The M2 reports of a run: each batch's search of its own buffer by 64-bit keys, of which
      M2ReportedIff says which are reported and which of these are true matches. */
  ghost function M2Run(t: seq<int>, bufs: seq<string>): seq<seq<int>>
    requires |t| >= WINDOW && forall i :: 0 <= i < |bufs| ==> Batch(bufs[i])
  {
    if bufs == [] then []
    else
      var before := t + AllDigits(bufs[..|bufs| - 1]);
      var u := DigitsOf(bufs[|bufs| - 1]);
      M2Run(t, bufs[..|bufs| - 1]) + ScanBatch((before + u)[|before| - WINDOW..], |u|, M2, 2)
  }

  lemma M2RunNext(t: seq<int>, bufs: seq<string>, i: nat)
    requires i < |bufs| && (forall i :: 0 <= i < |bufs| ==> Batch(bufs[i])) && |t| >= WINDOW
    ensures var before := t + AllDigits(bufs[..i]);
            var u := DigitsOf(bufs[i]);
            && |u| <= MAX_BATCH
            && M2Run(t, bufs[..i + 1]) == M2Run(t, bufs[..i]) + Searched((before + u)[|before| - WINDOW..], |u|).r2
  {
    hide ScanBatch;
    assert bufs[..i + 1][..i] == bufs[..i];
  }

  lemma M1RunNext(t: seq<int>, bufs: seq<string>, i: nat)
    requires i < |bufs| && (forall i :: 0 <= i < |bufs| ==> Batch(bufs[i])) && |t| >= WINDOW
    ensures var before := t + AllDigits(bufs[..i]);
            var u := DigitsOf(bufs[i]);
            && |u| <= MAX_BATCH
            && M1Run(t, bufs[..i + 1]) == M1Run(t, bufs[..i]) + Searched((before + u)[|before| - WINDOW..], |u|).r1
  {
    hide ScanBatch, M1Batch;
    assert bufs[..i + 1][..i] == bufs[..i];
    var before, u := t + AllDigits(bufs[..i]), DigitsOf(bufs[i]);
    var s, off := before + u, |before| - WINDOW;
    assert s[off..] == s[off..off + |s[off..]|];
    BatchIsM1(s[off..], |u|, s, off);
  }

  lemma AllDigitsNext(bufs: seq<string>, i: nat)
    requires i < |bufs| && forall i :: 0 <= i < |bufs| ==> Batch(bufs[i])
    ensures AllDigits(bufs[..i + 1]) == AllDigits(bufs[..i]) + DigitsOf(bufs[i])
  {
    assert bufs[..i + 1][..i] == bufs[..i];
  }

  /** The reports for everything received from place a of the stream on: exactly the naive search
      for M3 and M4, and exactly it for M1 and M2 once the reports that these do not divide are dropped. */
  ghost predicate Exact(r: Reports, stream: seq<int>, a: nat) {
    && a <= |stream|
    && r.r3 == NaiveAll(stream, a, |stream|, M3, 3)
    && r.r4 == NaiveAll(stream, a, |stream|, M4, 4)
    && Divisible(r.r1, M1) == NaiveAll(stream, a, |stream|, M1, 1)
    && Divisible(r.r2, M2) == NaiveAll(stream, a, |stream|, M2, 2)
    && Slices(r.r1, stream, a, 1) && Slices(r.r2, stream, a, 2)
  }

  /** The received characters. */
  ghost function Joined(bufs: seq<string>): string {
    if bufs == [] then "" else Joined(bufs[..|bufs| - 1]) + bufs[|bufs| - 1]
  }

  /** Every character is read as the digit it writes. */
  lemma DigitsText(buf: string)
    requires Batch(buf)
    ensures Text(DigitsOf(buf)) == buf
  {
    var ds := DigitsOf(buf);
    forall i | 0 <= i < |buf| ensures Text(ds)[i] == buf[i] {
      assert Text(ds)[i] as int - '0' as int == ds[i] == buf[i] as int - '0' as int;
    }
  }

  lemma {:induction false} AllDigitsText(bufs: seq<string>)
    requires forall i :: 0 <= i < |bufs| ==> Batch(bufs[i])
    ensures Digits(AllDigits(bufs)) && Text(AllDigits(bufs)) == Joined(bufs)
  {
    hide Text, DigitsOf, Batch, Digits;
    if bufs == [] {
      TextEmpty();
    } else {
      var n := |bufs| - 1;
      AllDigitsText(bufs[..n]);
      DigitsText(bufs[n]);
      TextConcat(AllDigits(bufs[..n]), DigitsOf(bufs[n]));
      assert AllDigits(bufs) == AllDigits(bufs[..n]) + DigitsOf(bufs[n]);
      assert Joined(bufs) == Joined(bufs[..n]) + bufs[n];
    }
  }

  /** The reports in characters.  With text all the characters, those received standing from place a on:
      for each modulus the reports that it divides are exactly the parts of the text that end among the
      received characters, have at most 256 of them, do not start with a zero, are long enough and
      denote a multiple.  For M3 and M4 there are no others, and for M1 and M2 the others are such parts
      too, but for being multiples. */
  ghost predicate Reads(r: Reports, text: string, a: nat) {
    && (forall y :: Writes(Divisible(r.r1, M1), y) <==> IsPart(text, a, 14, y) && Number(y) % M1 == 0)
    && (forall y :: Writes(Divisible(r.r2, M2), y) <==> IsPart(text, a, 27, y) && Number(y) % M2 == 0)
    && (forall y :: Writes(r.r3, y) <==> IsPart(text, a, 54, y) && Number(y) % M3 == 0)
    && (forall y :: Writes(r.r4, y) <==> IsPart(text, a, 68, y) && Number(y) % M4 == 0)
    && (forall y :: Writes(r.r1, y) ==> IsPart(text, a, 14, y))
    && (forall y :: Writes(r.r2, y) ==> IsPart(text, a, 27, y))
  }

  lemma ExactReads(r: Reports, stream: seq<int>, a: nat)
    requires Exact(r, stream, a) && Digits(stream)
    ensures Reads(r, Text(stream), a)
  {
    hide NaiveAll, Divisible, Slices, Writes, IsPart, Number, Text;
    forall y: string
      ensures Writes(NaiveAll(stream, a, |stream|, M1, 1), y) <==> IsPart(Text(stream), a, 14, y) && Number(y) % M1 == 0
      ensures Writes(NaiveAll(stream, a, |stream|, M2, 2), y) <==> IsPart(Text(stream), a, 27, y) && Number(y) % M2 == 0
      ensures Writes(NaiveAll(stream, a, |stream|, M3, 3), y) <==> IsPart(Text(stream), a, 54, y) && Number(y) % M3 == 0
      ensures Writes(NaiveAll(stream, a, |stream|, M4, 4), y) <==> IsPart(Text(stream), a, 68, y) && Number(y) % M4 == 0
    {
      NaiveWrites(stream, a, M1, 1, y);
      NaiveWrites(stream, a, M2, 2, y);
      NaiveWrites(stream, a, M3, 3, y);
      NaiveWrites(stream, a, M4, 4, y);
    }
    forall y: string | Writes(r.r1, y) ensures IsPart(Text(stream), a, 14, y) {
      SlicesWrite(r.r1, stream, a, 1, y);
    }
    forall y: string | Writes(r.r2, y) ensures IsPart(Text(stream), a, 27, y) {
      SlicesWrite(r.r2, stream, a, 2, y);
    }
  }

  lemma NothingYet(stream: seq<int>)
    ensures Exact(Reports([], [], [], []), stream, |stream|)
  {
  }

  lemma {:induction false} NaiveExtend(t: seq<int>, u: seq<int>, p: nat, m: nat, mNumber: int, n: nat)
    requires n <= p < |t| && m > 0
    ensures Naive(t + u, p, m, mNumber, n) == Naive(t, p, m, mNumber, n)
    decreases n
  {
    hide Value, Passes;
    assert (t + u)[n..p + 1] == t[n..p + 1];
    if n == 0 {
    } else {
      NaiveExtend(t, u, p, m, mNumber, n - 1);
    }
  }

  /** What was found does not change when the stream grows. */
  lemma {:induction false} NaiveAllExtend(t: seq<int>, u: seq<int>, a: nat, b: nat, m: nat, mNumber: int)
    requires a <= b <= |t| && m > 0
    ensures NaiveAll(t + u, a, b, m, mNumber) == NaiveAll(t, a, b, m, mNumber)
    decreases b
  {
    hide Naive;
    if a == b {
    } else {
      NaiveAllExtend(t, u, a, b - 1, m, mNumber);
      NaiveExtend(t, u, b - 1, m, mNumber, b - 1);
    }
  }

  /** The search of one more batch extends the naive search of the stream by that batch. */
  lemma NaiveGrows(t: seq<int>, u: seq<int>, a: nat, m: nat, mNumber: int)
    requires a <= |t| && m > 0
    ensures NaiveAll(t + u, a, |t + u|, m, mNumber) ==
            NaiveAll(t, a, |t|, m, mNumber) + NaiveAll(t + u, |t|, |t + u|, m, mNumber)
  {
    hide NaiveAll;
    NaiveAllSplit(t + u, a, |t|, |t + u|, m, mNumber);
    NaiveAllExtend(t, u, a, |t|, m, mNumber);
  }

  lemma SearchedExact(t: seq<int>, u: seq<int>)
    requires |t| >= WINDOW && |u| <= MAX_BATCH
    ensures Exact(Searched((t + u)[|t| - WINDOW..], |u|), t + u, |t|)
  {
    hide NaiveAll, ScanBatch, Divisible, M1Batch, Slices;
    var s, off := t + u, |t| - WINDOW;
    var ds := s[off..];
    assert ds == s[off..off + |ds|];
    BatchIsNaive(ds, |u|, M3, M3, 3, s, off);
    BatchIsNaive(ds, |u|, M4, M4, 4, s, off);
    BatchTrue(ds, |u|, s, off);
    BatchIsM1(ds, |u|, s, off);
    M1True(s, |t|, |s|);
    BatchSlices(ds, |u|, M1, 1);
    BatchSlices(ds, |u|, M2, 2);
    SlicesIn(ScanBatch(ds, |u|, M1, 1), ds, s, off, 1);
    SlicesIn(ScanBatch(ds, |u|, M2, 2), ds, s, off, 2);
  }

  lemma MoreSlices(xs: seq<seq<int>>, ys: seq<seq<int>>, t: seq<int>, u: seq<int>, a: nat, mNumber: int)
    requires Slices(xs, t, a, mNumber) && Slices(ys, t + u, |t|, mNumber) && a <= |t|
    ensures Slices(xs + ys, t + u, a, mNumber)
  {
    hide SliceAt;
    SlicesGrow(xs, t, u, a, a, mNumber);
    SlicesGrow(ys, t + u, [], a, |t|, mNumber);
    assert t + u + [] == t + u;
  }

  lemma ExactStep(r: Reports, t: seq<int>, u: seq<int>, a: nat)
    requires Exact(r, t, a) && |t| >= WINDOW && |u| <= MAX_BATCH
    ensures var next := Searched((t + u)[|t| - WINDOW..], |u|);
            Exact(Reports(r.r1 + next.r1, r.r2 + next.r2, r.r3 + next.r3, r.r4 + next.r4), t + u, a)
  {
    hide NaiveAll, Searched, Divisible, Slices;
    SearchedExact(t, u);
    var next := Searched((t + u)[|t| - WINDOW..], |u|);
    DivisibleConcat(r.r1, next.r1, M1);
    DivisibleConcat(r.r2, next.r2, M2);
    MoreSlices(r.r1, next.r1, t, u, a, 1);
    MoreSlices(r.r2, next.r2, t, u, a, 2);
    NaiveGrows(t, u, a, M1, 1);
    NaiveGrows(t, u, a, M2, 2);
    NaiveGrows(t, u, a, M3, 3);
    NaiveGrows(t, u, a, M4, 4);
  }
}
