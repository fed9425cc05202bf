/** How many page tables lib/memory.cpp needs, and how many pages there are for them. */
module PageReserve {
  predicate Usable(available: seq<bool>, h: nat) {
    h < |available| && available[h]
  }

  /** The pages from t up to limit that lie in available huge pages. */
  ghost function PoolFrom(available: seq<bool>, t: nat, limit: nat): nat
    decreases limit - t
  {
    if t >= limit then 0 else (if Usable(available, t / 512) then 1 else 0) + PoolFrom(available, t + 1, limit)
  }

  /** A huge page that is not available counts for nothing. */
  lemma {:induction false} SkipPages(available: seq<bool>, t: nat, n: nat, limit: nat)
    requires forall k :: t <= k < t + n ==> !Usable(available, k / 512)
    ensures PoolFrom(available, t, limit) == PoolFrom(available, t + n, limit)
    decreases n
  {
    if n == 0 {
    } else {
      assert !Usable(available, t / 512);
      SkipPages(available, t + 1, n - 1, limit);
    }
  }

  lemma SkipHuge(available: seq<bool>, t: nat, limit: nat)
    requires t % 512 == 0 && !Usable(available, t / 512)
    ensures PoolFrom(available, t, limit) == PoolFrom(available, t + 512, limit)
  {
    forall k | t <= k < t + 512 ensures !Usable(available, k / 512) {
      assert k / 512 == t / 512;
    }
    SkipPages(available, t, 512, limit);
  }

  /** The available huge pages from h up to limit. */
  ghost function HugeFrom(available: seq<bool>, h: nat, limit: nat): nat
    decreases limit - h
  {
    if h >= limit then 0 else (if Usable(available, h) then 1 else 0) + HugeFrom(available, h + 1, limit)
  }

  /** The pages of whole huge pages. */
  lemma {:induction false} PoolOfHuge(available: seq<bool>, h: nat, limit: nat)
    ensures PoolFrom(available, 512 * h, 512 * limit) == 512 * HugeFrom(available, h, limit)
    decreases limit - h
  {
    if h >= limit {
    } else {
      PoolOfHuge(available, h + 1, limit);
      if Usable(available, h) {
        TakePages(available, 512 * h, 512, 512 * limit);
      } else {
        SkipHuge(available, 512 * h, 512 * limit);
      }
    }
  }

  lemma {:induction false} TakePages(available: seq<bool>, t: nat, n: nat, limit: nat)
    requires t + n <= limit && n <= 512 && t / 512 == (t + n - 1) / 512 && Usable(available, t / 512)
    ensures PoolFrom(available, t, limit) == n + PoolFrom(available, t + n, limit)
    decreases n
  {
    if n == 0 {
    } else if n == 1 {
      assert PoolFrom(available, t, limit) == 1 + PoolFrom(available, t + 1, limit);
    } else {
      assert (t + 1) / 512 == t / 512;
      TakePages(available, t + 1, n - 1, limit);
    }
  }

  /** Level-2 tables for n level-1 tables: one at least. */
  function P2Count(n: nat): nat {
    if n == 0 then 1 else (n + 511) / 512
  }

  /** All tables for n times 2 MiB: two at level 3 and one at level 4 besides. */
  function TablesFor(n: nat): nat {
    3 + P2Count(n) + n
  }

  lemma TablesGrow(m: nat, n: nat)
    requires m <= n
    ensures TablesFor(m) <= TablesFor(n)
  {
  }

  lemma {:induction false} HugeSplit(available: seq<bool>, a: nat, b: nat, c: nat)
    requires a <= b <= c
    ensures HugeFrom(available, a, c) == HugeFrom(available, a, b) + HugeFrom(available, b, c)
    decreases b - a
  {
    if a == b {
    } else {
      HugeSplit(available, a + 1, b, c);
    }
  }

  lemma {:induction false} NoHuge(available: seq<bool>, a: nat, b: nat)
    requires forall h :: a <= h < b ==> !Usable(available, h)
    ensures HugeFrom(available, a, b) == 0
    decreases b - a
  {
    if a >= b {
    } else {
      NoHuge(available, a + 1, b);
    }
  }

  /** The huge pages that init_page_table_break reserves when n are available: for 4 tables kept back,
      n at level 1, the level-2 tables of those and two more. */
  function Reserve(n: nat): (r: nat)
    ensures r > 0
  {
    (6 + n + (8 * n + 4095) / 4096 + 511) / 512
  }

  /** init_page_table_break, in huge pages: behind the last of the reserved ones, or 0 when there are
      not enough below number n. */
  method TableBreak(available: seq<bool>, n: nat) returns (brk: nat)
    requires n <= |available|
    ensures brk <= n
    ensures if HugeFrom(available, 0, n) < Reserve(n) then brk == 0 else HugeFrom(available, 0, brk) == Reserve(n)
  {
    var size := 4 + n + (8 * n + 4095) / 4096 + 2;
    size := (size + 511) / 512 * 512;
    var cur := 0;
    for i := 0 to n
      invariant cur == 512 * HugeFrom(available, 0, i) < size
    {
      HugeSplit(available, 0, i, i + 1);
      HugeSplit(available, 0, i + 1, n);
      assert HugeFrom(available, i, i + 1) == if Usable(available, i) then 1 else 0;
      if available[i] {
        cur := cur + 512;
        if cur >= size {
          return i + 1;
        }
      }
    }
    return 0;
  }

  /** Whether the reservation for n available huge pages is large enough. */
  predicate Suffices(n: nat, kernel: nat) {
    Reserve(n) <= n && TablesFor(kernel + n - Reserve(n)) <= 512 * Reserve(n)
  }

  /** Room for the tables is what the reserved huge pages give, and the rest is to be mapped. */
  lemma ReservedRoom(available: seq<bool>, kernel: nat, brk: nat)
    requires kernel <= brk <= |available| && forall h :: 0 <= h < kernel ==> !Usable(available, h)
    ensures PoolFrom(available, 512 * kernel, 512 * brk) == 512 * HugeFrom(available, 0, brk)
    ensures HugeFrom(available, brk, |available|) == HugeFrom(available, 0, |available|) - HugeFrom(available, 0, brk)
  {
    hide PoolFrom, HugeFrom;
    PoolOfHuge(available, kernel, brk);
    NoHuge(available, 0, kernel);
    HugeSplit(available, 0, kernel, brk);
    HugeSplit(available, 0, brk, |available|);
  }

  /** The exact condition: the level-1 tables of the kernel, which are not counted, must fit into what
      rounding up to huge pages leaves. */
  lemma SufficesIff(n: nat, kernel: nat)
    requires kernel <= 512
    ensures Suffices(n, kernel) <==> n > 0 && n + kernel + 3 <= 512 * Reserve(n)
  {
  }

  /** With the kernel's 16 MiB there are eleven numbers of huge pages for which it falls short. */
  lemma ReservationFallsShort(n: nat)
    ensures Suffices(n, 8) <==>
            !(n == 0 || 502 <= n <= 505 || 1014 <= n <= 1016 || 1526 <= n <= 1527 || n == 2038)
  {
    SufficesIff(n, 8);
    if n <= 505 {
      assert Reserve(n) == 1;
    } else if n <= 1016 {
      assert Reserve(n) == 2;
    } else if n <= 1527 {
      assert Reserve(n) == 3;
    } else if n <= 2038 {
      assert Reserve(n) == 4;
    } else {
      assert Reserve(n) >= 5 && (n <= 2048 || (8 * n + 4095) / 4096 >= 5);
    }
  }
}
