/** The transmit queue of lib/virtio_net.cpp and the device behind it (split virtqueues, section 2.6
    of VirtIO 1.1).

    The avail and used rings are indexed by 16-bit counters that wrap, taken modulo the queue size.
    The driver starts with the used ring seeded as if the device had just returned every buffer.
    That is a partition of the descriptors exactly if a certain place of the used ring was zero before,
    as it is: the queue memory is static. */
module VirtioQueue {
  import opened Machine
  import opened Remainders

  const MAX_ACTUAL: nat := 128
  const BUFFER_LEN: nat := 1600

  /** The 16-bit value of an unbounded counter. */
  function Wrap(k: int): (r: nat)
    ensures r < TWO16
  {
    k % TWO16
  }

  /** The low 16 bits of the counter and, masked, the low bits of these. */
  lemma WrapIs(k: int, n: nat)
    requires n > 0
    ensures exists q :: k == 0x1_0000 * q + Wrap(k)
    ensures exists q :: k == n * q + Place(k, n)
  {
    assert k == 0x1_0000 * (k / 0x1_0000) + Wrap(k);
    assert k == n * (k / n) + Place(k, n);
  }

  /** A power of two up to 32768: a proper divisor of 2^16. */
  ghost predicate QueueSize(n: nat) {
    0 < n <= 0x8000 && TWO16 % n == 0
  }

  /** The ring place of a counter, k & (n - 1) for a power of two n. */
  function Place(k: int, n: nat): (r: nat)
    requires n > 0
    ensures r < n
  {
    k % n
  }

  /** Masking the wrapped counter gives the place of the unbounded one. */
  lemma WrapPlace(k: int, n: nat)
    requires QueueSize(n)
    ensures Place(Wrap(k), n) == Place(k, n)
  {
    var c, q := TWO16 / n, k / TWO16;
    assert TWO16 == n * c;
    assert k == Wrap(k) + n * c * q;
    assert n * c * q == n * (c * q);
    ModPlusMultiple(Wrap(k), c * q, n);
  }

  lemma WrapNext(k: int)
    ensures Wrap(k + 1) == (Wrap(k) + 1) % TWO16
  {
  }

  lemma WrapEqual(j: int, k: int)
    requires j <= k <= j + MAX_ACTUAL
    ensures Wrap(j) == Wrap(k) <==> j == k
  {
  }

  lemma PlacesDiffer(j: int, k: int, n: nat)
    requires n > 0 && j < k < j + n
    ensures Place(j, n) != Place(k, n)
  {
    SameRemainder(k, j, n);
    DivModUnique(n, 0, k - j);
  }

  // ----- where the descriptors are

  /** Both rings, the ids that ever went through them, how many of those have been consumed, the
      ids the driver is busy with and the ids the device holds. */
  datatype Rings = Rings(
    size: nat, actual: nat,
    usedRing: seq<nat>, usedLog: seq<nat>, popped: nat,
    availRing: seq<nat>, availLog: seq<nat>, taken: nat,
    hand: seq<nat>, held: seq<nat>)

  /** The entries of log from `from` on stand in the ring, log[k] at the place of counter k + base. */
  ghost predicate Stands(ring: seq<nat>, log: seq<nat>, from: nat, base: int) {
    && |ring| > 0 && from <= |log|
    && (forall k :: from <= k < |log| ==> At(ring, log, k, base))
  }

  ghost predicate At(ring: seq<nat>, log: seq<nat>, k: nat, base: int)
    requires |ring| > 0 && k < |log|
  {
    ring[Place(k + base, |ring|)] == log[k]
  }

  /** Adding an entry behind fewer than |ring| standing ones overwrites none of them. */
  lemma StandsAppend(ring: seq<nat>, log: seq<nat>, from: nat, base: int, id: nat)
    requires Stands(ring, log, from, base) && |log| - from < |ring|
    ensures Stands(ring[Place(|log| + base, |ring|) := id], log + [id], from, base)
  {
    hide Place;
    var ring', log' := ring[Place(|log| + base, |ring|) := id], log + [id];
    forall k | from <= k < |log'| ensures At(ring', log', k, base) {
      if k < |log| {
        assert At(ring, log, k, base);
        PlacesDiffer(k + base, |log| + base, |ring|);
      }
    }
  }

  lemma StandsConsume(ring: seq<nat>, log: seq<nat>, from: nat, base: int)
    requires Stands(ring, log, from, base) && from < |log|
    ensures Stands(ring, log, from + 1, base) && ring[Place(from + base, |ring|)] == log[from]
  {
    assert At(ring, log, from, base);
  }

  ghost predicate RingsOk(r: Rings) {
    && QueueSize(r.size) && 0 < r.actual <= r.size && r.actual <= MAX_ACTUAL
    && |r.usedRing| == |r.availRing| == r.size
    && r.popped <= |r.usedLog| && r.taken <= |r.availLog|
    && Stands(r.usedRing, r.usedLog, r.popped, -(r.actual as int))
    && Stands(r.availRing, r.availLog, r.taken, 0)
  }

  /** The ids 0 to n - 1, each once. */
  ghost function Ids(n: nat): (s: multiset<nat>)
    ensures |s| == n && forall x: nat :: s[x] == if x < n then 1 else 0
  {
    if n == 0 then multiset{} else Ids(n - 1) + multiset{n - 1}
  }

  /** The ids pending in the used ring, pending in the avail ring, in the driver's hand and held by
      the device are together all the ids, each once. */
  ghost predicate Located(used: seq<nat>, avail: seq<nat>, hand: seq<nat>, held: seq<nat>, n: nat) {
    multiset(used) + multiset(avail) + multiset(hand) + multiset(held) == Ids(n)
  }

  lemma LocatedCount(used: seq<nat>, avail: seq<nat>, hand: seq<nat>, held: seq<nat>, n: nat)
    requires Located(used, avail, hand, held, n)
    ensures |used| + |avail| + |hand| + |held| == n
  {
    assert |multiset(used) + multiset(avail) + multiset(hand) + multiset(held)| == |Ids(n)|;
  }

  /** An id in the driver's hand is nowhere else. */
  lemma LocatedOnce(used: seq<nat>, avail: seq<nat>, hand: seq<nat>, held: seq<nat>, n: nat, id: nat)
    requires Located(used, avail, hand, held, n) && id in hand
    ensures id < n && id !in used && id !in avail && id !in held
  {
    var all := multiset(used) + multiset(avail) + multiset(hand) + multiset(held);
    assert id in multiset(hand);
    assert all[id] == multiset(used)[id] + multiset(avail)[id] + multiset(hand)[id] + multiset(held)[id];
    assert all[id] <= 1;
    assert id !in multiset(used) && id !in multiset(avail) && id !in multiset(held);
  }

  /** An id pending in the used ring is nowhere else. */
  lemma LocatedUsed(used: seq<nat>, avail: seq<nat>, hand: seq<nat>, held: seq<nat>, n: nat, k: nat)
    requires Located(used, avail, hand, held, n) && k < |used|
    ensures used[k] !in avail && used[k] !in hand && used[k] !in held
  {
    var all, id := multiset(used) + multiset(avail) + multiset(hand) + multiset(held), used[k];
    assert id in multiset(used);
    assert all[id] == multiset(used)[id] + multiset(avail)[id] + multiset(hand)[id] + multiset(held)[id];
    assert all[id] <= 1;
    assert id !in multiset(avail) && id !in multiset(hand) && id !in multiset(held);
  }

  lemma LocatedPop(used: seq<nat>, avail: seq<nat>, held: seq<nat>, n: nat)
    requires Located(used, avail, [], held, n) && used != []
    ensures Located(used[1..], avail, [used[0]], held, n)
  {
    assert used == [used[0]] + used[1..];
  }

  lemma LocatedOffer(used: seq<nat>, avail: seq<nat>, id: nat, held: seq<nat>, n: nat)
    requires Located(used, avail, [id], held, n)
    ensures Located(used, avail + [id], [], held, n)
  {
  }

  lemma LocatedTake(used: seq<nat>, avail: seq<nat>, hand: seq<nat>, held: seq<nat>, n: nat)
    requires Located(used, avail, hand, held, n) && avail != []
    ensures Located(used, avail[1..], hand, held + [avail[0]], n)
  {
    assert avail == [avail[0]] + avail[1..];
  }

  lemma LocatedReturn(used: seq<nat>, avail: seq<nat>, hand: seq<nat>, held: seq<nat>, n: nat, j: nat)
    requires Located(used, avail, hand, held, n) && j < |held|
    ensures Located(used + [held[j]], avail, hand, held[..j] + held[j + 1..], n)
  {
    assert held == held[..j] + [held[j]] + held[j + 1..];
  }

  /** Every descriptor id is in exactly one place, and the rings hold what is pending. */
  ghost predicate Partition(r: Rings) {
    RingsOk(r) && Located(r.usedLog[r.popped..], r.availLog[r.taken..], r.hand, r.held, r.actual)
  }

  ghost function Popped(r: Rings): Rings
    requires r.popped < |r.usedLog|
  {
    r.(popped := r.popped + 1, hand := r.hand + [r.usedLog[r.popped]])
  }

  lemma PoppedOk(r: Rings)
    requires Partition(r) && r.popped < |r.usedLog| && r.hand == []
    ensures Partition(Popped(r))
    ensures r.usedRing[Place(r.popped - r.actual, r.size)] == r.usedLog[r.popped] < r.actual
  {
    hide Stands, Place, Located;
    StandsConsume(r.usedRing, r.usedLog, r.popped, -(r.actual as int));
    var used, avail, id := r.usedLog[r.popped..], r.availLog[r.taken..], r.usedLog[r.popped];
    LocatedPop(used, avail, r.held, r.actual);
    assert used[1..] == r.usedLog[r.popped + 1..] && used[0] == id && r.hand + [id] == [id];
    LocatedOnce(used[1..], avail, [id], r.held, r.actual, id);
  }

  ghost function Offered(r: Rings, id: nat): Rings
    requires r.hand == [id] && r.size > 0 && |r.availRing| == r.size
  {
    r.(availRing := r.availRing[Place(|r.availLog|, r.size) := id], availLog := r.availLog + [id], hand := [])
  }

  lemma OfferedOk(r: Rings, id: nat)
    requires Partition(r) && r.hand == [id]
    ensures Partition(Offered(r, id))
  {
    hide Stands, Place, Located;
    var used, avail := r.usedLog[r.popped..], r.availLog[r.taken..];
    LocatedCount(used, avail, r.hand, r.held, r.actual);
    StandsAppend(r.availRing, r.availLog, r.taken, 0, id);
    LocatedOffer(used, avail, id, r.held, r.actual);
    assert (r.availLog + [id])[r.taken..] == avail + [id];
  }

  ghost function Taken(r: Rings): Rings
    requires r.taken < |r.availLog|
  {
    r.(taken := r.taken + 1, held := r.held + [r.availLog[r.taken]])
  }

  lemma TakenOk(r: Rings)
    requires Partition(r) && r.taken < |r.availLog|
    ensures Partition(Taken(r))
    ensures r.availRing[Place(r.taken, r.size)] == r.availLog[r.taken]
  {
    hide Stands, Place, Located;
    StandsConsume(r.availRing, r.availLog, r.taken, 0);
    var used, avail := r.usedLog[r.popped..], r.availLog[r.taken..];
    LocatedTake(used, avail, r.hand, r.held, r.actual);
    assert avail[1..] == r.availLog[r.taken + 1..] && avail[0] == r.availLog[r.taken];
  }

  ghost function Returned(r: Rings, j: nat): Rings
    requires j < |r.held| && r.size > 0 && |r.usedRing| == r.size
  {
    r.(usedRing := r.usedRing[Place(|r.usedLog| - r.actual, r.size) := r.held[j]],
       usedLog := r.usedLog + [r.held[j]],
       held := r.held[..j] + r.held[j + 1..])
  }

  lemma ReturnedOk(r: Rings, j: nat)
    requires Partition(r) && j < |r.held|
    ensures Partition(Returned(r, j))
  {
    hide Stands, Place, Located;
    var used, avail, id := r.usedLog[r.popped..], r.availLog[r.taken..], r.held[j];
    LocatedCount(used, avail, r.hand, r.held, r.actual);
    StandsAppend(r.usedRing, r.usedLog, r.popped, -(r.actual as int), id);
    LocatedReturn(used, avail, r.hand, r.held, r.actual, j);
    assert (r.usedLog + [id])[r.popped..] == used + [id];
  }

  // ----- the seeded start

  /** The order in which the seeded used ring gives out the ids: 0, then actual - 1 down to 1. */
  ghost function Seeded(actual: nat): (s: seq<nat>)
    ensures |s| == actual && forall k :: 0 <= k < actual ==> s[k] == if k == 0 then 0 else actual - k
  {
    seq(actual, k requires 0 <= k < actual => if k == 0 then 0 else actual - k)
  }

  /** The entry at place -k. */
  ghost function Back(ring: seq<nat>, k: int): nat
    requires |ring| > 0
  {
    ring[Place(0 - k, |ring|)]
  }

  /** After n rounds of the seeding loop on a ring: id at place -id, and the other places as they were. */
  ghost predicate Seeding(ring: seq<nat>, ring': seq<nat>, n: nat) {
    && |ring'| == |ring| > 0
    && (forall k :: 0 <= k < n ==> Back(ring', k) == k)
    && (forall k :: n <= k < |ring| ==> Back(ring', k) == Back(ring, k))
  }

  /** What pop_used finds first was 0 before the seeding, or is the 0 that was seeded. */
  ghost predicate FirstIsZero(ring: seq<nat>, actual: nat) {
    |ring| > 0 && (actual == |ring| || Back(ring, actual) == 0)
  }

  /** The ids that actual calls of pop_used would give from the start. */
  ghost function Unpopped(ring: seq<nat>, actual: nat): (s: seq<nat>)
    requires |ring| > 0
    ensures |s| == actual && forall k :: 0 <= k < actual ==> s[k] == Back(ring, actual - k)
  {
    seq(actual, k requires 0 <= k < actual => ring[Place(k - actual, |ring|)])
  }

  ghost function Start(size: nat, actual: nat, usedRing: seq<nat>, availRing: seq<nat>): Rings {
    Rings(size, actual, usedRing, Seeded(actual), 0, availRing, [], 0, [], [])
  }

  lemma {:induction false} CountDown(s: seq<nat>, n: nat)
    requires |s| == n && forall k :: 0 <= k < n ==> s[k] == n - k
    ensures multiset(s) + multiset{0} == Ids(n + 1)
  {
    if n == 0 {
      assert Ids(1) == Ids(0) + multiset{0};
    } else {
      CountDown(s[1..], n - 1);
      assert s == [n] + s[1..];
      assert Ids(n + 1) == Ids(n) + multiset{n};
    }
  }

  lemma SeededLocated(actual: nat)
    requires actual > 0
    ensures Located(Seeded(actual)[0..], [][0..], [], [], actual)
  {
    var s := Seeded(actual);
    assert s[0..] == s == [0] + s[1..];
    CountDown(s[1..], actual - 1);
  }

  /** The seeded ring gives out 0, or what stood at its place before, and then actual - 1 down to 1. */
  lemma UnpoppedIs(ring: seq<nat>, ring': seq<nat>, actual: nat)
    requires Seeding(ring, ring', actual) && 0 < actual <= |ring|
    ensures Unpopped(ring', actual) == Seeded(actual)[0 := if actual == |ring| then 0 else Back(ring, actual)]
  {
    hide Place, Unpopped;
    if actual == |ring| {
      WholeTurn(actual);
      assert Back(ring', actual) == Back(ring', 0);
    }
  }

  /** After the seeding every id is pending once, exactly if the place behind the seeded ones was zero
      or there is none. */
  lemma SeedingOkIff(ring: seq<nat>, ring': seq<nat>, actual: nat)
    requires Seeding(ring, ring', actual) && 0 < actual <= |ring|
    ensures Located(Unpopped(ring', actual), [], [], [], actual) <==> FirstIsZero(ring, actual)
  {
    hide Place, Located, Unpopped, Seeded;
    var s, t := Unpopped(ring', actual), Seeded(actual);
    UnpoppedIs(ring, ring', actual);
    SeededLocated(actual);
    assert t[0..] == t;
    if FirstIsZero(ring, actual) {
      assert s == t;
    } else {
      LocatedFirst(t, s[0], actual);
    }
  }

  lemma AllPending(used: seq<nat>, n: nat)
    ensures Located(used, [], [], [], n) <==> multiset(used) == Ids(n)
  {
    hide Ids;
    var none: multiset<nat> := multiset([]);
    assert multiset(used) + none + none + none == multiset(used);
  }

  /** Another id in place of the first is one too many. */
  lemma LocatedFirst(t: seq<nat>, x: nat, n: nat)
    requires t != [] && Located(t, [], [], [], n) && x != t[0]
    ensures !Located(t[0 := x], [], [], [], n)
  {
    hide Ids, Located;
    var u: seq<nat> := t[0 := x];
    AllPending(t, n);
    AllPending(u, n);
    assert t == [t[0]] + t[1..] && u == [x] + t[1..];
    assert multiset(t)[x] + 1 == multiset(u)[x];
  }

  lemma StartOk(size: nat, actual: nat, ring: seq<nat>, usedRing: seq<nat>, availRing: seq<nat>)
    requires QueueSize(size) && 0 < actual <= size && actual <= MAX_ACTUAL
    requires |ring| == |availRing| == size && Seeding(ring, usedRing, actual) && FirstIsZero(ring, actual)
    ensures Partition(Start(size, actual, usedRing, availRing))
  {
    hide Place, Located;
    SeededLocated(actual);
    UnpoppedIs(ring, usedRing, actual);
    var s, base := Seeded(actual), -(actual as int);
    forall k | 0 <= k < actual ensures At(usedRing, s, k, base) {
      assert Unpopped(usedRing, actual)[k] == s[k];
    }
  }

  lemma WholeTurn(size: nat)
    requires size > 0
    ensures Place(0 - size, size) == Place(0 - 0, size)
  {
    ModPlusMultiple(0, -1, size);
  }
}
