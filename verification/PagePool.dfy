/** The page pool of kern/duck_cache.cpp.

    A cache page is a next pointer followed by 4088 content bytes.  Page k of the pool, at
    address `base + 4096 * k`, is written here as the number k, and the null pointer as NIL.
    The free list and the chain of every cached object are threaded through the same next
    pointers.  An object's chain is not terminated: only its length says where it ends.
 */
module PagePool {
  import opened Machine

  const PAGE_CONTENT: nat := 4088
  const NIL: int := -1

  /** obj_metadata: time of last use (0 marks an invalidated object), first page, length in bytes. */
  datatype Metadata = Metadata(lastUsed: nat, start: int, len: nat)

  function PagesFor(len: nat): nat {
    var n := (len + PAGE_CONTENT - 1) / PAGE_CONTENT;
    if n < 1 then 1 else n
  }

  /** The least number of pages, one at least, with 4096 bytes less a next pointer each, that hold len bytes. */
  lemma PagesForLeast(len: nat)
    ensures PagesFor(len) >= 1
    ensures forall n :: n >= 1 ==> (PagesFor(len) <= n <==> len <= 4088 * n)
  {
  }

  function Min(a: nat, b: nat): nat {
    if a < b then a else b
  }

  /** The pages met when following next pointers from p, k of them unless the walk leaves the pool. */
  function Follow(next: seq<int>, p: int, k: nat): seq<int>
    decreases k
  {
    if k == 0 || !(0 <= p < |next|) then [] else [p] + Follow(next, next[p], k - 1)
  }

  /** The pointer held after k steps from p. */
  function Walk(next: seq<int>, p: int, k: nat): int
    decreases k
  {
    if k == 0 then p else if 0 <= p < |next| then Walk(next, next[p], k - 1) else NIL
  }

  function Chain(next: seq<int>, m: Metadata): seq<int> {
    Follow(next, m.start, PagesFor(m.len))
  }

  /** The bytes that a load of `len` bytes starting at page p copies out. */
  function Gather(next: seq<int>, data: seq<seq<byte>>, p: int, len: nat): seq<byte>
    decreases len
  {
    if len == 0 || !(0 <= p < |next| && p < |data|) || |data[p]| != PAGE_CONTENT then []
    else
      var m := Min(len, PAGE_CONTENT);
      data[p][..m] + Gather(next, data, next[p], len - m)
  }

  /** The page contents after a store has copied `src` along the next pointers from page p. */
  function Scatter(next: seq<int>, data: seq<seq<byte>>, p: int, src: seq<byte>): seq<seq<byte>>
    decreases |src|
  {
    if src == [] || !(0 <= p < |next| && p < |data|) || |data[p]| != PAGE_CONTENT then data
    else
      var m := Min(|src|, PAGE_CONTENT);
      Scatter(next, data[p := src[..m] + data[p][m..]], next[p], src[m..])
  }

  ghost predicate Distinct<T>(s: seq<T>) {
    forall i, j :: 0 <= i < j < |s| ==> s[i] != s[j]
  }

  ghost predicate Disjoint(a: seq<int>, b: seq<int>) {
    forall x :: x in a ==> x !in b
  }

  ghost predicate Wellsized(next: seq<int>, data: seq<seq<byte>>) {
    |data| == |next| && forall i :: 0 <= i < |data| ==> |data[i]| == PAGE_CONTENT
  }

  /** The free list is null-terminated and holds nfree pages. */
  ghost predicate FreeListOk(next: seq<int>, head: int, nfree: nat) {
    && |Follow(next, head, nfree)| == nfree
    && Distinct(Follow(next, head, nfree))
    && Walk(next, head, nfree) == NIL < 0
  }

  /** An object owns exactly the pages its length asks for, none of them free. */
  ghost predicate ChainOk(next: seq<int>, m: Metadata, free: seq<int>) {
    && |Chain(next, m)| == PagesFor(m.len)
    && Distinct(Chain(next, m))
    && Disjoint(Chain(next, m), free)
  }

  ghost predicate Owned<K(!new)>(next: seq<int>, objs: map<K, Metadata>, x: int) {
    exists d :: d in objs && x in Chain(next, objs[d])
  }

  /** The free list and the chains of the objects partition the pool. */
  ghost predicate Partitioned<K(!new)>(next: seq<int>, head: int, nfree: nat, objs: map<K, Metadata>) {
    var free := Follow(next, head, nfree);
    && FreeListOk(next, head, nfree)
    && (forall d :: d in objs ==> ChainOk(next, objs[d], free))
    && (forall d, e :: d in objs && e in objs && d != e ==> Disjoint(Chain(next, objs[d]), Chain(next, objs[e])))
    && (forall x :: 0 <= x < |next| ==> x in free || Owned(next, objs, x))
  }

  // ----- walking

  lemma {:induction false} FollowInPool(next: seq<int>, p: int, k: nat)
    ensures |Follow(next, p, k)| <= k
    ensures forall x :: x in Follow(next, p, k) ==> 0 <= x < |next|
    decreases k
  {
    if k == 0 || !(0 <= p < |next|) {
    } else {
      FollowInPool(next, next[p], k - 1);
    }
  }

  lemma {:induction false} FollowSplit(next: seq<int>, p: int, a: nat, b: nat)
    requires |Follow(next, p, a)| == a
    ensures Follow(next, p, a + b) == Follow(next, p, a) + Follow(next, Walk(next, p, a), b)
    ensures Walk(next, p, a + b) == Walk(next, Walk(next, p, a), b)
    decreases a
  {
    if a == 0 {
      assert Follow(next, p, a) == [];
    } else {
      assert Follow(next, p, a + b) == [p] + Follow(next, next[p], a - 1 + b);
      assert Follow(next, p, a) == [p] + Follow(next, next[p], a - 1);
      FollowSplit(next, next[p], a - 1, b);
    }
  }

  lemma {:induction false} FollowPrefix(next: seq<int>, p: int, a: nat, k: nat)
    requires a <= k && |Follow(next, p, k)| == k
    ensures Follow(next, p, a) == Follow(next, p, k)[..a]
    decreases a
  {
    if a == 0 {
    } else {
      FollowInPool(next, next[p], k - 1);
      FollowPrefix(next, next[p], a - 1, k - 1);
    }
  }

  /** The j-th page of a walk is the pointer held after j steps. */
  lemma {:induction false} FollowAt(next: seq<int>, p: int, k: nat, j: nat)
    requires j < |Follow(next, p, k)|
    ensures Walk(next, p, j) == Follow(next, p, k)[j]
    ensures 0 <= Walk(next, p, j) < |next|
    ensures Walk(next, p, j + 1) == next[Walk(next, p, j)]
    decreases j
  {
    if j == 0 {
    } else {
      FollowAt(next, next[p], k - 1, j - 1);
    }
  }

  lemma {:induction false} FollowFrame(next: seq<int>, next': seq<int>, p: int, k: nat)
    requires |next'| == |next|
    requires forall x :: x in Follow(next, p, k) ==> 0 <= x < |next| && next'[x] == next[x]
    ensures Follow(next', p, k) == Follow(next, p, k)
    ensures |Follow(next, p, k)| == k ==> Walk(next', p, k) == Walk(next, p, k)
    decreases k
  {
    if k == 0 || !(0 <= p < |next|) {
    } else {
      var tail := Follow(next, next[p], k - 1);
      assert Follow(next, p, k) == [p] + tail;
      assert forall x :: x in tail ==> x in [p] + tail;
      assert p in [p] + tail;
      FollowFrame(next, next', next[p], k - 1);
    }
  }

  /** Redirecting the last page of a chain leaves the chain itself as it was. */
  lemma {:induction false} FollowRelink(next: seq<int>, p: int, k: nat, h: int)
    requires 1 <= k == |Follow(next, p, k)|
    requires Distinct(Follow(next, p, k))
    ensures var last := Follow(next, p, k)[k - 1];
            && 0 <= last < |next|
            && Follow(next[last := h], p, k) == Follow(next, p, k)
            && Walk(next[last := h], p, k) == h
    decreases k
  {
    FollowInPool(next, p, k);
    var chain := Follow(next, p, k);
    var last := chain[k - 1];
    assert last in chain;
    var next' := next[last := h];
    if k == 1 {
      assert Walk(next', next'[p], 0) == h;
      assert Follow(next', next'[p], 0) == [];
    } else {
      var tail := Follow(next, next[p], k - 1);
      assert chain == [p] + tail;
      assert Distinct(tail) by {
        forall i, j | 0 <= i < j < |tail| ensures tail[i] != tail[j] {
          assert chain[i + 1] == tail[i] && chain[j + 1] == tail[j];
        }
      }
      assert chain[0] == p && tail[k - 2] == last;
      FollowRelink(next, next[p], k - 1, h);
    }
  }

  // ----- contents

  lemma PagesForMore(len: nat)
    requires len > PAGE_CONTENT
    ensures PagesFor(len) == 1 + PagesFor(len - PAGE_CONTENT)
  {
  }

  lemma {:induction false} GatherFrame(next: seq<int>, next': seq<int>, data: seq<seq<byte>>, data': seq<seq<byte>>,
                                       p: int, len: nat)
    requires |next'| == |next| && |data| == |data'| == |next|
    requires forall x :: x in Follow(next, p, PagesFor(len)) ==>
                           0 <= x < |next| && next'[x] == next[x] && data'[x] == data[x]
    ensures Gather(next', data', p, len) == Gather(next, data, p, len)
    decreases len
  {
    if len == 0 || !(0 <= p < |next|) || |data[p]| != PAGE_CONTENT {
    } else {
      assert p in Follow(next, p, PagesFor(len));
      if len > PAGE_CONTENT {
        PagesForMore(len);
        var tail := Follow(next, next[p], PagesFor(len - PAGE_CONTENT));
        assert Follow(next, p, PagesFor(len)) == [p] + tail;
        assert forall x :: x in tail ==> x in [p] + tail;
        GatherFrame(next, next', data, data', next[p], len - PAGE_CONTENT);
      }
    }
  }

  lemma {:induction false} GatherLength(next: seq<int>, data: seq<seq<byte>>, p: int, len: nat)
    requires Wellsized(next, data)
    requires |Follow(next, p, PagesFor(len))| == PagesFor(len)
    ensures |Gather(next, data, p, len)| == len
    decreases len
  {
    if len <= PAGE_CONTENT {
    } else {
      PagesForMore(len);
      GatherLength(next, data, next[p], len - PAGE_CONTENT);
    }
  }

  lemma {:induction false} ScatterFrame(next: seq<int>, data: seq<seq<byte>>, p: int, src: seq<byte>)
    requires Wellsized(next, data)
    ensures Wellsized(next, Scatter(next, data, p, src))
    ensures forall x :: 0 <= x < |data| && x !in Follow(next, p, PagesFor(|src|)) ==>
                          Scatter(next, data, p, src)[x] == data[x]
    decreases |src|
  {
    if src == [] || !(0 <= p < |next|) {
    } else {
      var m := Min(|src|, PAGE_CONTENT);
      var data' := data[p := src[..m] + data[p][m..]];
      if |src| > PAGE_CONTENT {
        PagesForMore(|src|);
        ScatterFrame(next, data', next[p], src[m..]);
      } else {
        assert src[m..] == [];
      }
    }
  }

  /** A load reads the page at the head of the chain and goes on with the rest. */
  lemma GatherStep(next: seq<int>, data: seq<seq<byte>>, p: int, len: nat)
    requires Wellsized(next, data) && len > 0 && |Follow(next, p, PagesFor(len))| == PagesFor(len)
    ensures 0 <= p < |next| == |data| && |data[p]| == PAGE_CONTENT
    ensures var m := Min(len, PAGE_CONTENT);
            && Gather(next, data, p, len) == data[p][..m] + Gather(next, data, next[p], len - m)
            && (len > m ==> |Follow(next, next[p], PagesFor(len - m))| == PagesFor(len - m))
  {
    if len > PAGE_CONTENT {
      PagesForMore(len);
    }
  }

  /** What a store scatters along a chain of distinct pages, a load of that length gathers. */
  lemma {:induction false} GatherScatter(next: seq<int>, data: seq<seq<byte>>, p: int, src: seq<byte>)
    requires Wellsized(next, data)
    requires |Follow(next, p, PagesFor(|src|))| == PagesFor(|src|)
    requires Distinct(Follow(next, p, PagesFor(|src|)))
    ensures Gather(next, Scatter(next, data, p, src), p, |src|) == src
    decreases |src|
  {
    if src == [] {
    } else {
      var m := Min(|src|, PAGE_CONTENT);
      var data' := data[p := src[..m] + data[p][m..]];
      var after := Scatter(next, data, p, src);
      if |src| > PAGE_CONTENT {
        PagesForMore(|src|);
        var k := PagesFor(|src|) - 1;
        var tail := Follow(next, next[p], k);
        var whole := Follow(next, p, k + 1);
        assert whole == [p] + tail;
        assert Distinct(tail) by {
          forall i, j | 0 <= i < j < |tail| ensures tail[i] != tail[j] {
            assert whole[i + 1] == tail[i] && whole[j + 1] == tail[j];
          }
        }
        assert p !in tail by {
          forall i | 0 <= i < |tail| ensures tail[i] != p {
            assert whole[i + 1] == tail[i] && whole[0] == p;
          }
        }
        GatherScatter(next, data', next[p], src[m..]);
        ScatterFrame(next, data', next[p], src[m..]);
        assert after[p] == data'[p];
        assert src == src[..m] + src[m..];
      } else {
        assert src[m..] == [] && src[..m] == src;
        assert Scatter(next, data', next[p], []) == data';
        assert after == data';
      }
    }
  }

  // ----- the partition

  lemma {:induction false} DistinctCount(s: seq<int>, n: nat)
    requires Distinct(s)
    requires forall x :: x in s <==> 0 <= x < n
    ensures |s| == n
  {
    SeqCard(s);
    assert (set x | x in s) == Range(n);
  }

  function Range(n: nat): (r: set<int>)
    ensures |r| == n
    ensures forall x :: x in r <==> 0 <= x < n
  {
    if n == 0 then {} else Range(n - 1) + {n - 1}
  }

  lemma {:induction false} SeqCard<T>(s: seq<T>)
    requires Distinct(s)
    ensures |set x | x in s| == |s|
  {
    if s == [] {
    } else {
      var n := |s| - 1;
      SeqCard(s[..n]);
      assert s[n] !in s[..n];
      assert (set x | x in s) == (set x | x in s[..n]) + {s[n]};
    }
  }

  /** With no object left, every page is on the free list. */
  lemma AllFree<K(!new)>(next: seq<int>, head: int, nfree: nat, objs: map<K, Metadata>)
    requires Partitioned(next, head, nfree, objs)
    requires objs == map[]
    ensures nfree == |next|
  {
    FollowInPool(next, head, nfree);
    var free := Follow(next, head, nfree);
    forall x | 0 <= x < |next| ensures x in free {
      assert x in free || Owned(next, objs, x);
    }
    DistinctCount(free, |next|);
  }

  /** Giving the chain of object d back: its last page is pointed at the old free list head. */
  function Freed(next: seq<int>, head: int, m: Metadata): (r: seq<int>)
    requires |Chain(next, m)| == PagesFor(m.len)
    ensures |r| == |next|
  {
    FollowInPool(next, m.start, PagesFor(m.len));
    var last := Chain(next, m)[|Chain(next, m)| - 1];
    assert last in Chain(next, m);
    next[last := head]
  }

  lemma EvictKeepsOthers<K(!new)>(next: seq<int>, head: int, nfree: nat, objs: map<K, Metadata>, d: K, e: K)
    requires Partitioned(next, head, nfree, objs)
    requires d in objs && e in objs && d != e
    ensures Chain(Freed(next, head, objs[d]), objs[e]) == Chain(next, objs[e])
    ensures forall data :: Wellsized(next, data) ==>
      Gather(Freed(next, head, objs[d]), data, objs[e].start, objs[e].len) ==
      Gather(next, data, objs[e].start, objs[e].len)
  {
    var next' := Freed(next, head, objs[d]);
    var c := Chain(next, objs[e]);
    FollowInPool(next, objs[e].start, PagesFor(objs[e].len));
    assert Disjoint(Chain(next, objs[d]), c);
    assert forall x :: x in c ==> next'[x] == next[x];
    FollowFrame(next, next', objs[e].start, PagesFor(objs[e].len));
    forall data | Wellsized(next, data)
      ensures Gather(next', data, objs[e].start, objs[e].len) == Gather(next, data, objs[e].start, objs[e].len)
    {
      GatherFrame(next, next', data, data, objs[e].start, objs[e].len);
    }
  }

  lemma EvictFreeList<K(!new)>(next: seq<int>, head: int, nfree: nat, objs: map<K, Metadata>, d: K)
    requires Partitioned(next, head, nfree, objs) && d in objs
    ensures var n := PagesFor(objs[d].len);
            var next' := Freed(next, head, objs[d]);
            && FreeListOk(next', objs[d].start, nfree + n)
            && Follow(next', objs[d].start, nfree + n) == Chain(next, objs[d]) + Follow(next, head, nfree)
  {
    var m := objs[d];
    var n := PagesFor(m.len);
    var chain := Chain(next, m);
    var free := Follow(next, head, nfree);
    var next' := Freed(next, head, m);
    FollowInPool(next, m.start, n);
    FollowInPool(next, head, nfree);
    FollowRelink(next, m.start, n, head);
    assert chain[n - 1] in chain;
    FollowFrame(next, next', head, nfree);
    FollowSplit(next', m.start, n, nfree);
    var s := chain + free;
    forall i, j | 0 <= i < j < |s| ensures s[i] != s[j] {
      if i < n <= j {
        assert s[i] in chain && s[j] in free;
      } else if n <= i {
        assert s[i] == free[i - n] && s[j] == free[j - n];
      }
    }
    assert n + nfree == nfree + n;
  }

  /** Evicting object d keeps the partition. */
  lemma EvictPartition<K(!new)>(next: seq<int>, head: int, nfree: nat, objs: map<K, Metadata>, d: K)
    requires Partitioned(next, head, nfree, objs) && d in objs
    ensures Partitioned(Freed(next, head, objs[d]), objs[d].start, nfree + PagesFor(objs[d].len), objs - {d})
  {
    var next' := Freed(next, head, objs[d]);
    var objs' := objs - {d};
    var free := Follow(next, head, nfree);
    var free' := Follow(next', objs[d].start, nfree + PagesFor(objs[d].len));
    EvictFreeList(next, head, nfree, objs, d);
    forall e | e in objs' ensures Chain(next', objs'[e]) == Chain(next, objs[e]) {
      EvictKeepsOthers(next, head, nfree, objs, d, e);
    }
    forall e | e in objs' ensures ChainOk(next', objs'[e], free') {
      assert ChainOk(next, objs[e], free);
      assert Disjoint(Chain(next, objs[e]), Chain(next, objs[d]));
    }
    forall x | 0 <= x < |next'| ensures x in free' || Owned(next', objs', x) {
      if x !in free' {
        assert x in free || Owned(next, objs, x);
        var e :| e in objs && x in Chain(next, objs[e]);
        assert e in objs' && x in Chain(next', objs'[e]);
      }
    }
  }

  /** The free list from its k-th page on is still a free list, apart from its first k pages. */
  lemma CarveFreeList(next: seq<int>, head: int, nfree: nat, k: nat)
    requires FreeListOk(next, head, nfree) && k <= nfree
    ensures FreeListOk(next, Walk(next, head, k), nfree - k)
    ensures var chain, rest := Follow(next, head, k), Follow(next, Walk(next, head, k), nfree - k);
            && Follow(next, head, nfree) == chain + rest
            && |chain| == k && Distinct(chain) && Disjoint(chain, rest)
  {
    hide Follow, Walk;
    FollowPrefix(next, head, k, nfree);
    FollowSplit(next, head, k, nfree - k);
    DistinctParts(Follow(next, head, k), Follow(next, Walk(next, head, k), nfree - k));
  }

  lemma DistinctParts(a: seq<int>, b: seq<int>)
    requires Distinct(a + b)
    ensures Distinct(a) && Distinct(b) && Disjoint(a, b)
  {
    var c := a + b;
    forall i, j | 0 <= i < j < |a| ensures a[i] != a[j] {
      assert c[i] == a[i] && c[j] == a[j];
    }
    forall i, j | 0 <= i < j < |b| ensures b[i] != b[j] {
      assert c[|a| + i] == b[i] && c[|a| + j] == b[j];
    }
    forall i, j | 0 <= i < |a| && 0 <= j < |b| ensures a[i] != b[j] {
      assert c[i] == a[i] && c[|a| + j] == b[j];
    }
  }

  /** Carving a new object off the front of the free list keeps the partition. */
  lemma CarvePartition<K(!new)>(next: seq<int>, head: int, nfree: nat, objs: map<K, Metadata>, d: K, m: Metadata)
    requires Partitioned(next, head, nfree, objs) && d !in objs
    requires m.start == head && PagesFor(m.len) <= nfree
    ensures Partitioned(next, Walk(next, head, PagesFor(m.len)), nfree - PagesFor(m.len), objs[d := m])
    ensures Chain(next, m) == Follow(next, head, nfree)[..PagesFor(m.len)]
  {
    var n := PagesFor(m.len);
    CarveFreeList(next, head, nfree, n);
    hide Distinct;
    var free := Follow(next, head, nfree);
    var free' := Follow(next, Walk(next, head, n), nfree - n);
    var chain := Chain(next, m);
    var objs' := objs[d := m];
    assert forall x :: x in free <==> x in chain || x in free';
    forall e | e in objs ensures ChainOk(next, objs[e], free') && Disjoint(Chain(next, objs[e]), chain)
                                 && Disjoint(chain, Chain(next, objs[e])) {
      assert ChainOk(next, objs[e], free);
    }
    forall x | 0 <= x < |next| ensures x in free' || Owned(next, objs', x) {
      if x in chain {
        assert d in objs' && x in Chain(next, objs'[d]);
      } else if x !in free' {
        assert Owned(next, objs, x);
        var e :| e in objs && x in Chain(next, objs[e]);
        assert e in objs' && objs'[e] == objs[e];
      }
    }
  }
}
