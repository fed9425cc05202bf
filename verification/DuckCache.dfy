/** The cache object of kern/duck_cache.cpp: three parallel arrays sorted by digest, a page pool
    threaded by next pointers, and an id array for finding what to evict.

    The clock (Timer::tsc_since_epoch) is a parameter.  It must be positive, because a last-use
    time of 0 marks an invalidated object.  Addresses of pages are page numbers (see PagePool). */
module DuckCaching {
  import opened Machine
  import opened PagePool
  import opened DigestIndex
  import opened CacheSpec
  import opened CacheState

  const HUGE_PAGE_SIZE: nat := 0x200000

  function RoundUp(x: nat, r: nat): nat
    requires r > 0
  {
    (x + r - 1) / r * r
  }

  /** The bytes taken by the four tables in front of the page pool. */
  function TableBytes(maxObjects: nat): nat {
    RoundUp(maxObjects * 8, PAGE_SIZE) + RoundUp(maxObjects * 32, PAGE_SIZE) +
    RoundUp(maxObjects * 24, PAGE_SIZE) + RoundUp(maxObjects * 8, PAGE_SIZE)
  }

  /** The number of pages that init links, for a cache that is not too small. */
  function PoolPages(maxObjects: nat, cacheSize: nat): nat
    requires TableBytes(maxObjects) < cacheSize
  {
    (cacheSize - TableBytes(maxObjects) + PAGE_SIZE - 1) / PAGE_SIZE
  }

  lemma TablesAligned(maxObjects: nat) returns (t: nat)
    ensures TableBytes(maxObjects) == PAGE_SIZE * t
  {
    t := (maxObjects * 8 + 4095) / 4096 + (maxObjects * 32 + 4095) / 4096 +
         (maxObjects * 24 + 4095) / 4096 + (maxObjects * 8 + 4095) / 4096;
  }

  /** The tables hold a hash, a digest, a metadata record and an id for each object, 72 bytes, each table
      rounded up to pages. */
  lemma TableBytesAre(maxObjects: nat)
    ensures 72 * maxObjects <= TableBytes(maxObjects) < 72 * maxObjects + 4 * 4096
    ensures TableBytes(maxObjects) % 4096 == 0
    ensures maxObjects % 512 == 0 ==> TableBytes(maxObjects) == 72 * maxObjects
  {
    hide RoundUp;
    RoundUpIs(maxObjects * 8);
    RoundUpIs(maxObjects * 32);
    RoundUpIs(maxObjects * 24);
    WholePages(maxObjects);
    if maxObjects % 512 == 0 {
      FullTables(maxObjects / 512);
    }
  }

  lemma WholePages(maxObjects: nat)
    ensures TableBytes(maxObjects) % 4096 == 0
  {
    hide TableBytes;
    var t := TablesAligned(maxObjects);
    PageMultiple(t);
  }

  lemma PageMultiple(t: nat)
    ensures PAGE_SIZE * t % 4096 == 0
  {
  }

  lemma FullTables(k: nat)
    ensures TableBytes(512 * k) == 72 * (512 * k)
  {
    hide RoundUp;
    RoundUpWhole(k);
    RoundUpWhole(4 * k);
    RoundUpWhole(3 * k);
    assert 512 * k * 8 == 4096 * k && 512 * k * 32 == 4096 * (4 * k) && 512 * k * 24 == 4096 * (3 * k);
  }

  lemma RoundUpIs(x: nat)
    ensures x <= RoundUp(x, 4096) < x + 4096
  {
  }

  lemma RoundUpWhole(q: nat)
    ensures RoundUp(4096 * q, 4096) == 4096 * q
  {
  }

  /** The last page may pass the end of the cache, but not the end of what was allocated for it. */
  lemma PoolInAllocation(maxObjects: nat, cacheSize: nat)
    requires TableBytes(maxObjects) + PAGE_SIZE < cacheSize
    ensures PoolPages(maxObjects, cacheSize) >= 2
    ensures TableBytes(maxObjects) + PAGE_SIZE * PoolPages(maxObjects, cacheSize) <= RoundUp(cacheSize, HUGE_PAGE_SIZE)
    ensures cacheSize % PAGE_SIZE == 0 ==>
              TableBytes(maxObjects) + PAGE_SIZE * PoolPages(maxObjects, cacheSize) == cacheSize
  {
    var t := TablesAligned(maxObjects);
    var n := PoolPages(maxObjects, cacheSize);
    PagesWithin(t, n, cacheSize);
  }

  lemma PagesWithin(t: nat, n: nat, size: nat)
    requires 4096 * t + 4096 < size && n == (size - 4096 * t + 4095) / 4096
    ensures n >= 2 && 4096 * t + 4096 * n <= RoundUp(size, HUGE_PAGE_SIZE)
    ensures size % 4096 == 0 ==> 4096 * t + 4096 * n == size
  {
    hide RoundUp;
    assert 4096 * (t + n - 1) < size <= 4096 * (t + n);
    HugePagesHold(size, t + n);
  }

  lemma HugePagesHold(size: nat, pages: nat)
    requires 4096 * (pages - 1) < size
    ensures 4096 * pages <= RoundUp(size, HUGE_PAGE_SIZE)
  {
    var h := (size + 0x1fffff) / 0x200000;
    assert size <= 0x200000 * h == 4096 * (512 * h);
    assert pages <= 512 * h;
  }

  ghost predicate Ascending(a: seq<u64>) {
    forall i, j :: 0 <= i < j < |a| ==> a[i] <= a[j]
  }

  lemma HashesAscend(hashes: seq<u64>, ds: seq<Digest>, ms: seq<Metadata>)
    requires IndexOk(hashes, ds, ms)
    ensures Ascending(hashes)
  {
    forall i, j | 0 <= i < j < |hashes| ensures hashes[i] <= hashes[j] {
      assert Less(ds[i], ds[j]);
    }
  }

  /** In a sorted index the first digest that is not below d decides. */
  lemma StopsAt(ds: seq<Digest>, d: Digest, idx: nat)
    requires StrictlySorted(ds) && idx < |ds| && (forall i :: 0 <= i < idx ==> Less(ds[i], d)) && !Less(ds[idx], d)
    ensures IsLowerBound(ds, d, idx) && (d in ds <==> ds[idx] == d)
  {
    forall i | idx < i < |ds| ensures Less(d, ds[i]) {
      assert Less(ds[idx], ds[i]);
    }
  }

  /** The two ways in which a store leaves everything as it was. */
  lemma StoreUnchanged(s: State, d: Digest, src: seq<byte>, now: nat)
    ensures d in s.entries ==> StoreStep(s, d, src, now, true, [], s)
    ensures d !in s.entries && PagesFor(|src|) > s.totalPages ==> StoreStep(s, d, src, now, false, [], s)
  {
  }

  /** Making room and then adding the entry is a store. */
  lemma StoreNew(s0: State, s1: State, s2: State, d: Digest, src: seq<byte>, now: nat, gone: seq<Digest>)
    requires d !in s0.entries && PagesFor(|src|) <= s0.totalPages && Evicts(s0, gone, PagesFor(|src|))
    requires s1.entries == s0.entries - Keys(gone) && s1.freePages == s0.freePages + PagesOf(s0.entries, gone)
    requires s2.entries == s1.entries[d := Entry(src, now)] && s2.freePages + PagesFor(|src|) == s1.freePages
    requires s2.totalPages == s1.totalPages == s0.totalPages && s2.maxObjects == s1.maxObjects == s0.maxObjects
    ensures StoreStep(s0, d, src, now, true, gone, s2)
  {
    hide Evicts;
  }

  /** A store in full: what stays, what comes, and that nothing that goes was used after what is kept. */
  ghost predicate Exchanged(s: State, d: Digest, src: seq<byte>, now: nat, ok: bool, gone: seq<Digest>, s': State) {
    if !ok || d in s.entries then s' == s && gone == []
    else
      && (forall e :: e in s'.entries <==> e == d || (e in s.entries && e !in gone))
      && s'.entries[d] == Entry(src, now)
      && (forall e :: e in s'.entries && e != d ==> s'.entries[e] == s.entries[e])
      && (forall e, f :: e in gone && f in s.entries && f !in gone ==>
            e in s.entries && s.entries[e].lastUsed <= s.entries[f].lastUsed)
  }

  lemma StoreMeans(s: State, d: Digest, src: seq<byte>, now: nat, ok: bool, gone: seq<Digest>, s': State)
    requires StoreStep(s, d, src, now, ok, gone, s')
    ensures Exchanged(s, d, src, now, ok, gone, s')
  {
    hide Room, PagesOf;
  }

  lemma NothingGathered(next: seq<int>, data: seq<seq<byte>>, p: int)
    requires |next| == |data|
    ensures Gather(next, data, p, 0) == []
  {
  }

  /** std::lower_bound over a[lo..hi]. */
  method LowerBound(a: array<u64>, lo: nat, hi: nat, x: u64) returns (idx: nat)
    requires lo <= hi <= a.Length && Ascending(a[lo..hi])
    ensures lo <= idx <= hi
    ensures forall i :: lo <= i < idx ==> a[i] < x
    ensures forall i :: idx <= i < hi ==> a[i] >= x
  {
    var l, r := lo, hi;
    while l < r
      invariant lo <= l <= r <= hi
      invariant forall i :: lo <= i < l ==> a[i] < x
      invariant forall i :: r <= i < hi ==> a[i] >= x
    {
      var mid := (l + r) / 2;
      assert forall i :: lo <= i < hi ==> a[i] == a[lo..hi][i - lo];
      if a[mid] < x { l := mid + 1; } else { r := mid; }
    }
    idx := l;
  }

  /** std::upper_bound over a[lo..hi]. */
  method UpperBound(a: array<u64>, lo: nat, hi: nat, x: u64) returns (idx: nat)
    requires lo <= hi <= a.Length && Ascending(a[lo..hi])
    ensures lo <= idx <= hi
    ensures forall i :: lo <= i < idx ==> a[i] <= x
    ensures forall i :: idx <= i < hi ==> a[i] > x
  {
    var l, r := lo, hi;
    while l < r
      invariant lo <= l <= r <= hi
      invariant forall i :: lo <= i < l ==> a[i] <= x
      invariant forall i :: r <= i < hi ==> a[i] > x
    {
      var mid := (l + r) / 2;
      assert forall i :: lo <= i < hi ==> a[i] == a[lo..hi][i - lo];
      if a[mid] <= x { l := mid + 1; } else { r := mid; }
    }
    idx := l;
  }

  /** memmove of a[idx..n] one place up, then a store at idx. */
  method ShiftInsert<T>(a: array<T>, idx: nat, n: nat, x: T)
    requires idx <= n < a.Length
    modifies a
    ensures a[..n + 1] == Inserted(old(a[..n]), idx, x)
  {
    hide Inserted;
    ghost var was := a[..n];
    var i := n;
    while i > idx
      invariant idx <= i <= n
      invariant forall k :: 0 <= k <= i && k < n ==> a[k] == was[k]
      invariant forall k :: i <= k < n ==> a[k + 1] == was[k]
    {
      a[i] := a[i - 1];
      i := i - 1;
    }
    a[idx] := x;
    ghost var now := a[..n + 1];
    InsertedIs(was, idx, x, n);
    forall k | 0 <= k <= n ensures now[k] == Inserted(was, idx, x)[k] {
      assert now[k] == a[k];
      InsertedIs(was, idx, x, k);
      if k > idx {
        var j := k - 1;
        assert a[j + 1] == was[j];
      }
    }
    assert now == Inserted(was, idx, x);
  }

  lemma InsertedIs<T>(xs: seq<T>, idx: nat, x: T, k: nat)
    requires idx <= |xs| && k <= |xs|
    ensures |Inserted(xs, idx, x)| == |xs| + 1
    ensures Inserted(xs, idx, x)[k] == if k < idx then xs[k] else if k == idx then x else xs[k - 1]
  {
  }

  class DuckCache {
    const maxObjects: nat
    const totalPages: nat
    var curObjects: nat
    var freeHead: int
    var freePages: nat

    const objHash: array<u64>
    const objDigest: array<Digest>
    const objMeta: array<Metadata>
    const sortIds: array<nat>
    const pageNext: array<int>
    const pageData: array<seq<byte>>

    ghost predicate Shape()
      reads this
    {
      && 1 <= maxObjects == objHash.Length == objDigest.Length == objMeta.Length == sortIds.Length
      && 1 <= totalPages == pageNext.Length == pageData.Length
      && curObjects <= maxObjects
      && Separate()
    }

    /** The six arrays are six arrays. */
    ghost predicate Separate()
      reads this
    {
      var hash: object, digest: object, meta: object := objHash, objDigest, objMeta;
      var ids: object, next: object, data: object := sortIds, pageNext, pageData;
      && hash != digest && hash != meta && hash != ids && hash != next && hash != data
      && digest != meta && digest != ids && digest != next && digest != data
      && meta != ids && meta != next && meta != data
      && ids != next && ids != data && next != data
    }

    /** The fields as one value, with `extra` freed pages that n_free_pages does not count yet. */
    ghost function Snap(extra: nat): Snapshot
      requires Shape()
      reads this, objHash, objDigest, objMeta, pageNext, pageData
    {
      Snapshot(objHash[..curObjects], objDigest[..curObjects], objMeta[..curObjects],
               pageNext[..], pageData[..], freeHead, freePages + extra)
    }

    ghost predicate Valid()
      reads this, objHash, objDigest, objMeta, pageNext, pageData
    {
      Shape() && Ok(Snap(0))
    }

    ghost function View(): State
      requires Valid()
      reads this, objHash, objDigest, objMeta, pageNext, pageData
    {
      StateOf(Snap(0), maxObjects)
    }

    /** init: all pages on the free list, in address order. */
    constructor (maxObjects: nat, cacheSize: nat)
      requires maxObjects >= 1
      requires TableBytes(maxObjects) + PAGE_SIZE < cacheSize
      ensures Valid() && Initial(View())
      ensures View().maxObjects == maxObjects
      ensures PAGE_SIZE * (View().totalPages - 1) < cacheSize - TableBytes(maxObjects) <= PAGE_SIZE * View().totalPages
      ensures fresh(objHash) && fresh(objDigest) && fresh(objMeta) && fresh(sortIds) && fresh(pageNext)
      ensures fresh(pageData)
    {
      PoolInAllocation(maxObjects, cacheSize);
      var total := PoolPages(maxObjects, cacheSize);
      this.maxObjects, totalPages := maxObjects, total;
      curObjects, freeHead, freePages := 0, 0, 0;
      objHash := new u64[maxObjects];
      objDigest := new Digest[maxObjects](_ => Digest(0, 0, 0, 0));
      objMeta := new Metadata[maxObjects](_ => Metadata(0, 0, 0));
      sortIds := new nat[maxObjects];
      pageNext := new int[total];
      pageData := new seq<byte>[total](_ => seq(PAGE_CONTENT, _ => 0));
      new;
      var n := LinkPages(pageNext, maxObjects, cacheSize);
      freePages := n;
      FreshPool<Digest>(pageNext[..]);
    }

    /** The objects whose first word is that of the digest. */
    method Window(digest: Digest) returns (idx1: nat, idx2: nat)
      requires Valid()
      ensures idx1 <= idx2 <= curObjects
      ensures forall i :: 0 <= i < idx1 ==> Less(objDigest[i], digest)
      ensures forall i :: idx2 <= i < curObjects ==> Less(digest, objDigest[i])
    {
      hide Partitioned, Live, AllLive, Wellsized, StrictlySorted;
      ghost var ds := objDigest[..curObjects];
      HashesAscend(objHash[..curObjects], ds, objMeta[..curObjects]);
      assert objHash[0..curObjects] == objHash[..curObjects];
      idx1 := LowerBound(objHash, 0, curObjects, digest.a0);
      assert objHash[idx1..curObjects] == objHash[..curObjects][idx1..];
      idx2 := UpperBound(objHash, idx1, curObjects, digest.a0);
      forall i | 0 <= i < curObjects ensures objHash[i] == objDigest[i].a0 {
        assert objHash[..curObjects][i] == ds[i].a0;
      }
    }

    /** find: true exactly for a stored digest, and always its lower bound. */
    method Find(digest: Digest) returns (found: bool, idx: nat)
      requires Valid()
      ensures idx <= curObjects && IsLowerBound(objDigest[..curObjects], digest, idx)
      ensures found <==> digest in objDigest[..curObjects]
      ensures found ==> idx < curObjects && objDigest[idx] == digest
    {
      hide Partitioned, Live, AllLive, Wellsized, Value;
      if curObjects == 0 {
        return false, 0;
      }
      ghost var ds := objDigest[..curObjects];
      var idx1, idx2 := Window(digest);
      idx := idx1;
      while idx < idx2
        invariant idx1 <= idx <= idx2
        invariant forall i :: 0 <= i < idx ==> Less(ds[i], digest)
      {
        var r := CmpDigest(objDigest[idx], digest);
        assert objDigest[idx] == ds[idx];
        if r >= 0 {
          StopsAt(ds, digest, idx);
          found := r == 0;
          return;
        }
        idx := idx + 1;
      }
      found := false;
    }

    /** load: the stored bytes, when the digest is present with the required length. */
    method Load(digest: Digest, requiredLen: nat, now: nat) returns (ok: bool, dst: seq<byte>)
      requires Valid() && now > 0
      modifies objMeta
      ensures Valid() && LoadStep(old(View()), digest, requiredLen, now, ok, dst, View())
      ensures ok <==> digest in old(View()).entries && |old(View()).entries[digest].bytes| == requiredLen
      ensures ok ==> dst == old(View()).entries[digest].bytes
      ensures View().entries == if ok then old(View()).entries[digest := Entry(dst, now)] else old(View()).entries
    {
      hide Consistent, AllLive, Contents, IsLowerBound;
      ok, dst := false, [];
      ghost var s := Snap(0);
      ContentsKeys(s);
      var found, idx := Find(digest);
      if !found {
        return;
      }
      ContentsAt(s, idx);
      TouchedOk(s, idx, now);
      assert s.ms[idx] == objMeta[idx];
      var m := objMeta[idx];
      if m.len != requiredLen {
        return;
      }
      objMeta[idx] := m.(lastUsed := now);
      assert Snap(0) == Touched(s, idx, now);
      dst := ReadChain(m.start, requiredLen);
      ok := true;
    }

    /** The copy loop of load. */
    method ReadChain(start: int, len: nat) returns (dst: seq<byte>)
      requires Wellsized(pageNext[..], pageData[..])
      requires |Follow(pageNext[..], start, PagesFor(len))| == PagesFor(len)
      ensures dst == Gather(pageNext[..], pageData[..], start, len)
    {
      hide Gather, Follow, PagesFor;
      dst := [];
      var addr := start;
      var cur := 0;
      ghost var next, data := pageNext[..], pageData[..];
      NothingGathered(next, data, start);
      while cur < len
        invariant cur < len ==> |Follow(next, addr, PagesFor(len - cur))| == PagesFor(len - cur)
        invariant cur <= len ==> dst + Gather(next, data, addr, len - cur) == Gather(next, data, start, len)
        invariant cur > len ==> dst == Gather(next, data, start, len)
      {
        GatherStep(next, data, addr, len - cur);
        NothingGathered(next, data, next[addr]);
        dst := dst + pageData[addr][..Min(len - cur, PAGE_CONTENT)];
        addr := pageNext[addr];
        cur := cur + PAGE_CONTENT;
      }
      NothingGathered(next, data, addr);
    }

    /** Fill sort_ids with the indices. */
    method FillIds()
      requires Shape()
      modifies sortIds
      ensures PartialOrder(sortIds[..curObjects], objMeta[..curObjects], 0)
    {
      var i := 0;
      while i < curObjects
        invariant 0 <= i <= curObjects
        invariant forall k :: 0 <= k < i ==> sortIds[k] == k
      {
        sortIds[i] := i;
        i := i + 1;
      }
      forall x | 0 <= x < curObjects ensures x in sortIds[..curObjects] {
        assert sortIds[..curObjects][x] == x;
      }
    }

    /** Order sort_ids by time of last use. */
    method OrderIds()
      requires Shape()
      modifies sortIds
      ensures IsLruOrder(sortIds[..curObjects], objMeta[..curObjects])
    {
      hide PartialOrder;
      FillIds();
      var i := 0;
      while i < curObjects
        invariant 0 <= i <= curObjects
        invariant PartialOrder(sortIds[..curObjects], objMeta[..curObjects], i)
      {
        SelectNext(i);
        i := i + 1;
      }
    }

    method SelectNext(i: nat)
      requires Shape() && i < curObjects && PartialOrder(sortIds[..curObjects], objMeta[..curObjects], i)
      modifies sortIds
      ensures PartialOrder(sortIds[..curObjects], objMeta[..curObjects], i + 1)
    {
      hide PartialOrder;
      ghost var before, ms := sortIds[..curObjects], objMeta[..curObjects];
      OrderInRange(before, ms, i);
      assert forall k :: 0 <= k < curObjects ==> sortIds[k] == before[k] && objMeta[k] == ms[k];
      var least := LeastFrom(i);
      sortIds[i], sortIds[least] := sortIds[least], sortIds[i];
      assert sortIds[..curObjects] == before[i := before[least]][least := before[i]];
      SelectionStep(before, ms, i, least);
    }

    /** Give the chain of one object back to the free list and invalidate the object. */
    method EvictOne(id: nat, ghost extra: nat) returns (pages: nat)
      requires Shape() && id < curObjects && |Snap(extra).ms| == curObjects
      requires |Chain(pageNext[..], objMeta[id])| == PagesFor(objMeta[id].len)
      modifies this`freeHead, objMeta, pageNext
      ensures Shape() && pages == PagesFor(old(objMeta[id]).len)
      ensures Snap(extra + pages) == Evicted(old(Snap(extra)), id)
    {
      var m := objMeta[id];
      ghost var next, ms := pageNext[..], objMeta[..curObjects];
      ghost var chain := Chain(next, m);
      pages := PagesFor(m.len);
      objMeta[id] := m.(lastUsed := 0);
      assert objMeta[..curObjects] == ms[id := m.(lastUsed := 0)];
      var addr := m.start;
      var page := 1;
      FollowAt(next, m.start, pages, 0);
      while page < pages
        invariant 1 <= page <= pages && pageNext[..] == next
        invariant addr == Walk(next, m.start, page - 1) == chain[page - 1]
        invariant 0 <= addr < pageNext.Length
        modifies {}
      {
        FollowAt(next, m.start, pages, page - 1);
        FollowAt(next, m.start, pages, page);
        addr := pageNext[addr];
        page := page + 1;
      }
      pageNext[addr] := freeHead;
      assert addr == chain[|chain| - 1];
      assert pageNext[..] == Freed(next, freeHead, m);
      freeHead := m.start;
      assert objMeta[..curObjects] == ms[id := m.(lastUsed := 0)];
      assert old(Snap(extra)).ms[id] == m;
    }

    /** The body of the eviction loop. */
    method EvictNext(i: nat, need: nat, removed: nat, ghost s0: Snapshot, ghost ids: seq<nat>)
      returns (pages: nat, stillNeed: bool)
      requires Shape() && i < curObjects == |s0.ds| && sortIds[..curObjects] == ids
      requires Progress(s0, Snap(removed), ids, i)
      modifies this`freeHead, objMeta, pageNext
      ensures Shape()
      ensures Progress(s0, Snap(removed + pages), ids, i + 1)
      ensures stillNeed <==> NoRoom(s0, ids, i + 1, maxObjects, need)
    {
      hide Dropped, Consistent, AllLive, Room;
      ProgressStep(s0, Snap(removed), ids, i);
      var id := sortIds[i];
      assert id == ids[i] && Snap(removed).ms[id] == objMeta[id];
      pages := EvictOne(id, removed);
      RoomTest(s0, Snap(removed + pages), ids, i + 1, maxObjects, need);
      stillNeed := need > freePages + removed + pages || curObjects + 1 > maxObjects + i + 1;
    }

    /** Evict in order of last use until there is room. */
    method EvictUntilRoom(need: nat, ghost s0: Snapshot,
                          ghost ids: seq<nat>) returns (removedPages: nat, removedObjects: nat)
      requires Shape() && ids == sortIds[..curObjects] && |s0.ds| == curObjects
      requires Progress(s0, Snap(0), ids, 0) && NoRoom(s0, ids, 0, maxObjects, need)
      modifies this`freeHead, objMeta, pageNext
      ensures Shape() && removedObjects <= curObjects
      ensures Progress(s0, Snap(removedPages), ids, removedObjects)
      ensures forall k :: 0 <= k < removedObjects ==> NoRoom(s0, ids, k, maxObjects, need)
      ensures removedObjects == curObjects || !NoRoom(s0, ids, removedObjects, maxObjects, need)
    {
      hide Progress, NoRoom;
      removedPages, removedObjects := 0, 0;
      var i := 0;
      while i < curObjects
        invariant Shape() && 0 <= i <= curObjects && removedObjects == i
        invariant Progress(s0, Snap(removedPages), ids, i)
        invariant forall k :: 0 <= k <= i ==> NoRoom(s0, ids, k, maxObjects, need)
      {
        var pages, stillNeed := EvictNext(i, need, removedPages, s0, ids);
        removedObjects := removedObjects + 1;
        removedPages := removedPages + pages;
        i := i + 1;
        if !stillNeed {
          break;
        }
      }
    }

    ghost function Tables(): Index
      requires Shape()
      reads this, objHash, objDigest, objMeta
    {
      Index(objHash[..curObjects], objDigest[..curObjects], objMeta[..curObjects])
    }

    /** Close the gaps the invalidated objects leave in the three arrays. */
    method Defrag() returns (j: nat)
      requires Shape()
      modifies objHash, objDigest, objMeta
      ensures j <= curObjects
      ensures Index(objHash[..j], objDigest[..j], objMeta[..j]) == CompactIndex(old(Tables()))
    {
      hide CompactIndex, Compacting, Moved;
      ghost var orig := Tables();
      CompactingStart(orig);
      j := 0;
      var i := 0;
      while i < curObjects
        invariant 0 <= j <= i <= curObjects
        invariant Compacting(Tables(), orig, i, j)
      {
        CompactingStep(Tables(), orig, i, j);
        if objMeta[i].lastUsed != 0 {
          MoveDown(i, j);
          j := j + 1;
        }
        i := i + 1;
      }
      CompactingEnd(Tables(), orig, j);
    }

    /** Copy entry i of the three arrays to place j. */
    method MoveDown(i: nat, j: nat)
      requires Shape() && j <= i < curObjects
      modifies objHash, objDigest, objMeta
      ensures Tables() == Moved(old(Tables()), i, j)
    {
      objHash[j] := objHash[i];
      objDigest[j] := objDigest[i];
      objMeta[j] := objMeta[i];
    }

    /** Order the objects and evict until there is room. */
    method RemoveObjects(need: nat) returns (removedPages: nat, removedObjects: nat, ghost gone: seq<Digest>)
      requires Valid() && need <= totalPages
      requires need > freePages || curObjects + 1 > maxObjects
      modifies this`freeHead, objMeta, sortIds, pageNext
      ensures Shape() && removedObjects == |gone| <= curObjects
      ensures Evicts(old(View()), gone, need)
      ensures Dropped(old(Snap(0)), Snap(removedPages), gone)
    {
      ghost var s0 := Snap(0);
      OrderIds();
      ghost var ids := sortIds[..curObjects];
      assert Snap(0) == s0;
      ProgressStart(s0, ids);
      RoomTest(s0, s0, ids, 0, maxObjects, need);
      hide Ok, Dropped, Evicts, Progress;
      removedPages, removedObjects := EvictUntilRoom(need, s0, ids);
      EvictionResult(s0, Snap(removedPages), ids, removedObjects, maxObjects, need);
      gone := Victims(s0.ds, ids, removedObjects);
    }

    /** The removal part of store: afterwards there are `need` free pages and an object slot. */
    method MakeRoom(need: nat) returns (ghost gone: seq<Digest>)
      requires Valid() && need <= totalPages
      requires need > freePages || curObjects + 1 > maxObjects
      modifies this, objHash, objDigest, objMeta, sortIds, pageNext
      ensures Valid()
      ensures Evicts(old(View()), gone, need)
      ensures View().entries == old(View()).entries - Keys(gone)
      ensures freePages == old(freePages) + PagesOf(old(View()).entries, gone)
      ensures need <= freePages && curObjects + 1 <= maxObjects
    {
      hide Consistent, AllLive, Evicts, Compact, Contents;
      ghost var s0 := Snap(0);
      var removedPages, removedObjects;
      removedPages, removedObjects, gone := RemoveObjects(need);
      ghost var s1 := Snap(removedPages);
      RoomLeft(s0, s1, gone, maxObjects, need);
      var j := Defrag();
      curObjects := curObjects - removedObjects;
      freePages := freePages + removedPages;
      assert Snap(0) == Compacted(s1);
    }

    /** The copy loop of store, and where it leaves the free list. */
    method WriteChain(start: int, src: seq<byte>) returns (addr: int)
      requires Shape() && Wellsized(pageNext[..], pageData[..])
      requires |Follow(pageNext[..], start, PagesFor(|src|))| == PagesFor(|src|)
      modifies pageData
      ensures pageData[..] == Scatter(pageNext[..], old(pageData[..]), start, src)
      ensures addr == Walk(pageNext[..], start, PagesFor(|src|))
    {
      ghost var next, data := pageNext[..], pageData[..];
      ghost var pages := PagesFor(|src|);
      var rest := src;
      addr := start;
      ghost var k := 0;
      while rest != []
        invariant k <= pages
        invariant (if rest == [] then k == (if src == [] then 0 else pages) else PagesFor(|rest|) == pages - k)
        invariant addr == Walk(next, start, k)
        invariant pageNext[..] == next && Wellsized(next, pageData[..])
        invariant Scatter(next, pageData[..], addr, rest) == Scatter(next, data, start, src)
        decreases |rest|
      {
        FollowAt(next, start, pages, k);
        ghost var before := pageData[..];
        var m := Min(|rest|, PAGE_CONTENT);
        pageData[addr] := rest[..m] + pageData[addr][m..];
        assert pageData[..] == before[addr := rest[..m] + before[addr][m..]];
        addr := pageNext[addr];
        rest := rest[m..];
        k := k + 1;
      }
      if |src| == 0 {
        FollowAt(next, start, pages, 0);
        addr := pageNext[addr];
      }
    }

    /** Open a place at idx in the three arrays, carve the object off the free list and fill it. */
    method Insert(idx: nat, digest: Digest, src: seq<byte>, now: nat)
      requires Valid() && now > 0 && curObjects + 1 <= maxObjects && PagesFor(|src|) <= freePages
      requires idx <= curObjects
      modifies this, objHash, objDigest, objMeta, pageData
      ensures Shape()
      ensures Snap(0) == Added(old(Snap(0)), idx, digest, src, now)
    {
      ghost var s0 := Snap(0);
      hide Consistent, Walk, Follow, Scatter, Wellsized;
      FreePrefix(s0, PagesFor(|src|));
      ShiftInsert(objHash, idx, curObjects, digest.a0);
      ShiftInsert(objDigest, idx, curObjects, digest);
      ShiftInsert(objMeta, idx, curObjects, Metadata(now, freeHead, |src|));
      curObjects := curObjects + 1;
      var addr := WriteChain(freeHead, src);
      freePages := freePages - PagesFor(|src|);
      freeHead := addr;
    }

    /** Make room if there is not enough, and find where the digest goes. */
    method Prepare(digest: Digest, need: nat, idx0: nat) returns (idx: nat, ghost gone: seq<Digest>)
      requires Valid() && need <= totalPages && digest !in Snap(0).ds
      requires idx0 <= curObjects && IsLowerBound(Snap(0).ds, digest, idx0)
      modifies this, objHash, objDigest, objMeta, sortIds, pageNext
      ensures Valid()
      ensures Evicts(old(View()), gone, need)
      ensures View().entries == old(View()).entries - Keys(gone)
      ensures freePages == old(freePages) + PagesOf(old(View()).entries, gone)
      ensures need <= freePages && curObjects + 1 <= maxObjects
      ensures idx <= curObjects && digest !in Snap(0).ds && IsLowerBound(Snap(0).ds, digest, idx)
    {
      hide Consistent, AllLive, Contents, Evicts, IsLowerBound, PagesOf, Separate, PagesFor;
      ghost var s0 := Snap(0);
      ContentsKeys(s0);
      if need > freePages || curObjects + 1 > maxObjects {
        gone := MakeRoom(need);
        ContentsKeys(Snap(0));
        assert digest !in Contents(Snap(0));
        var found;
        found, idx := Find(digest);
      } else {
        NothingGone(s0, maxObjects, need);
        idx, gone := idx0, [];
      }
    }

    /** store: true exactly when the digest is present or its pages fit in the pool. */
    method Store(digest: Digest, src: seq<byte>, now: nat) returns (ok: bool, ghost gone: seq<Digest>)
      requires Valid() && now > 0
      requires |src| + PAGE_CONTENT <= TWO64
      modifies this, objHash, objDigest, objMeta, sortIds, pageNext, pageData
      ensures Valid() && StoreStep(old(View()), digest, src, now, ok, gone, View())
      ensures ok <==> digest in old(View()).entries || |src| <= 4088 * old(View()).totalPages
      ensures Exchanged(old(View()), digest, src, now, ok, gone, View())
    {
      hide Consistent, AllLive, Contents, Evicts, IsLowerBound, StoreStep, Exchanged;
      PagesForLeast(|src|);
      gone := [];
      ghost var s0 := View();
      ContentsKeys(Snap(0));
      StoreUnchanged(s0, digest, src, now);
      var found, idx := Find(digest);
      if found {
        StoreMeans(s0, digest, src, now, true, [], View());
        return true, [];
      }
      var need := PagesFor(|src|);
      if need > totalPages {
        StoreMeans(s0, digest, src, now, false, [], View());
        return false, [];
      }
      idx, gone := Prepare(digest, need, idx);
      AddedOk(Snap(0), idx, digest, src, now);
      ghost var s1 := View();
      Insert(idx, digest, src, now);
      StoreNew(s0, s1, View(), digest, src, now, gone);
      StoreMeans(s0, digest, src, now, true, gone, View());
      ok := true;
    }

    /** The least recently used object from place i of sort_ids on. */
    method LeastFrom(i: nat) returns (least: nat)
      requires Shape() && i < curObjects
      requires forall k :: 0 <= k < curObjects ==> sortIds[k] < curObjects
      ensures i <= least < curObjects
      ensures forall l :: i <= l < curObjects ==> objMeta[sortIds[least]].lastUsed <= objMeta[sortIds[l]].lastUsed
    {
      least := i;
      var j := i + 1;
      while j < curObjects
        invariant i <= least < j <= curObjects
        invariant forall l :: i <= l < j ==> objMeta[sortIds[least]].lastUsed <= objMeta[sortIds[l]].lastUsed
      {
        if objMeta[sortIds[j]].lastUsed < objMeta[sortIds[least]].lastUsed {
          least := j;
        }
        j := j + 1;
      }
    }
  }

  /** The three parallel arrays, as far as they are used. */
  datatype Index = Index(hashes: seq<u64>, ds: seq<Digest>, ms: seq<Metadata>)

  ghost predicate Parallel(t: Index) {
    |t.hashes| == |t.ds| == |t.ms|
  }

  ghost function CompactIndex(t: Index): Index
    requires Parallel(t)
  {
    Index(Compact(t.hashes, t.ms), Compact(t.ds, t.ms), Compact(t.ms, t.ms))
  }

  ghost function Moved(t: Index, i: nat, j: nat): Index
    requires Parallel(t) && j <= i < |t.ms|
  {
    Index(t.hashes[j := t.hashes[i]], t.ds[j := t.ds[i]], t.ms[j := t.ms[i]])
  }

  /** Inside the defragmentation loop: the first i entries compacted to j, the others in place. */
  ghost predicate Compacting(t: Index, orig: Index, i: nat, j: nat) {
    && Parallel(t) && Parallel(orig) && |t.ms| == |orig.ms|
    && CompactingOne(t.hashes, orig.hashes, orig.ms, i, j)
    && CompactingOne(t.ds, orig.ds, orig.ms, i, j)
    && CompactingOne(t.ms, orig.ms, orig.ms, i, j)
  }

  ghost predicate CompactingOne<T>(a: seq<T>, orig: seq<T>, ms: seq<Metadata>, i: nat, j: nat) {
    && |a| == |orig| == |ms| && j <= i <= |a|
    && a[..j] == Compact(orig[..i], ms[..i])
    && a[i..] == orig[i..]
  }

  lemma CompactingStart(t: Index)
    requires Parallel(t)
    ensures Compacting(t, t, 0, 0)
  {
  }

  lemma CompactingStep(t: Index, orig: Index, i: nat, j: nat)
    requires Compacting(t, orig, i, j) && i < |t.ms|
    ensures t.ms[i] == orig.ms[i]
    ensures if t.ms[i].lastUsed != 0 then Compacting(Moved(t, i, j), orig, i + 1, j + 1)
            else Compacting(t, orig, i + 1, j)
  {
    CompactingStepOne(t.hashes, orig.hashes, orig.ms, i, j);
    CompactingStepOne(t.ds, orig.ds, orig.ms, i, j);
    CompactingStepOne(t.ms, orig.ms, orig.ms, i, j);
  }

  lemma CompactingStepOne<T>(a: seq<T>, orig: seq<T>, ms: seq<Metadata>, i: nat, j: nat)
    requires CompactingOne(a, orig, ms, i, j) && i < |a|
    ensures a[i] == orig[i]
    ensures if ms[i].lastUsed != 0 then CompactingOne(a[j := a[i]], orig, ms, i + 1, j + 1)
            else CompactingOne(a, orig, ms, i + 1, j)
  {
    assert orig[..i + 1][..i] == orig[..i] && ms[..i + 1][..i] == ms[..i];
    assert a[i] == a[i..][0] == orig[i..][0];
    assert a[i + 1..] == a[i..][1..] == orig[i..][1..] == orig[i + 1..];
    assert a[j := a[i]][i + 1..] == a[i + 1..];
    assert a[j := a[i]][..j + 1] == a[..j] + [a[i]];
  }

  lemma CompactingEnd(t: Index, orig: Index, j: nat)
    requires Compacting(t, orig, |t.ms|, j)
    ensures Index(t.hashes[..j], t.ds[..j], t.ms[..j]) == CompactIndex(orig)
  {
    var n := |t.ms|;
    assert orig.hashes[..n] == orig.hashes && orig.ds[..n] == orig.ds && orig.ms[..n] == orig.ms;
  }

  lemma OrderInRange(ids: seq<nat>, ms: seq<Metadata>, i: nat)
    requires PartialOrder(ids, ms, i)
    ensures |ids| == |ms| && forall k :: 0 <= k < |ids| ==> ids[k] < |ms|
  {
  }

  lemma SelectionStep(ids: seq<nat>, ms: seq<Metadata>, i: nat, least: nat)
    requires i <= least < |ids| && PartialOrder(ids, ms, i)
    requires forall l :: i <= l < |ids| ==> ms[ids[least]].lastUsed <= ms[ids[l]].lastUsed
    ensures PartialOrder(ids[i := ids[least]][least := ids[i]], ms, i + 1)
  {
    SwapKeeps(ids, ids[i := ids[least]][least := ids[i]], i, least);
  }

  lemma SwapKeeps(a: seq<nat>, b: seq<nat>, i: nat, j: nat)
    requires i < |a| && j < |a| && Distinct(a)
    requires b == a[i := a[j]][j := a[i]]
    ensures Distinct(b)
    ensures forall x :: x in a ==> x in b
  {
    forall x | x in a ensures x in b {
      var k :| 0 <= k < |a| && a[k] == x;
      assert b[if k == i then j else if k == j then i else k] == x;
    }
  }

  /** The linking loop of init. */
  method LinkPages(next: array<int>, maxObjects: nat, cacheSize: nat) returns (n: nat)
    requires TableBytes(maxObjects) + PAGE_SIZE < cacheSize && next.Length == PoolPages(maxObjects, cacheSize)
    modifies next
    ensures n == next.Length
    ensures LinkedInOrder(next[..])
  {
    PoolInAllocation(maxObjects, cacheSize);
    n := 0;
    var cache := TableBytes(maxObjects);
    while cache + PAGE_SIZE < cacheSize
      invariant 0 <= n < next.Length
      invariant cache == TableBytes(maxObjects) + n * PAGE_SIZE
      invariant forall i :: 0 <= i < n ==> next[i] == i + 1
    {
      next[n] := n + 1;
      cache := cache + PAGE_SIZE;
      n := n + 1;
    }
    next[n] := NIL;
    n := n + 1;
  }

  ghost predicate LinkedInOrder(next: seq<int>) {
    forall i :: 0 <= i < |next| ==> next[i] == if i + 1 < |next| then i + 1 else NIL
  }

  lemma FreshPool<K(!new)>(next: seq<int>)
    requires |next| > 0 && LinkedInOrder(next)
    ensures var none: map<K, Metadata> := map[]; Partitioned(next, 0, |next|, none)
  {
    FreshFollow(next, 0);
    var free := Follow(next, 0, |next|);
    forall x | 0 <= x < |next| ensures x in free {
      assert free[x] == x;
    }
  }

  /** A pool linked in address order: the walk from p visits p, p + 1, and so on to the end. */
  lemma {:induction false} FreshFollow(next: seq<int>, p: nat)
    requires p < |next|
    requires LinkedInOrder(next)
    ensures var f := Follow(next, p, |next| - p);
            |f| == |next| - p && forall i :: 0 <= i < |f| ==> f[i] == p + i
    ensures Walk(next, p, |next| - p) == NIL
    decreases |next| - p
  {
    if p + 1 < |next| {
      FreshFollow(next, p + 1);
    } else {
      assert Follow(next, next[p], 0) == [] && Walk(next, next[p], 0) == NIL;
    }
  }
}
