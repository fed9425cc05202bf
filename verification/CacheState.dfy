/** The fields of a DuckCache as one value, the updates that store and load make to it, and what
    each of them does to the map from digests to bytes. */
module CacheState {
  import opened Machine
  import opened PagePool
  import opened DigestIndex
  import opened CacheSpec

  /** The used part of the three object arrays, the page pool and the free list. */
  datatype Snapshot = Snapshot(
    hashes: seq<u64>, ds: seq<Digest>, ms: seq<Metadata>,
    next: seq<int>, data: seq<seq<byte>>, head: int, nfree: nat)

  /** The parallel arrays agree and are sorted by the whole digest. */
  ghost predicate IndexOk(hashes: seq<u64>, ds: seq<Digest>, ms: seq<Metadata>) {
    && |hashes| == |ds| == |ms|
    && StrictlySorted(ds)
    && Distinct(ds)
    && (forall i :: 0 <= i < |ds| ==> hashes[i] == ds[i].a0)
  }

  /** The invariant, objects being evicted included. */
  ghost predicate Consistent(s: Snapshot) {
    && IndexOk(s.hashes, s.ds, s.ms)
    && Wellsized(s.next, s.data)
    && Partitioned(s.next, s.head, s.nfree, Live(s.ds, s.ms))
  }

  ghost predicate Ok(s: Snapshot) {
    Consistent(s) && AllLive(s.ms)
  }

  ghost function EntryOf(next: seq<int>, data: seq<seq<byte>>, m: Metadata): Entry {
    Entry(Gather(next, data, m.start, m.len), m.lastUsed)
  }

  ghost function Entries(next: seq<int>, data: seq<seq<byte>>, objs: map<Digest, Metadata>): map<Digest, Entry> {
    map d | d in objs :: EntryOf(next, data, objs[d])
  }

  /** The map from digests to bytes that a snapshot stands for. */
  ghost function Contents(s: Snapshot): map<Digest, Entry>
    requires Consistent(s)
  {
    Entries(s.next, s.data, Live(s.ds, s.ms))
  }

  lemma ContentsAt(s: Snapshot, i: nat)
    requires Ok(s) && i < |s.ds|
    ensures s.ds[i] in Contents(s)
    ensures Contents(s)[s.ds[i]] == EntryOf(s.next, s.data, s.ms[i])
    ensures |Contents(s)[s.ds[i]].bytes| == s.ms[i].len
    ensures |Chain(s.next, s.ms[i])| == PagesFor(s.ms[i].len) && Wellsized(s.next, s.data)
  {
    assert Live(s.ds, s.ms)[s.ds[i]] == s.ms[i];
    GatherLength(s.next, s.data, s.ms[i].start, s.ms[i].len);
  }

  lemma ContentsKeys(s: Snapshot)
    requires Ok(s)
    ensures Contents(s).Keys == set d | d in s.ds
    ensures |Contents(s)| == |s.ds|
  {
    LiveCount(s.ds, s.ms);
    assert Contents(s).Keys == Live(s.ds, s.ms).Keys;
    assert |Contents(s)| == |Contents(s).Keys|;
  }

  // ----- recording a use

  ghost function Touched(s: Snapshot, i: nat, now: nat): Snapshot
    requires i < |s.ms|
  {
    s.(ms := s.ms[i := s.ms[i].(lastUsed := now)])
  }

  lemma TouchedOk(s: Snapshot, i: nat, now: nat)
    requires Ok(s) && i < |s.ds| && now > 0
    ensures s.ds[i] in Contents(s)
    ensures Ok(Touched(s, i, now))
    ensures Contents(Touched(s, i, now)) == Contents(s)[s.ds[i] := Contents(s)[s.ds[i]].(lastUsed := now)]
  {
    hide Partitioned, StrictlySorted, Gather;
    ContentsAt(s, i);
    var m := s.ms[i].(lastUsed := now);
    var objs, d := Live(s.ds, s.ms), s.ds[i];
    LiveUpdate(s.ds, s.ms, i, m);
    assert objs[d] == s.ms[i];
    TouchPartition(s.next, s.head, s.nfree, objs, d, now);
  }

  lemma TouchPartition(next: seq<int>, head: int, nfree: nat, objs: map<Digest, Metadata>, d: Digest, now: nat)
    requires Partitioned(next, head, nfree, objs) && d in objs
    ensures Partitioned(next, head, nfree, objs[d := objs[d].(lastUsed := now)])
  {
    var objs' := objs[d := objs[d].(lastUsed := now)];
    assert forall e :: e in objs' ==> e in objs && Chain(next, objs'[e]) == Chain(next, objs[e]);
    forall x | 0 <= x < |next| ensures x in Follow(next, head, nfree) || Owned(next, objs', x) {
      if x !in Follow(next, head, nfree) {
        var e :| e in objs && x in Chain(next, objs[e]);
        assert e in objs' && x in Chain(next, objs'[e]);
      }
    }
    forall e | e in objs' ensures ChainOk(next, objs'[e], Follow(next, head, nfree)) {
      assert ChainOk(next, objs[e], Follow(next, head, nfree));
    }
  }

  // ----- evicting one object

  ghost function Evicted(s: Snapshot, i: nat): Snapshot
    requires i < |s.ms| && |Chain(s.next, s.ms[i])| == PagesFor(s.ms[i].len)
  {
    s.(ms := s.ms[i := s.ms[i].(lastUsed := 0)],
       next := Freed(s.next, s.head, s.ms[i]),
       head := s.ms[i].start,
       nfree := s.nfree + PagesFor(s.ms[i].len))
  }

  lemma LiveChain(s: Snapshot, i: nat)
    requires Consistent(s) && i < |s.ds| && s.ms[i].lastUsed != 0
    ensures |Chain(s.next, s.ms[i])| == PagesFor(s.ms[i].len)
    ensures s.ds[i] in Live(s.ds, s.ms) && Live(s.ds, s.ms)[s.ds[i]] == s.ms[i]
  {
    assert ChainOk(s.next, Live(s.ds, s.ms)[s.ds[i]], Follow(s.next, s.head, s.nfree));
  }

  lemma EvictedOk(s: Snapshot, i: nat)
    requires Consistent(s) && i < |s.ds| && s.ms[i].lastUsed != 0
    ensures |Chain(s.next, s.ms[i])| == PagesFor(s.ms[i].len)
    ensures Consistent(Evicted(s, i))
    ensures Contents(Evicted(s, i)) == Contents(s) - {s.ds[i]}
    ensures s.ds[i] in Contents(s) && |Contents(s)[s.ds[i]].bytes| == s.ms[i].len
  {
    hide Partitioned, Live, Entries, StrictlySorted, Follow, Freed;
    LiveChain(s, i);
    var objs, d := Live(s.ds, s.ms), s.ds[i];
    LiveUpdate(s.ds, s.ms, i, s.ms[i].(lastUsed := 0));
    EvictPartition(s.next, s.head, s.nfree, objs, d);
    EvictEntries(s.next, s.data, s.head, s.nfree, objs, d);
  }

  /** Evicting d drops its entry and changes no other. */
  lemma EvictEntries(next: seq<int>, data: seq<seq<byte>>, head: int, nfree: nat, objs: map<Digest, Metadata>,
                     d: Digest)
    requires Wellsized(next, data) && Partitioned(next, head, nfree, objs) && d in objs
    ensures Entries(Freed(next, head, objs[d]), data, objs - {d}) == Entries(next, data, objs) - {d}
    ensures d in Entries(next, data, objs) && |Entries(next, data, objs)[d].bytes| == objs[d].len
  {
    GatherLength(next, data, objs[d].start, objs[d].len);
    var objs' := objs - {d};
    forall e | e in objs'
      ensures EntryOf(Freed(next, head, objs[d]), data, objs'[e]) == EntryOf(next, data, objs[e])
    {
      EvictKeepsOthers(next, head, nfree, objs, d, e);
    }
  }

  // ----- compacting the arrays

  ghost function Compacted(s: Snapshot): Snapshot
    requires Consistent(s)
  {
    s.(hashes := Compact(s.hashes, s.ms), ds := Compact(s.ds, s.ms), ms := Compact(s.ms, s.ms))
  }

  lemma CompactedOk(s: Snapshot)
    requires Consistent(s)
    ensures Ok(Compacted(s)) && Contents(Compacted(s)) == Contents(s)
    ensures |Compacted(s).ds| == |Contents(s)|
  {
    CompactSorted(s.ds, s.ms);
    CompactLive(s.ds, s.ms);
    CompactAllLive(s.ms);
    CompactLength(s.hashes, s.ds, s.ms);
    CompactHashes(s.hashes, s.ds, s.ms);
    LiveCard(s.ds, s.ms);
    assert Contents(s).Keys == Live(s.ds, s.ms).Keys;
    assert |Contents(s)| == |Contents(s).Keys|;
  }

  lemma {:induction false} CompactHashes(hashes: seq<u64>, ds: seq<Digest>, ms: seq<Metadata>)
    requires |hashes| == |ds| == |ms|
    requires forall i :: 0 <= i < |ds| ==> hashes[i] == ds[i].a0
    ensures |Compact(hashes, ms)| == |Compact(ds, ms)|
    ensures forall i :: 0 <= i < |Compact(ds, ms)| ==> Compact(hashes, ms)[i] == Compact(ds, ms)[i].a0
  {
    if ds == [] {
    } else {
      var n := |ds| - 1;
      CompactHashes(hashes[..n], ds[..n], ms[..n]);
    }
  }

  // ----- adding an object

  ghost function Added(s: Snapshot, idx: nat, d: Digest, src: seq<byte>, now: nat): Snapshot
    requires idx <= |s.ds| && |s.hashes| == |s.ds| == |s.ms| && PagesFor(|src|) <= s.nfree
  {
    s.(hashes := Inserted(s.hashes, idx, d.a0),
       ds := Inserted(s.ds, idx, d),
       ms := Inserted(s.ms, idx, Metadata(now, s.head, |src|)),
       data := Scatter(s.next, s.data, s.head, src),
       head := Walk(s.next, s.head, PagesFor(|src|)),
       nfree := s.nfree - PagesFor(|src|))
  }

  lemma InsertIndex(hashes: seq<u64>, ds: seq<Digest>, ms: seq<Metadata>, idx: nat, d: Digest, m: Metadata)
    requires IndexOk(hashes, ds, ms) && IsLowerBound(ds, d, idx) && d !in ds
    ensures IndexOk(Inserted(hashes, idx, d.a0), Inserted(ds, idx, d), Inserted(ms, idx, m))
  {
    InsertSorted(ds, idx, d);
    SortedDistinct(Inserted(ds, idx, d));
  }

  lemma AddedOk(s: Snapshot, idx: nat, d: Digest, src: seq<byte>, now: nat)
    requires Ok(s) && IsLowerBound(s.ds, d, idx) && d !in s.ds
    requires PagesFor(|src|) <= s.nfree && now > 0
    ensures Ok(Added(s, idx, d, src, now))
    ensures Contents(Added(s, idx, d, src, now)) == Contents(s)[d := Entry(src, now)]
  {
    hide Partitioned, Wellsized, Entries, Scatter, Walk, AllLive;
    var m := Metadata(now, s.head, |src|);
    var objs := Live(s.ds, s.ms);
    InsertIndex(s.hashes, s.ds, s.ms, idx, d, m);
    InsertLive(s.ds, s.ms, idx, d, m);
    CarvePartition(s.next, s.head, s.nfree, objs, d, m);
    CarveEntries(s.next, s.data, s.head, s.nfree, objs, d, src, now);
  }

  lemma FreePrefix(s: Snapshot, k: nat)
    requires Consistent(s) && k <= s.nfree
    ensures |Follow(s.next, s.head, k)| == k && Wellsized(s.next, s.data)
  {
    FollowPrefix(s.next, s.head, k, s.nfree);
  }

  /** Filling a chain carved off the free list adds its entry and changes no other. */
  lemma CarveEntries(next: seq<int>, data: seq<seq<byte>>, head: int, nfree: nat, objs: map<Digest, Metadata>,
                     d: Digest, src: seq<byte>, now: nat)
    requires Wellsized(next, data) && Partitioned(next, head, nfree, objs) && d !in objs
    requires PagesFor(|src|) <= nfree
    ensures Wellsized(next, Scatter(next, data, head, src))
    ensures Entries(next, Scatter(next, data, head, src), objs[d := Metadata(now, head, |src|)]) ==
            Entries(next, data, objs)[d := Entry(src, now)]
  {
    hide Scatter, Gather;
    var data' := Scatter(next, data, head, src);
    var m := Metadata(now, head, |src|);
    var free := Follow(next, head, nfree);
    CarvePartition(next, head, nfree, objs, d, m);
    ScatterFrame(next, data, head, src);
    GatherScatter(next, data, head, src);
    forall e | e in objs ensures EntryOf(next, data', objs[e]) == EntryOf(next, data, objs[e]) {
      assert ChainOk(next, objs[e], free);
      ChainUnwritten(next, data, data', objs[e], free, PagesFor(|src|));
    }
  }

  /** Pages taken from the free list are no object's, so writing them changes no object. */
  lemma ChainUnwritten(next: seq<int>, data: seq<seq<byte>>, data': seq<seq<byte>>, m: Metadata, free: seq<int>, k: nat)
    requires |data| == |data'| == |next| && ChainOk(next, m, free) && k <= |free|
    requires forall x :: 0 <= x < |data| && x !in free[..k] ==> data'[x] == data[x]
    ensures EntryOf(next, data', m) == EntryOf(next, data, m)
  {
    FollowInPool(next, m.start, PagesFor(m.len));
    forall x | x in Chain(next, m) ensures data'[x] == data[x] {
      assert x !in free && x !in free[..k];
    }
    GatherFrame(next, next, data, data', m.start, m.len);
  }

  // ----- the eviction loop

  /** ids lists the objects, the first i of them in order of last use and before all others. */
  ghost predicate PartialOrder(ids: seq<nat>, ms: seq<Metadata>, i: nat) {
    && |ids| == |ms|
    && (forall k :: 0 <= k < |ids| ==> ids[k] < |ms|)
    && Distinct(ids)
    && (forall x :: 0 <= x < |ms| ==> x in ids)
    && (forall k, l :: 0 <= k < l < |ids| && k < i ==> ms[ids[k]].lastUsed <= ms[ids[l]].lastUsed)
  }

  /** ids lists the objects from least to most recently used. */
  ghost predicate IsLruOrder(ids: seq<nat>, ms: seq<Metadata>) {
    PartialOrder(ids, ms, |ms|)
  }

  /** The digests of the first i objects in the order of ids. */
  ghost function Victims(ds: seq<Digest>, ids: seq<nat>, i: nat): (r: seq<Digest>)
    requires i <= |ids| && forall k :: 0 <= k < |ids| ==> ids[k] < |ds|
    ensures |r| == i && forall k :: 0 <= k < i ==> r[k] == ds[ids[k]]
  {
    if i == 0 then [] else Victims(ds, ids, i - 1) + [ds[ids[i - 1]]]
  }

  ghost function StateOf(s: Snapshot, maxObjects: nat): State
    requires Consistent(s)
  {
    State(Contents(s), s.nfree, |s.next|, maxObjects)
  }

  /** The objects of ids from the i-th on are as they were. */
  ghost predicate Untouched(s0: Snapshot, s: Snapshot, ids: seq<nat>, i: nat) {
    && IsLruOrder(ids, s0.ms) && i <= |ids|
    && s.hashes == s0.hashes && s.ds == s0.ds && |s.ms| == |s0.ms| && |s.next| == |s0.next| && s.data == s0.data
    && (forall k :: i <= k < |ids| ==> s.ms[ids[k]] == s0.ms[ids[k]])
  }

  /** From s0, the entries of `gone` have been evicted, giving s. */
  ghost predicate Dropped(s0: Snapshot, s: Snapshot, gone: seq<Digest>) {
    && Consistent(s0) && Consistent(s)
    && Contents(s) == Contents(s0) - Keys(gone)
    && s.nfree == s0.nfree + PagesOf(Contents(s0), gone)
  }

  /** From s0, the first i objects of ids have been evicted, giving s. */
  ghost predicate Progress(s0: Snapshot, s: Snapshot, ids: seq<nat>, i: nat) {
    && Ok(s0)
    && Untouched(s0, s, ids, i)
    && Dropped(s0, s, Victims(s0.ds, ids, i))
  }

  lemma ProgressStart(s0: Snapshot, ids: seq<nat>)
    requires Ok(s0) && IsLruOrder(ids, s0.ms)
    ensures Progress(s0, s0, ids, 0)
  {
    hide Partitioned, StrictlySorted, Live, Entries;
    assert Keys(Victims(s0.ds, ids, 0)) == {};
  }

  lemma UntouchedStep(s0: Snapshot, s: Snapshot, ids: seq<nat>, i: nat)
    requires Untouched(s0, s, ids, i) && i < |ids|
    requires |Chain(s.next, s.ms[ids[i]])| == PagesFor(s.ms[ids[i]].len)
    ensures Untouched(s0, Evicted(s, ids[i]), ids, i + 1)
  {
  }

  lemma DroppedStep(s0: Snapshot, s: Snapshot, gone: seq<Digest>, id: nat)
    requires Ok(s0) && Dropped(s0, s, gone)
    requires s.ds == s0.ds && id < |s.ms| == |s0.ms| && s.ms[id] == s0.ms[id]
    ensures |Chain(s.next, s.ms[id])| == PagesFor(s.ms[id].len)
    ensures Dropped(s0, Evicted(s, id), gone + [s.ds[id]])
  {
    EvictedOk(s, id);
    ContentsAt(s0, id);
    hide Partitioned, IndexOk, Live, Entries, Contents, Freed, Chain, PagesOf, Keys, Distinct;
    DropOne(Contents(s0), gone, s.ds[id]);
  }

  lemma DropOne(entries: map<Digest, Entry>, gone: seq<Digest>, d: Digest)
    requires d in entries
    ensures entries - Keys(gone + [d]) == entries - Keys(gone) - {d}
    ensures PagesOf(entries, gone + [d]) == PagesOf(entries, gone) + PagesFor(|entries[d].bytes|)
  {
    var gone' := gone + [d];
    assert gone'[..|gone|] == gone;
    assert Keys(gone') == Keys(gone) + {d};
  }

  lemma ProgressStep(s0: Snapshot, s: Snapshot, ids: seq<nat>, i: nat)
    requires Progress(s0, s, ids, i) && i < |ids|
    ensures |Chain(s.next, s.ms[ids[i]])| == PagesFor(s.ms[ids[i]].len)
    ensures Progress(s0, Evicted(s, ids[i]), ids, i + 1)
  {
    assert s.ms[ids[i]] == s0.ms[ids[i]];
    hide Partitioned, IndexOk, Live, Entries, Contents, Freed, Chain, Distinct, PagesOf, Keys;
    DroppedStep(s0, s, Victims(s0.ds, ids, i), ids[i]);
    UntouchedStep(s0, s, ids, i);
  }

  /** Once every object is evicted, every page is free. */
  lemma ProgressEnd(s0: Snapshot, s: Snapshot, ids: seq<nat>)
    requires Progress(s0, s, ids, |ids|)
    ensures s.nfree == |s0.next|
  {
    hide Partitioned, StrictlySorted, Wellsized, Live;
    ContentsKeys(s0);
    var gone := Victims(s0.ds, ids, |ids|);
    forall d | d in Contents(s0) ensures d in gone {
      var x :| 0 <= x < |s0.ds| && s0.ds[x] == d;
      assert x in ids;
      var k :| 0 <= k < |ids| && ids[k] == x;
      assert gone[k] == d;
    }
    assert Contents(s) == map[];
    assert Live(s.ds, s.ms).Keys == Contents(s).Keys;
    AllFree(s.next, s.head, s.nfree, Live(s.ds, s.ms));
  }

  /** What the loop has evicted so far starts a least-recently-used order. */
  lemma VictimsLru(s0: Snapshot, ids: seq<nat>, i: nat, maxObjects: nat)
    requires Ok(s0) && IsLruOrder(ids, s0.ms) && i <= |ids|
    ensures LruPrefix(StateOf(s0, maxObjects), Victims(s0.ds, ids, i))
  {
    forall k | 0 <= k < |s0.ds| ensures Used(Contents(s0), s0.ds, s0.ms, k) {
      ContentsAt(s0, k);
    }
    ContentsKeys(s0);
    assert Distinct(s0.ds);
    hide Partitioned, StrictlySorted, Live, Entries, Contents, Consistent;
    VictimsOrdered(StateOf(s0, maxObjects), s0.ds, s0.ms, ids, i);
  }

  ghost predicate Used(entries: map<Digest, Entry>, ds: seq<Digest>, ms: seq<Metadata>, k: nat)
    requires k < |ds| == |ms|
  {
    ds[k] in entries && entries[ds[k]].lastUsed == ms[k].lastUsed
  }

  lemma VictimsDistinct(ds: seq<Digest>, ids: seq<nat>, i: nat)
    requires Distinct(ds) && Distinct(ids) && i <= |ids| && forall k :: 0 <= k < |ids| ==> ids[k] < |ds|
    ensures Distinct(Victims(ds, ids, i))
  {
    forall k, l | 0 <= k < l < i ensures Victims(ds, ids, i)[k] != Victims(ds, ids, i)[l] {
      var a, b := ids[k], ids[l];
      assert a < b || b < a;
    }
  }

  /** An object outside the first i was used no earlier than one of them. */
  lemma VictimFirst(st: State, ds: seq<Digest>, ms: seq<Metadata>, ids: seq<nat>, i: nat, k: nat, d: Digest)
    requires |ds| == |ms| && IsLruOrder(ids, ms) && k < i <= |ids| && d in ds && d !in Victims(ds, ids, i)
    requires forall x :: 0 <= x < |ds| ==> Used(st.entries, ds, ms, x)
    ensures ds[ids[k]] in st.entries && d in st.entries && st.entries[ds[ids[k]]].lastUsed <= st.entries[d].lastUsed
  {
    hide Distinct;
    assert Used(st.entries, ds, ms, ids[k]);
    var x :| 0 <= x < |ds| && ds[x] == d;
    assert Used(st.entries, ds, ms, x) && x in ids;
    var l :| 0 <= l < |ids| && ids[l] == x;
  }

  lemma VictimsOrdered(st: State, ds: seq<Digest>, ms: seq<Metadata>, ids: seq<nat>, i: nat)
    requires |ds| == |ms| && IsLruOrder(ids, ms) && i <= |ids| && Distinct(ds)
    requires forall k :: 0 <= k < |ds| ==> Used(st.entries, ds, ms, k)
    requires st.entries.Keys == set d | d in ds
    ensures LruPrefix(st, Victims(ds, ids, i))
  {
    hide Distinct;
    var gone := Victims(ds, ids, i);
    VictimsDistinct(ds, ids, i);
    forall k | 0 <= k < i ensures Used(st.entries, ds, ms, ids[k]) {
    }
    forall k, d | 0 <= k < i && d in st.entries && d !in gone
      ensures st.entries[gone[k]].lastUsed <= st.entries[d].lastUsed
    {
      VictimFirst(st, ds, ms, ids, i, k, d);
    }
  }

  ghost predicate NoRoom(s0: Snapshot, ids: seq<nat>, k: nat, maxObjects: nat, need: nat) {
    && Ok(s0) && IsLruOrder(ids, s0.ms) && k <= |ids|
    && !Room(StateOf(s0, maxObjects), Victims(s0.ds, ids, k), need)
  }

  /** The test the loop makes after each eviction is whether there is room. */
  lemma RoomTest(s0: Snapshot, s: Snapshot, ids: seq<nat>, i: nat, maxObjects: nat, need: nat)
    requires Progress(s0, s, ids, i)
    ensures NoRoom(s0, ids, i, maxObjects, need) <==> !(need <= s.nfree && |s0.ds| + 1 <= maxObjects + i)
  {
    hide Partitioned, StrictlySorted, Live, Entries, Contents, Distinct;
    ContentsKeys(s0);
  }

  /** The loop stops at the i-th object, for having room or for want of further objects: what it
      has evicted is the shortest prefix that makes room. */
  lemma EvictionResult(s0: Snapshot, s: Snapshot, ids: seq<nat>, i: nat, maxObjects: nat, need: nat)
    requires Progress(s0, s, ids, i)
    requires need <= |s0.next| && 1 <= maxObjects
    requires forall k :: 0 <= k < i ==> NoRoom(s0, ids, k, maxObjects, need)
    requires i == |s0.ds| || !NoRoom(s0, ids, i, maxObjects, need)
    ensures Evicts(StateOf(s0, maxObjects), Victims(s0.ds, ids, i), need)
    ensures Dropped(s0, s, Victims(s0.ds, ids, i))
  {
    RoomTest(s0, s, ids, i, maxObjects, need);
    if i == |s0.ds| {
      ProgressEnd(s0, s, ids);
    }
    EvictionMinimal(s0, ids, i, maxObjects, need);
  }

  lemma EvictionMinimal(s0: Snapshot, ids: seq<nat>, i: nat, maxObjects: nat, need: nat)
    requires Ok(s0) && IsLruOrder(ids, s0.ms) && i <= |ids|
    requires !NoRoom(s0, ids, i, maxObjects, need)
    requires forall k :: 0 <= k < i ==> NoRoom(s0, ids, k, maxObjects, need)
    ensures Evicts(StateOf(s0, maxObjects), Victims(s0.ds, ids, i), need)
  {
    VictimsLru(s0, ids, i, maxObjects);
    hide Partitioned, StrictlySorted, Live, Entries, Contents, Distinct, Room, Dropped, LruPrefix;
    var gone := Victims(s0.ds, ids, i);
    forall k | 0 <= k < i ensures !Room(StateOf(s0, maxObjects), gone[..k], need) {
      VictimsPrefix(s0.ds, ids, i, k);
      assert NoRoom(s0, ids, k, maxObjects, need);
    }
  }

  lemma VictimsPrefix(ds: seq<Digest>, ids: seq<nat>, i: nat, k: nat)
    requires k <= i <= |ids| && forall k :: 0 <= k < |ids| ==> ids[k] < |ds|
    ensures Victims(ds, ids, i)[..k] == Victims(ds, ids, k)
  {
  }

  /** Dropping |gone| distinct entries leaves that many fewer. */
  lemma DropCount(entries: map<Digest, Entry>, gone: seq<Digest>)
    requires Distinct(gone) && forall i :: 0 <= i < |gone| ==> gone[i] in entries
    ensures |entries - Keys(gone)| == |entries| - |gone|
  {
    SeqCard(gone);
    var left := entries - Keys(gone);
    assert left.Keys == entries.Keys - Keys(gone);
    assert Keys(gone) <= entries.Keys;
    assert |entries.Keys - Keys(gone)| == |entries.Keys| - |Keys(gone)|;
    assert |left| == |left.Keys| && |entries| == |entries.Keys|;
  }

  /** Compacting after the evictions: as many objects fewer as were evicted, and room for one more. */
  lemma RoomLeft(s0: Snapshot, s1: Snapshot, gone: seq<Digest>, maxObjects: nat, need: nat)
    requires Ok(s0) && Dropped(s0, s1, gone) && Evicts(StateOf(s0, maxObjects), gone, need)
    ensures Ok(Compacted(s1)) && Contents(Compacted(s1)) == Contents(s0) - Keys(gone)
    ensures |Compacted(s1).ds| == |s0.ds| - |gone|
    ensures |Compacted(s1).ds| + 1 <= maxObjects && need <= s1.nfree == s0.nfree + PagesOf(Contents(s0), gone)
  {
    CompactedOk(s1);
    ContentsKeys(s0);
    hide Partitioned, StrictlySorted, Live, Entries, Contents, Consistent, Compacted;
    DropCount(Contents(s0), gone);
  }

  /** With room already, nothing is evicted. */
  lemma NothingGone(s0: Snapshot, maxObjects: nat, need: nat)
    requires Ok(s0) && need <= s0.nfree && |s0.ds| + 1 <= maxObjects
    ensures Evicts(StateOf(s0, maxObjects), [], need)
    ensures Contents(s0) - Keys([]) == Contents(s0) && PagesOf(Contents(s0), []) == 0
  {
    ContentsKeys(s0);
  }
}
