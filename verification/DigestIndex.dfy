/** The sorted index of kern/duck_cache.cpp: digests in strictly increasing order, with one
    metadata record each, compacted after evictions and shifted open by an insertion. */
module DigestIndex {
  import opened Machine
  import opened PagePool


  type u64 = x: int | 0 <= x < TWO64

  datatype Digest = Digest(a0: u64, a1: u64, a2: u64, a3: u64)

  /** The digest read as one 256-bit number, a0 most significant. */
  ghost function Value(d: Digest): int {
    ((d.a0 * TWO64 + d.a1) * TWO64 + d.a2) * TWO64 + d.a3
  }

  ghost predicate Less(x: Digest, y: Digest) {
    Value(x) < Value(y)
  }

  function CmpWord(x: u64, y: u64): int {
    if x < y then -1 else if x > y then 1 else 0
  }

  /** Word-by-word comparison is comparison of the 256-bit numbers. */
  function CmpDigest(x: Digest, y: Digest): (r: int)
    ensures r < 0 <==> Less(x, y)
    ensures r > 0 <==> Less(y, x)
    ensures r == 0 <==> x == y
  {
    if x.a0 != y.a0 then CmpWord(x.a0, y.a0)
    else if x.a1 != y.a1 then CmpWord(x.a1, y.a1)
    else if x.a2 != y.a2 then CmpWord(x.a2, y.a2)
    else CmpWord(x.a3, y.a3)
  }

  ghost predicate StrictlySorted(ds: seq<Digest>) {
    forall i, j {:trigger Less(ds[i], ds[j])} :: 0 <= i < j < |ds| ==> Less(ds[i], ds[j])
  }

  /** idx is where d stands, or would have to be inserted. */
  ghost predicate IsLowerBound(ds: seq<Digest>, d: Digest, idx: nat) {
    && idx <= |ds|
    && (forall i :: 0 <= i < idx ==> Less(ds[i], d))
    && (forall i :: idx <= i < |ds| ==> !Less(ds[i], d))
  }

  lemma SortedDistinct(ds: seq<Digest>)
    requires StrictlySorted(ds)
    ensures Distinct(ds)
  {
    forall i, j | 0 <= i < j < |ds| ensures ds[i] != ds[j] {
      assert Less(ds[i], ds[j]);
    }
  }

  // ----- the objects an index holds, whatever the type of its keys

  /** The objects that are not invalidated. */
  ghost function Live<K>(ds: seq<K>, ms: seq<Metadata>): map<K, Metadata>
    requires |ds| == |ms| && Distinct(ds)
  {
    map i | 0 <= i < |ds| && ms[i].lastUsed != 0 :: ds[i] := ms[i]
  }

  ghost predicate AllLive(ms: seq<Metadata>) {
    forall i :: 0 <= i < |ms| ==> ms[i].lastUsed != 0
  }

  lemma LiveAt<K>(ds: seq<K>, ms: seq<Metadata>, i: nat)
    requires |ds| == |ms| && Distinct(ds) && i < |ds| && ms[i].lastUsed != 0
    ensures ds[i] in Live(ds, ms) && Live(ds, ms)[ds[i]] == ms[i]
  {
  }

  lemma LiveWhere<K>(ds: seq<K>, ms: seq<Metadata>, k: K) returns (i: nat)
    requires |ds| == |ms| && Distinct(ds) && k in Live(ds, ms)
    ensures i < |ds| && ds[i] == k && ms[i].lastUsed != 0 && Live(ds, ms)[k] == ms[i]
  {
    i :| 0 <= i < |ds| && ms[i].lastUsed != 0 && ds[i] == k;
  }

  lemma LiveUpdate<K>(ds: seq<K>, ms: seq<Metadata>, i: nat, m: Metadata)
    requires |ds| == |ms| && Distinct(ds) && i < |ds|
    ensures Live(ds, ms[i := m]) == if m.lastUsed == 0 then Live(ds, ms) - {ds[i]} else Live(ds, ms)[ds[i] := m]
  {
  }

  /** The entries of xs whose metadata is not invalidated, in order. */
  ghost function Compact<T>(xs: seq<T>, ms: seq<Metadata>): (r: seq<T>)
    requires |xs| == |ms|
    ensures |r| <= |xs|
  {
    if xs == [] then []
    else
      var n := |xs| - 1;
      Compact(xs[..n], ms[..n]) + if ms[n].lastUsed != 0 then [xs[n]] else []
  }

  lemma {:induction false} CompactLength<T, U>(xs: seq<T>, ys: seq<U>, ms: seq<Metadata>)
    requires |xs| == |ys| == |ms|
    ensures |Compact(xs, ms)| == |Compact(ys, ms)|
  {
    if xs == [] {
    } else {
      var n := |xs| - 1;
      CompactLength(xs[..n], ys[..n], ms[..n]);
    }
  }

  lemma {:induction false} CompactElements<T>(xs: seq<T>, ms: seq<Metadata>)
    requires |xs| == |ms|
    ensures forall x :: x in Compact(xs, ms) ==> x in xs
  {
    if xs == [] {
    } else {
      var n := |xs| - 1;
      CompactElements(xs[..n], ms[..n]);
    }
  }

  lemma {:induction false} CompactAllLive(ms: seq<Metadata>)
    ensures AllLive(Compact(ms, ms))
  {
    if ms == [] {
    } else {
      CompactAllLive(ms[..|ms| - 1]);
    }
  }

  /** Compaction keeps the order. */
  lemma {:induction false} CompactSorted(ds: seq<Digest>, ms: seq<Metadata>)
    requires |ds| == |ms| && StrictlySorted(ds)
    ensures StrictlySorted(Compact(ds, ms))
  {
    if ds == [] {
    } else {
      var n := |ds| - 1;
      CompactSorted(ds[..n], ms[..n]);
      var cd := Compact(ds[..n], ms[..n]);
      CompactElements(ds[..n], ms[..n]);
      forall i | 0 <= i < |cd| ensures Less(cd[i], ds[n]) {
        assert cd[i] in ds[..n];
      }
    }
  }

  lemma DistinctAppend<K>(ds: seq<K>, d: K)
    requires Distinct(ds + [d])
    ensures Distinct(ds) && d !in ds
  {
    var ds' := ds + [d];
    forall i | 0 <= i < |ds| ensures ds[i] == ds'[i] && ds[i] != ds'[|ds|] {
    }
  }

  lemma LiveAppend<K>(ds: seq<K>, ms: seq<Metadata>, d: K, m: Metadata)
    requires |ds| == |ms| && Distinct(ds + [d])
    ensures Distinct(ds) && d !in ds
    ensures Live(ds + [d], ms + [m]) == if m.lastUsed == 0 then Live(ds, ms) else Live(ds, ms)[d := m]
  {
    hide Live, Distinct;
    DistinctAppend(ds, d);
    var ds', ms' := ds + [d], ms + [m];
    var a := Live(ds', ms');
    var b := if m.lastUsed == 0 then Live(ds, ms) else Live(ds, ms)[d := m];
    forall k | k in b ensures k in a && a[k] == b[k] {
      if k in Live(ds, ms) && k != d {
        var i := LiveWhere(ds, ms, k);
        LiveAt(ds', ms', i);
      } else if m.lastUsed != 0 {
        LiveAt(ds', ms', |ds|);
      } else {
        var i := LiveWhere(ds, ms, k);
        assert false;
      }
    }
    forall k | k in a ensures k in b {
      var j := LiveWhere(ds', ms', k);
      if j != |ds| {
        LiveAt(ds, ms, j);
      }
    }
  }

  lemma {:induction false} CompactDistinct<K>(ds: seq<K>, ms: seq<Metadata>)
    requires |ds| == |ms| && Distinct(ds)
    ensures Distinct(Compact(ds, ms))
  {
    if ds == [] {
    } else {
      var n := |ds| - 1;
      CompactDistinct(ds[..n], ms[..n]);
      CompactElements(ds[..n], ms[..n]);
      assert ds[n] !in ds[..n];
    }
  }

  /** Compaction keeps exactly the live objects. */
  lemma {:induction false} CompactLive<K>(ds: seq<K>, ms: seq<Metadata>)
    requires |ds| == |ms| && Distinct(ds)
    ensures Distinct(Compact(ds, ms)) && |Compact(ds, ms)| == |Compact(ms, ms)|
    ensures Live(Compact(ds, ms), Compact(ms, ms)) == Live(ds, ms)
  {
    CompactDistinct(ds, ms);
    CompactLength(ds, ms, ms);
    if ds == [] {
    } else {
      var n := |ds| - 1;
      var ds0, ms0 := ds[..n], ms[..n];
      var cd, cm := Compact(ds0, ms0), Compact(ms0, ms0);
      assert ds0 + [ds[n]] == ds && ms0 + [ms[n]] == ms;
      LiveAppend(ds0, ms0, ds[n], ms[n]);
      CompactLive(ds0, ms0);
      if ms[n].lastUsed == 0 {
        assert Compact(ds, ms) == cd && Compact(ms, ms) == cm;
      } else {
        assert Compact(ds, ms) == cd + [ds[n]] && Compact(ms, ms) == cm + [ms[n]];
        LiveAppend(cd, cm, ds[n], ms[n]);
      }
    }
  }

  /** Strictly ordered digests give as many objects as there are live slots. */
  lemma {:induction false} LiveCard<K>(ds: seq<K>, ms: seq<Metadata>)
    requires |ds| == |ms| && Distinct(ds)
    ensures |Live(ds, ms)| == |Compact(ds, ms)|
  {
    if ds == [] {
    } else {
      var n := |ds| - 1;
      var ds0, ms0 := ds[..n], ms[..n];
      assert ds0 + [ds[n]] == ds && ms0 + [ms[n]] == ms;
      LiveCard(ds0, ms0);
      LiveAppend(ds0, ms0, ds[n], ms[n]);
      assert ds[n] !in Live(ds0, ms0);
    }
  }

  lemma {:induction false} CompactAll<T>(xs: seq<T>, ms: seq<Metadata>)
    requires |xs| == |ms| && AllLive(ms)
    ensures Compact(xs, ms) == xs
  {
    if xs == [] {
    } else {
      var n := |xs| - 1;
      CompactAll(xs[..n], ms[..n]);
      assert xs == xs[..n] + [xs[n]];
    }
  }

  lemma LiveCount<K>(ds: seq<K>, ms: seq<Metadata>)
    requires |ds| == |ms| && Distinct(ds) && AllLive(ms)
    ensures |Live(ds, ms)| == |ds|
    ensures Live(ds, ms).Keys == set d | d in ds
  {
    CompactAll(ds, ms);
    LiveCard(ds, ms);
    forall d | d in ds ensures d in Live(ds, ms) {
      var i :| 0 <= i < |ds| && ds[i] == d;
      assert ms[i].lastUsed != 0;
    }
  }

  // ----- insertion

  function Inserted<T>(xs: seq<T>, idx: nat, x: T): seq<T>
    requires idx <= |xs|
  {
    xs[..idx] + [x] + xs[idx..]
  }

  lemma InsertSorted(ds: seq<Digest>, idx: nat, d: Digest)
    requires StrictlySorted(ds) && IsLowerBound(ds, d, idx) && d !in ds
    ensures StrictlySorted(Inserted(ds, idx, d))
  {
    forall i | idx <= i < |ds| ensures Less(d, ds[i]) {
      assert CmpDigest(ds[i], d) != 0;
    }
  }

  lemma InsertDistinct<K>(ds: seq<K>, idx: nat, d: K)
    requires Distinct(ds) && idx <= |ds| && d !in ds
    ensures Distinct(Inserted(ds, idx, d))
  {
    assert forall i :: 0 <= i < |ds| ==> ds[i] != d;
  }

  lemma InsertLive<K>(ds: seq<K>, ms: seq<Metadata>, idx: nat, d: K, m: Metadata)
    requires |ds| == |ms| && Distinct(ds) && AllLive(ms) && idx <= |ds|
    requires d !in ds && m.lastUsed != 0
    ensures Distinct(Inserted(ds, idx, d)) && AllLive(Inserted(ms, idx, m))
    ensures Live(Inserted(ds, idx, d), Inserted(ms, idx, m)) == Live(ds, ms)[d := m]
  {
    hide Live, Distinct;
    InsertDistinct(ds, idx, d);
    var ds', ms' := Inserted(ds, idx, d), Inserted(ms, idx, m);
    var a, b := Live(ds', ms'), Live(ds, ms)[d := m];
    forall k | k in b ensures k in a && a[k] == b[k] {
      if k == d {
        LiveAt(ds', ms', idx);
      } else {
        var i := LiveWhere(ds, ms, k);
        LiveAt(ds', ms', if i < idx then i else i + 1);
      }
    }
    forall k | k in a ensures k in b {
      var j := LiveWhere(ds', ms', k);
      if j != idx {
        LiveAt(ds, ms, if j < idx then j else j - 1);
      }
    }
  }
}
