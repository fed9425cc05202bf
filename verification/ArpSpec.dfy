/** The address tables of ducknet/lib/arp.cpp on values.

    The binary search never looks at the last slot, so the entry that was inserted first stays last
    for ever and only the entries in front of it are sorted. */
module ArpSpec {
  import opened Machine

  datatype Entry<V> = Entry(ip: nat, value: V, expire: nat)

  const TABLE_SIZE: nat := 100

  ghost predicate Sorted<V>(s: seq<Entry<V>>, n: nat)
    requires n <= |s|
  {
    forall i, j :: 0 <= i < j < n ==> s[i].ip < s[j].ip
  }

  /** The number of entries in front of the last. */
  ghost function Front<V>(s: seq<Entry<V>>): (n: nat)
    ensures n <= |s|
  {
    if s == [] then 0 else |s| - 1
  }

  /** All entries but the last are strictly sorted by address. */
  ghost predicate AlmostSorted<V>(s: seq<Entry<V>>) {
    Sorted(s, Front(s))
  }

  /** Where the search for ip ends. */
  ghost predicate IsPlace<V>(s: seq<Entry<V>>, ip: nat, l: nat) {
    && l <= Front(s)
    && (forall i :: 0 <= i < l ==> s[i].ip < ip)
    && (forall i :: l <= i < Front(s) ==> ip <= s[i].ip)
  }

  predicate Hit<V>(s: seq<Entry<V>>, ip: nat, l: nat) {
    l < |s| && s[l].ip == ip
  }

  /** A search can find entry i: it is in the sorted part, or above all of it. */
  ghost predicate Visible<V>(s: seq<Entry<V>>, i: nat) {
    i < |s| && (i == |s| - 1 ==> forall j :: 0 <= j < i ==> s[j].ip < s[i].ip)
  }

  ghost predicate VisibleIp<V>(s: seq<Entry<V>>, ip: nat) {
    exists i: nat :: Visible(s, i) && s[i].ip == ip
  }

  lemma HitIffVisible<V>(s: seq<Entry<V>>, ip: nat, l: nat)
    requires AlmostSorted(s) && IsPlace(s, ip, l)
    ensures Hit(s, ip, l) <==> VisibleIp(s, ip)
  {
    if Hit(s, ip, l) {
      assert Visible(s, l);
    }
    forall i: nat | Visible(s, i) && s[i].ip == ip ensures i == l {
    }
  }

  /** What update does to the table. */
  ghost function Put<V>(s: seq<Entry<V>>, l: nat, e: Entry<V>): seq<Entry<V>>
    requires l <= |s|
  {
    if Hit(s, e.ip, l) then s[l := e] else s[..l] + [e] + s[l..]
  }

  lemma PutSorted<V>(s: seq<Entry<V>>, l: nat, e: Entry<V>)
    requires AlmostSorted(s) && IsPlace(s, e.ip, l)
    ensures AlmostSorted(Put(s, l, e)) && VisibleIp(Put(s, l, e), e.ip)
  {
    assert Visible(Put(s, l, e), l) && Put(s, l, e)[l] == e;
  }

  // ----- the table against the history of its updates

  /** The value of the most recent update of ip. */
  ghost function Latest<V>(h: seq<Entry<V>>, ip: nat): Option<V> {
    if h == [] then None
    else if h[|h| - 1].ip == ip then Some(h[|h| - 1].value)
    else Latest(h[..|h| - 1], ip)
  }

  /** A larger address came after the first. */
  ghost predicate Covered<V>(h: seq<Entry<V>>) {
    exists i :: 0 <= i < |h| && h[i].ip > h[0].ip
  }

  /** The first address was updated once more after that. */
  ghost predicate Readded<V>(h: seq<Entry<V>>) {
    exists i, j :: 0 <= i < j < |h| && h[i].ip > h[0].ip && h[j].ip == h[0].ip
  }

  /** What a search can learn about ip after the updates h: the latest value, except that the very
      first address is lost from the first larger one on until it is updated again. */
  ghost function Known<V>(h: seq<Entry<V>>, ip: nat): Option<V> {
    if h != [] && ip == h[0].ip && Covered(h) && !Readded(h) then None else Latest(h, ip)
  }

  /** The search misses the latest value exactly for the first address, covered and not updated since. */
  lemma KnownIsLatestIff<V>(h: seq<Entry<V>>, ip: nat)
    ensures Known(h, ip) == Latest(h, ip) <==> !(h != [] && ip == h[0].ip && Covered(h) && !Readded(h))
  {
    if h != [] {
      assert h[0].ip == h[0].ip;
      LatestFrom(h, h[0].ip);
    }
  }

  /** Two updates are enough to lose an address. */
  lemma FirstAddressLost<V>(a: Entry<V>, b: Entry<V>)
    requires a.ip < b.ip
    ensures Known([a, b], a.ip) == None && Latest([a, b], a.ip) == Some(a.value)
  {
    assert [a, b][1].ip > [a, b][0].ip;
    assert [a, b][..1] == [a];
  }

  ghost predicate InFront<V>(s: seq<Entry<V>>, ip: nat) {
    exists i :: 0 <= i < Front(s) && s[i].ip == ip
  }

  ghost predicate FrontOk<V>(h: seq<Entry<V>>, e: Entry<V>) {
    h != [] && Latest(h, e.ip) == Some(e.value) && (e.ip == h[0].ip ==> Readded(h))
  }

  /** The table s is what the updates h leave. */
  ghost predicate Records<V>(h: seq<Entry<V>>, s: seq<Entry<V>>) {
    && AlmostSorted(s) && (h == [] <==> s == [])
    && (s != [] ==>
          s[|s| - 1].ip == h[0].ip && (!Readded(h) ==> Latest(h, h[0].ip) == Some(s[|s| - 1].value)))
    && (forall i :: 0 <= i < Front(s) ==> FrontOk(h, s[i]))
    && (forall k :: 0 <= k < |h| && (h[k].ip != h[0].ip || Readded(h)) ==> InFront(s, h[k].ip))
  }

  lemma {:induction false} LatestFrom<V>(h: seq<Entry<V>>, ip: nat)
    ensures Latest(h, ip).Some? <==> exists k :: 0 <= k < |h| && h[k].ip == ip
  {
    if h == [] {
    } else {
      var g := h[..|h| - 1];
      LatestFrom(g, ip);
      if Latest(g, ip).Some? {
        var k :| 0 <= k < |g| && g[k].ip == ip;
        assert h[k].ip == ip;
      }
      if k :| 0 <= k < |h| && h[k].ip == ip && k < |g| {
        assert g[k].ip == ip;
      }
    }
  }

  lemma CoveredStep<V>(h: seq<Entry<V>>, e: Entry<V>)
    requires h != []
    ensures Covered(h + [e]) <==> Covered(h) || e.ip > h[0].ip
  {
    var g := h + [e];
    assert forall i :: 0 <= i < |h| ==> g[i] == h[i];
    if Covered(h) {
      var i :| 0 <= i < |h| && h[i].ip > h[0].ip;
      assert g[i].ip > g[0].ip;
    }
    if e.ip > h[0].ip {
      assert g[|h|].ip > g[0].ip;
    }
  }

  lemma ReaddedStep<V>(h: seq<Entry<V>>, e: Entry<V>)
    requires h != []
    ensures Readded(h + [e]) <==> Readded(h) || (Covered(h) && e.ip == h[0].ip)
  {
    var g := h + [e];
    if Covered(h) && e.ip == h[0].ip {
      var i :| 0 <= i < |h| && h[i].ip > h[0].ip;
      assert g[i].ip > g[0].ip && g[|h|].ip == g[0].ip;
    }
    if Readded(h) {
      var i, j :| 0 <= i < j < |h| && h[i].ip > h[0].ip && h[j].ip == h[0].ip;
      assert g[i].ip > g[0].ip && g[j].ip == g[0].ip;
    }
    if Readded(g) {
      var i, j :| 0 <= i < j < |g| && g[i].ip > g[0].ip && g[j].ip == g[0].ip;
      assert h[i].ip > h[0].ip;
      assert j < |h| ==> h[j].ip == h[0].ip;
    }
  }

  lemma HistoryStep<V>(h: seq<Entry<V>>, e: Entry<V>)
    requires h != []
    ensures Covered(h + [e]) <==> Covered(h) || e.ip > h[0].ip
    ensures Readded(h + [e]) <==> Readded(h) || (Covered(h) && e.ip == h[0].ip)
    ensures forall ip :: Latest(h + [e], ip) == if ip == e.ip then Some(e.value) else Latest(h, ip)
  {
    hide Covered, Readded;
    CoveredStep(h, e);
    ReaddedStep(h, e);
    assert (h + [e])[..|h + [e]| - 1] == h;
  }

  /** An update can be read back at once. */
  lemma UpdateKnown<V>(h: seq<Entry<V>>, e: Entry<V>)
    ensures Known(h + [e], e.ip) == Some(e.value)
  {
    if h != [] {
      HistoryStep(h, e);
    }
  }

  /** A larger address in the history is one in the sorted part. */
  lemma CoveredInFront<V>(h: seq<Entry<V>>, s: seq<Entry<V>>)
    requires Records(h, s) && h != []
    ensures Covered(h) <==> exists i :: 0 <= i < Front(s) && s[i].ip > h[0].ip
  {
    if Covered(h) {
      var k :| 0 <= k < |h| && h[k].ip > h[0].ip;
      assert InFront(s, h[k].ip);
    }
    forall i | 0 <= i < Front(s) && s[i].ip > h[0].ip ensures Covered(h) {
      assert FrontOk(h, s[i]);
      LatestFrom(h, s[i].ip);
    }
  }

  /** The search finds exactly what is known. */
  lemma SearchKnown<V>(h: seq<Entry<V>>, s: seq<Entry<V>>, ip: nat, l: nat)
    requires Records(h, s) && IsPlace(s, ip, l)
    ensures Known(h, ip) == if Hit(s, ip, l) then Some(s[l].value) else None
  {
    LatestFrom(h, ip);
    if h != [] {
      CoveredInFront(h, s);
      if l < Front(s) {
        assert FrontOk(h, s[l]);
      }
      if InFront(s, ip) {
        assert Hit(s, ip, l);
      } else if Latest(h, ip).Some? {
        var k :| 0 <= k < |h| && h[k].ip == ip;
        assert ip == h[0].ip && !Readded(h);
      }
    }
  }

  lemma RecordsFirst<V>(e: Entry<V>)
    ensures Records([e], Put([], 0, e))
  {
    assert Put([], 0, e) == [e];
    assert [e][..0] == [];
  }

  lemma PutInFront<V>(s: seq<Entry<V>>, l: nat, e: Entry<V>, ip: nat)
    requires s != [] && AlmostSorted(s) && IsPlace(s, e.ip, l)
    ensures InFront(s, ip) ==> InFront(Put(s, l, e), ip)
    ensures l < Front(s) || !Hit(s, e.ip, l) ==> InFront(Put(s, l, e), e.ip)
  {
    var t := Put(s, l, e);
    if InFront(s, ip) {
      var i :| 0 <= i < Front(s) && s[i].ip == ip;
      assert t[if i < l || Hit(s, e.ip, l) then i else i + 1].ip == ip;
    }
    assert t[l] == e;
  }

  lemma PutFrom<V>(s: seq<Entry<V>>, l: nat, e: Entry<V>, i: nat)
    requires s != [] && AlmostSorted(s) && IsPlace(s, e.ip, l) && i < Front(Put(s, l, e)) && i != l
    ensures exists k :: 0 <= k < Front(s) && s[k] == Put(s, l, e)[i] && s[k].ip != e.ip
  {
    var k := if i < l || Hit(s, e.ip, l) then i else i - 1;
    assert s[k] == Put(s, l, e)[i];
  }

  /** Every successful update keeps the table a record of the history. */
  lemma UpdateRecords<V>(h: seq<Entry<V>>, s: seq<Entry<V>>, l: nat, e: Entry<V>)
    requires Records(h, s) && IsPlace(s, e.ip, l)
    ensures Records(h + [e], Put(s, l, e))
  {
    if h == [] {
      assert [] + [e] == [e];
      RecordsFirst(e);
    } else {
      UpdateFront(h, s, l, e);
      UpdateLast(h, s, l, e);
      PutSorted(s, l, e);
    }
  }

  lemma UpdateLast<V>(h: seq<Entry<V>>, s: seq<Entry<V>>, l: nat, e: Entry<V>)
    requires Records(h, s) && h != [] && IsPlace(s, e.ip, l)
    ensures var g, t := h + [e], Put(s, l, e);
            t[|t| - 1].ip == g[0].ip && (!Readded(g) ==> Latest(g, g[0].ip) == Some(t[|t| - 1].value))
  {
    hide Latest, Covered, Readded;
    HistoryStep(h, e);
    CoveredInFront(h, s);
  }

  lemma UpdateFront<V>(h: seq<Entry<V>>, s: seq<Entry<V>>, l: nat, e: Entry<V>)
    requires Records(h, s) && h != [] && IsPlace(s, e.ip, l)
    ensures var g, t := h + [e], Put(s, l, e);
            && (forall i :: 0 <= i < Front(t) ==> FrontOk(g, t[i]))
            && (forall k :: 0 <= k < |g| && (g[k].ip != g[0].ip || Readded(g)) ==> InFront(t, g[k].ip))
  {
    hide Latest, FrontOk, InFront, Covered, Readded, Records, Put;
    var g, t := h + [e], Put(s, l, e);
    forall i | 0 <= i < Front(t) ensures FrontOk(g, t[i]) {
      UpdateFrontOk(h, s, l, e, i);
    }
    forall k | 0 <= k < |g| && (g[k].ip != g[0].ip || Readded(g)) ensures InFront(t, g[k].ip) {
      UpdateInFront(h, s, l, e, k);
    }
  }

  lemma UpdateFrontOk<V>(h: seq<Entry<V>>, s: seq<Entry<V>>, l: nat, e: Entry<V>, i: nat)
    requires Records(h, s) && h != [] && IsPlace(s, e.ip, l) && i < Front(Put(s, l, e))
    ensures FrontOk(h + [e], Put(s, l, e)[i])
  {
    hide Latest;
    HistoryStep(h, e);
    CoveredInFront(h, s);
    if i != l {
      PutFrom(s, l, e, i);
      var k :| 0 <= k < Front(s) && s[k] == Put(s, l, e)[i] && s[k].ip != e.ip;
      assert FrontOk(h, s[k]);
    } else if l < Front(s) {
      assert FrontOk(h, s[l]);
    }
  }

  lemma UpdateInFront<V>(h: seq<Entry<V>>, s: seq<Entry<V>>, l: nat, e: Entry<V>, k: nat)
    requires Records(h, s) && h != [] && IsPlace(s, e.ip, l) && k < |h + [e]|
    requires (h + [e])[k].ip != h[0].ip || Readded(h + [e])
    ensures InFront(Put(s, l, e), (h + [e])[k].ip)
  {
    hide Latest;
    HistoryStep(h, e);
    CoveredInFront(h, s);
    var ip := (h + [e])[k].ip;
    PutInFront(s, l, e, ip);
    if k < |h| && (ip != h[0].ip || Readded(h)) {
      assert InFront(s, h[k].ip);
    } else if Readded(h) {
      var i, j :| 0 <= i < j < |h| && h[i].ip > h[0].ip && h[j].ip == h[0].ip;
      assert InFront(s, h[j].ip);
    }
  }
}
