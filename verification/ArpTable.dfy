/** ducknet/lib/arp.cpp: the address table and the query table. */
module ArpTable {
  import opened Machine
  import opened ArpSpec

  /** The entries that an idle pass keeps. */
  ghost function Kept<V>(s: seq<Entry<V>>, now: nat, neverExpire: bool): seq<Entry<V>> {
    if s == [] then []
    else
      var e := s[|s| - 1];
      Kept(s[..|s| - 1], now, neverExpire) + if !neverExpire && now > e.expire then [] else [e]
  }

  lemma {:induction false} KeptAll<V>(s: seq<Entry<V>>, now: nat)
    ensures Kept(s, now, true) == s
  {
    if s == [] {
    } else {
      KeptAll(s[..|s| - 1], now);
    }
  }

  /** The unexpired entries stay and no others. */
  lemma {:induction false} KeptEntry<V>(s: seq<Entry<V>>, now: nat, e: Entry<V>)
    ensures e in Kept(s, now, false) <==> e in s && now <= e.expire
  {
    if s == [] {
    } else {
      KeptEntry(s[..|s| - 1], now, e);
      assert s == s[..|s| - 1] + [s[|s| - 1]];
    }
  }

  lemma {:induction false} KeptSorted<V>(s: seq<Entry<V>>, now: nat, neverExpire: bool)
    requires Sorted(s, |s|)
    ensures var t := Kept(s, now, neverExpire);
            Sorted(t, |t|) && forall i :: 0 <= i < |t| ==> t[i] in s
  {
    if s == [] {
    } else {
      KeptSorted(s[..|s| - 1], now, neverExpire);
    }
  }

  lemma KeptAlmostSorted<V>(s: seq<Entry<V>>, now: nat, neverExpire: bool)
    requires AlmostSorted(s)
    ensures AlmostSorted(Kept(s, now, neverExpire))
  {
    if s != [] {
      KeptSorted(s[..|s| - 1], now, neverExpire);
    }
  }

  lemma KeptNone<V>(now: nat, neverExpire: bool)
    ensures Kept<V>([], now, neverExpire) == []
  {
  }

  lemma InsertCount<V>(s: seq<Entry<V>>, l: nat, e: Entry<V>)
    requires l <= |s|
    ensures multiset(s[..l] + [e] + s[l..]) == multiset(s) + multiset{e}
  {
    assert s == s[..l] + s[l..];
  }

  /** One step of the compaction loop: entry i goes to place id, unless it is dropped. */
  lemma CompactStep<V>(s: seq<Entry<V>>, t: seq<Entry<V>>, i: nat, id: nat, now: nat, neverExpire: bool)
    requires id <= i < |s| == |t| && t[i..] == s[i..] && t[..id] == Kept(s[..i], now, neverExpire)
    ensures t[i] == s[i]
    ensures !neverExpire && now > s[i].expire ==> t[..id] == Kept(s[..i + 1], now, neverExpire)
    ensures neverExpire || now <= s[i].expire ==> t[id := t[i]][..id + 1] == Kept(s[..i + 1], now, neverExpire)
    ensures t[i + 1..] == t[id := t[i]][i + 1..] == s[i + 1..]
  {
    assert t[i] == t[i..][0] && s[i] == s[i..][0];
    assert s[..i + 1][..i] == s[..i];
    assert t[id := t[i]][..id + 1] == t[..id] + [s[i]];
    assert t[i + 1..] == t[i..][1..] && s[i + 1..] == s[i..][1..];
  }

  class Table<V(!new)> {
    const slots: array<Entry<V>>
    var n: nat

    ghost function Contents(): seq<Entry<V>>
      requires n <= slots.Length
      reads this, slots
    {
      slots[..n]
    }

    ghost predicate Valid()
      reads this, slots
    {
      slots.Length == TABLE_SIZE && n <= TABLE_SIZE && AlmostSorted(Contents())
    }

    constructor (blank: Entry<V>)
      ensures Valid() && n == 0 && Contents() == [] && fresh(slots)
    {
      slots := new Entry<V>[TABLE_SIZE](_ => blank);
      n := 0;
    }

    /** The binary search, which leaves the last slot out. */
    method Search(ip: nat) returns (l: nat)
      requires Valid()
      ensures IsPlace(Contents(), ip, l) && l <= n
    {
      var r := n - 1;
      l := 0;
      while l < r
        invariant 0 <= l && (l <= r || (n == 0 && l == 0)) && r < n
        invariant forall i :: 0 <= i < l ==> slots[i].ip < ip
        invariant forall i :: 0 <= r <= i < n - 1 ==> ip <= slots[i].ip
      {
        var mid := (l + r) / 2;
        assert Contents()[mid] == slots[mid];
        assert forall i :: 0 <= i < n ==> Contents()[i] == slots[i];
        if slots[mid].ip < ip {
          l := mid + 1;
        } else {
          r := mid;
        }
      }
    }

    /** Hit or miss is visible or not, and a hit gives the value. */
    method Lookup(ip: nat) returns (r: Option<V>)
      requires Valid()
      ensures r.Some? <==> VisibleIp(Contents(), ip)
      ensures r.Some? ==> exists i: nat :: Visible(Contents(), i) && slots[i].ip == ip && slots[i].value == r.value
      ensures forall h :: Records(h, Contents()) ==> r == Known(h, ip)
    {
      hide AlmostSorted, Known, Records;
      var l := Search(ip);
      HitIffVisible(Contents(), ip, l);
      forall h | Records(h, Contents())
        ensures Known(h, ip) == if Hit(Contents(), ip, l) then Some(Contents()[l].value) else None
      {
        SearchKnown(h, Contents(), ip, l);
      }
      if l >= n || slots[l].ip != ip {
        return None;
      }
      return Some(slots[l].value);
    }

    /** Opens slot l by moving the slots from l on up by one. */
    method OpenSlot(l: nat)
      requires l <= n < slots.Length
      modifies slots, this`n
      ensures n == old(n) + 1
      ensures slots[..l] == old(slots[..l]) && slots[l + 1..n] == old(slots[l..n])
    {
      var k := n;
      while k > l
        invariant l <= k <= n == old(n)
        invariant slots[..k] == old(slots[..k])
        invariant slots[k + 1..n + 1] == old(slots[k..n])
      {
        slots[k] := slots[k - 1];
        k := k - 1;
        assert slots[k + 1..n + 1] == [old(slots[k])] + old(slots[k + 1..n]);
      }
      n := n + 1;
    }

    method Insert(l: nat, e: Entry<V>)
      requires l <= n < slots.Length
      modifies slots, this`n
      ensures n == old(n) + 1 && n <= slots.Length
      ensures Contents() == old(Contents())[..l] + [e] + old(Contents())[l..]
    {
      OpenSlot(l);
      slots[l] := e;
      assert slots[..n] == slots[..l] + [e] + slots[l + 1..n];
    }

    /** update: fails only when the table is full and no entry of that address is visible. */
    method Update(e: Entry<V>) returns (ok: bool)
      requires Valid()
      modifies this`n, slots
      ensures Valid()
      ensures ok <==> old(n) < TABLE_SIZE || old(VisibleIp(Contents(), e.ip))
      ensures !ok ==> n == old(n) && Contents() == old(Contents())
      ensures ok ==> VisibleIp(Contents(), e.ip)
      ensures ok ==> forall h :: Records(h, old(Contents())) ==> Records(h + [e], Contents())
      ensures forall h :: Records(h, old(Contents())) ==> (ok <==> old(n) < TABLE_SIZE || Known(h, e.ip).Some?)
    {
      hide AlmostSorted, Records, VisibleIp, Visible, IsPlace, Known;
      var l := Search(e.ip);
      HitIffVisible(Contents(), e.ip, l);
      ghost var s := Contents();
      PutSorted(s, l, e);
      forall h | Records(h, s)
        ensures Records(h + [e], Put(s, l, e)) && (Known(h, e.ip).Some? <==> Hit(s, e.ip, l))
      {
        UpdateRecords(h, s, l, e);
        SearchKnown(h, s, e.ip, l);
      }
      if l >= n || slots[l].ip != e.ip {
        if n == TABLE_SIZE {
          return false;
        }
        Insert(l, e);
      } else {
        slots[l] := e;
      }
      assert Contents() == Put(s, l, e);
      ok := true;
    }

    /** The table work of query: asks unless the address is already visible or there is no room. */
    method Ask(e: Entry<V>) returns (asked: bool, seen: bool)
      requires Valid()
      modifies this`n, slots
      ensures Valid()
      ensures seen <==> old(VisibleIp(Contents(), e.ip))
      ensures asked <==> old(n) < TABLE_SIZE && !seen
      ensures !asked ==> n == old(n) && Contents() == old(Contents())
      ensures asked ==> n == old(n) + 1 && VisibleIp(Contents(), e.ip)
      ensures asked ==> multiset(Contents()) == multiset(old(Contents())) + multiset{e}
    {
      hide AlmostSorted, VisibleIp, Visible, IsPlace;
      var l := Search(e.ip);
      HitIffVisible(Contents(), e.ip, l);
      ghost var s := Contents();
      PutSorted(s, l, e);
      seen := l < n && slots[l].ip == e.ip;
      asked := !seen && n < TABLE_SIZE;
      if !asked {
        return;
      }
      Insert(l, e);
      assert Contents() == Put(s, l, e);
      InsertCount(s, l, e);
    }

    /** The in-place compaction of an idle pass. */
    method Compact(now: nat, neverExpire: bool)
      requires Valid()
      modifies this`n, slots
      ensures Valid() && Contents() == Kept(old(Contents()), now, neverExpire)
    {
      hide AlmostSorted, Kept;
      KeptNone<V>(now, neverExpire);
      ghost var s := Contents();
      KeptAlmostSorted(s, now, neverExpire);
      var id := 0;
      for i := 0 to n
        invariant id <= i && n == |s|
        invariant slots[..n][i..] == s[i..]
        invariant slots[..n][..id] == Kept(s[..i], now, neverExpire)
      {
        ghost var t := slots[..n];
        CompactStep(s, t, i, id, now, neverExpire);
        if neverExpire || now <= slots[i].expire {
          slots[id] := slots[i];
          assert slots[..n] == t[id := t[i]];
          id := id + 1;
        }
      }
      assert slots[..n][..id] == slots[..id];
      assert s[..n] == s;
      n := id;
    }
  }
}
