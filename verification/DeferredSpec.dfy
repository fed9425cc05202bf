/** The packets of ducknet/lib/ipv4.cpp that wait for an address, on values. */
module DeferredSpec {
  import opened Machine
  import opened ArpSpec
  import opened Arp
  import opened Bits

  const SLOTS: nat := 64

  datatype Packet = Packet(dst: nat, protocol: nat, payload: seq<nat>)

  datatype Deferred = Deferred(hop: nat, expire: nat, packet: Packet)

  datatype Slot = Free | Busy(item: Deferred)

  datatype Frame = Frame(mac: Mac, packet: Packet)

  // ----- the bitmap of free slots

  /** A 32-bit word. */
  ghost predicate Word(w: nat) {
    forall k: nat :: Bit(w, k) ==> k < 32
  }

  ghost predicate Words(words: seq<nat>) {
    |words| == 2 && Word(words[0]) && Word(words[1])
  }

  predicate SlotFree(words: seq<nat>, i: nat)
    requires |words| == 2 && i < SLOTS
  {
    Bit(words[i / 32], i % 32)
  }

  function Released(words: seq<nat>, i: nat): seq<nat>
    requires |words| == 2 && i < SLOTS
  {
    words[i / 32 := Or(words[i / 32], Mask(i % 32))]
  }

  function Claimed(words: seq<nat>, i: nat): seq<nat>
    requires |words| == 2 && i < SLOTS
  {
    words[i / 32 := Without(words[i / 32], Mask(i % 32))]
  }

  lemma ReleasedSlots(words: seq<nat>, i: nat)
    requires Words(words) && i < SLOTS
    ensures Words(Released(words, i))
    ensures forall j :: 0 <= j < SLOTS ==> (SlotFree(Released(words, i), j) <==> j == i || SlotFree(words, j))
  {
    hide Bit, Or, Mask;
    forall k: nat ensures Bit(Or(words[i / 32], Mask(i % 32)), k) <==> Bit(words[i / 32], k) || k == i % 32 {
      OrBit(words[i / 32], Mask(i % 32), k);
      MaskBit(i % 32, k);
    }
  }

  lemma ClaimedSlots(words: seq<nat>, i: nat)
    requires Words(words) && i < SLOTS
    ensures Words(Claimed(words, i))
    ensures forall j :: 0 <= j < SLOTS ==> (SlotFree(Claimed(words, i), j) <==> j != i && SlotFree(words, j))
  {
    hide Bit, Without, Mask;
    forall k: nat ensures Bit(Without(words[i / 32], Mask(i % 32)), k) <==> Bit(words[i / 32], k) && k != i % 32 {
      WithoutBit(words[i / 32], Mask(i % 32), k);
      MaskBit(i % 32, k);
    }
  }

  /** The slots that a bitmap and a table stand for. */
  ghost function ViewOf(words: seq<nat>, table: seq<Deferred>): (r: seq<Slot>)
    requires |words| == 2 && |table| == SLOTS
    ensures |r| == SLOTS
    ensures forall i :: 0 <= i < SLOTS ==> r[i] == if SlotFree(words, i) then Free else Busy(table[i])
  {
    seq(SLOTS, i requires 0 <= i < SLOTS => if SlotFree(words, i) then Free else Busy(table[i]))
  }

  lemma ReleasedView(words: seq<nat>, table: seq<Deferred>, i: nat)
    requires Words(words) && |table| == SLOTS && i < SLOTS
    ensures Words(Released(words, i)) && ViewOf(Released(words, i), table) == ViewOf(words, table)[i := Free]
  {
    hide SlotFree, Word;
    ReleasedSlots(words, i);
  }

  lemma ClaimedView(words: seq<nat>, table: seq<Deferred>, i: nat, item: Deferred)
    requires Words(words) && |table| == SLOTS && i < SLOTS
    ensures Words(Claimed(words, i))
    ensures ViewOf(Claimed(words, i), table[i := item]) == ViewOf(words, table)[i := Busy(item)]
  {
    hide SlotFree, Word;
    ClaimedSlots(words, i);
  }

  /** find_tosend_free: the lowest free slot. */
  method FindFree(words: seq<nat>) returns (id: Option<nat>)
    requires Words(words)
    ensures id.None? ==> forall j :: 0 <= j < SLOTS ==> !SlotFree(words, j)
    ensures id.Some? ==>
              id.value < SLOTS && SlotFree(words, id.value) && forall j :: 0 <= j < id.value ==> !SlotFree(words, j)
  {
    hide Shift, Bit;
    for i := 0 to 2
      invariant forall j :: 0 <= j < 32 * i ==> !SlotFree(words, j)
    {
      if words[i] != 0 {
        var k := LowerBitIndex(words[i]);
        assert Bit(words[i], k);
        return Some(32 * i + k);
      }
      forall k: nat ensures !Bit(words[i], k) {
        ZeroBit(k);
      }
    }
    return None;
  }

  // ----- what an idle pass does to one slot and to all

  predicate Late(item: Deferred, now: nat) {
    now > item.expire
  }

  ghost predicate Leaves(slot: Slot, now: nat, h: seq<Entry<Mac>>) {
    slot.Busy? && (Late(slot.item, now) || Known(h, slot.item.hop).Some?)
  }

  ghost function Next(slot: Slot, now: nat, h: seq<Entry<Mac>>): Slot {
    if Leaves(slot, now, h) then Free else slot
  }

  ghost function Swept(view: seq<Slot>, now: nat, h: seq<Entry<Mac>>): (r: seq<Slot>)
    ensures |r| == |view| && forall i :: 0 <= i < |view| ==> r[i] == Next(view[i], now, h)
  {
    seq(|view|, i requires 0 <= i < |view| => Next(view[i], now, h))
  }

  /** The frame of one slot: to the address known for its hop. */
  ghost function FrameOf(slot: Slot, now: nat, h: seq<Entry<Mac>>): seq<Frame> {
    if Leaves(slot, now, h) && !Late(slot.item, now)
    then [Frame(Known(h, slot.item.hop).value, slot.item.packet)] else []
  }

  /** The frames of a pass, in slot order. */
  ghost function Frames(view: seq<Slot>, now: nat, h: seq<Entry<Mac>>): seq<Frame> {
    if view == [] then []
    else
      var slot := view[|view| - 1];
      Frames(view[..|view| - 1], now, h) + FrameOf(slot, now, h)
  }

  /** What is waiting, what a pass drops and what it sends. */
  ghost function Waiting(view: seq<Slot>): multiset<Deferred> {
    if view == [] then multiset{}
    else
      var slot := view[|view| - 1];
      Waiting(view[..|view| - 1]) + if slot.Busy? then multiset{slot.item} else multiset{}
  }

  ghost function Dropped(view: seq<Slot>, now: nat): multiset<Deferred> {
    if view == [] then multiset{}
    else
      var slot := view[|view| - 1];
      Dropped(view[..|view| - 1], now) + if slot.Busy? && Late(slot.item, now) then multiset{slot.item} else multiset{}
  }

  ghost function SentLater(view: seq<Slot>, now: nat, h: seq<Entry<Mac>>): multiset<Deferred> {
    if view == [] then multiset{}
    else
      var slot := view[|view| - 1];
      SentLater(view[..|view| - 1], now, h)
      + if Leaves(slot, now, h) && !Late(slot.item, now) then multiset{slot.item} else multiset{}
  }

  /** A pass loses nothing and doubles nothing. */
  lemma {:induction false} SweepConserves(view: seq<Slot>, now: nat, h: seq<Entry<Mac>>)
    ensures Waiting(view) == Waiting(Swept(view, now, h)) + Dropped(view, now) + SentLater(view, now, h)
  {
    if view == [] {
    } else {
      hide Known;
      var front, after := view[..|view| - 1], Swept(view, now, h);
      SweepConserves(front, now, h);
      assert after[..|view| - 1] == Swept(front, now, h);
    }
  }

  lemma {:induction false} WaitingAdd(view: seq<Slot>, i: nat, item: Deferred)
    requires i < |view| && view[i] == Free
    ensures Waiting(view[i := Busy(item)]) == Waiting(view) + multiset{item}
  {
    var n, after := |view| - 1, view[i := Busy(item)];
    if i < n {
      WaitingAdd(view[..n], i, item);
      assert after[..n] == view[..n][i := Busy(item)];
    } else {
      assert after[..n] == view[..n];
    }
  }

  lemma {:induction false} NothingWaiting(view: seq<Slot>)
    requires forall i :: 0 <= i < |view| ==> view[i] == Free
    ensures Waiting(view) == multiset{}
  {
    if view == [] {
    } else {
      NothingWaiting(view[..|view| - 1]);
    }
  }

  // ----- one step of the pass

  /** The slots when the pass has done the first i. */
  ghost function Partway(view: seq<Slot>, i: nat, now: nat, h: seq<Entry<Mac>>): (r: seq<Slot>)
    requires i <= |view|
    ensures |r| == |view|
  {
    Swept(view, now, h)[..i] + view[i..]
  }

  lemma SweepStep(view: seq<Slot>, i: nat, now: nat, h: seq<Entry<Mac>>)
    requires i < |view|
    ensures Partway(view, i, now, h)[i] == view[i]
    ensures Partway(view, i, now, h)[i := Next(view[i], now, h)] == Partway(view, i + 1, now, h)
    ensures Frames(view[..i + 1], now, h) == Frames(view[..i], now, h) + FrameOf(view[i], now, h)
  {
    hide Known, Next, Leaves, FrameOf;
    assert view[..i + 1][..i] == view[..i];
  }

  lemma SweepEnds(view: seq<Slot>, now: nat, h: seq<Entry<Mac>>)
    ensures Partway(view, 0, now, h) == view && Partway(view, |view|, now, h) == Swept(view, now, h)
    ensures view[..|view|] == view && Frames([], now, h) == []
  {
  }

  lemma NoSlotFree(words: seq<nat>)
    requires words == [0, 0]
    ensures Words(words) && forall j :: 0 <= j < SLOTS ==> !SlotFree(words, j)
  {
    hide Shift, Bit;
    forall k: nat ensures !Bit(0, k) {
      ZeroBit(k);
    }
  }

  lemma SumConserves<T>(all: multiset<T>, before: multiset<T>, after: multiset<T>, d: multiset<T>, s: multiset<T>,
                        sent: multiset<T>, dropped: multiset<T>)
    requires all == before + sent + dropped && before == after + d + s
    ensures all == after + (sent + s) + (dropped + d)
  {
  }
}
