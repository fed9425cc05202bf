/** ducknet/lib/ipv4.cpp: sending, and the queue of packets whose next hop is not yet resolved. */
module DeferredQueue {
  import opened Machine
  import opened ArpSpec
  import opened Arp
  import opened Bits
  import opened Clock
  import opened DeferredSpec

  const HEADER_LEN: nat := 20
  const TOSEND_TIMEOUT_MS: nat := 5000
  const QUERY_TIMEOUT_MS: nat := 1000
  const SWEEP_CALLS: nat := 1024

  datatype Verdict = Sent | Queued(id: nat) | TooLong | NoSlot

  /** match_prefix. */
  predicate SameNet(a: nat, b: nat, prefixLen: nat)
    requires prefixLen <= 32
  {
    Shift(Xor(a, b), 32 - prefixLen) == 0
  }

  /** It compares the leading prefixLen bits. */
  lemma SameNetIff(a: nat, b: nat, prefixLen: nat)
    requires prefixLen <= 32
    ensures SameNet(a, b, prefixLen) <==> Shift(a, 32 - prefixLen) == Shift(b, 32 - prefixLen)
  {
    XorShift(a, b, 32 - prefixLen);
    XorZero(Shift(a, 32 - prefixLen), Shift(b, 32 - prefixLen));
  }

  /** The verdict on a packet that would wait as item, mac being known for its hop or not, and what becomes
      of the slots and the wire. */
  ghost predicate Answers(v: Verdict, item: Deferred, mac: Option<Mac>, fits: bool, view: seq<Slot>, view': seq<Slot>,
                          wire: seq<Frame>, wire': seq<Frame>)
    requires |view| == 64
  {
    match v
    case Sent => mac.Some? && fits && view' == view && wire' == wire + [Frame(mac.value, item.packet)]
    case Queued(id) =>
      && mac.None? && fits && wire' == wire
      && id < 64 && view[id] == Free && (forall j :: 0 <= j < id ==> view[j] != Free)
      && view' == view[id := Busy(item)]
    case TooLong =>
      && !fits && view' == view && wire' == wire
      && (mac.Some? || exists j :: 0 <= j < 64 && view[j] == Free)
    case NoSlot =>
      mac.None? && view' == view && wire' == wire && forall j :: 0 <= j < 64 ==> view[j] != Free
  }

  /** A query is added exactly if no address is known for the hop, no query for it is visible, and there
      is room. */
  ghost predicate Asks(query: Entry<()>, mac: Option<Mac>, asked: seq<Entry<()>>, asked': seq<Entry<()>>) {
    if mac.Some? || VisibleIp(asked, query.ip) || |asked| >= 100 then asked' == asked
    else multiset(asked') == multiset(asked) + multiset{query}
  }

  class Ipv4 {
    const arp: AddressResolution
    const ip: nat
    const gateway: nat
    const prefixLen: nat
    const mtu: nat
    const freq: nat
    const idleDelay: nat
    const table: array<Deferred>
    const free: array<nat>
    var idleCalls: nat
    var lastIdle: nat
    var wire: seq<Frame>

    ghost var deferred: multiset<Deferred>
    ghost var sentLater: multiset<Deferred>
    ghost var dropped: multiset<Deferred>

    ghost predicate Shape()
      reads this, free
    {
      prefixLen <= 32 && table.Length == SLOTS && free.Length == 2 && Words(free[..])
    }

    ghost function View(): seq<Slot>
      requires Shape()
      reads this, table, free
    {
      ViewOf(free[..], table[..])
    }

    ghost predicate ArpValid()
      reads this, table, free, arp, arp.table, arp.table.slots, arp.queries, arp.queries.slots
    {
      && arp.Valid()
      && {table as object, free as object} !! {arp.table.slots as object, arp.queries.slots as object}
      && table as object != free as object
    }

    /** Every packet ever queued is waiting in one slot, or was sent once, or was dropped once. */
    ghost predicate Valid()
      reads this, table, free, arp, arp.table, arp.table.slots, arp.queries, arp.queries.slots
    {
      Shape() && ArpValid() && deferred == Waiting(View()) + sentLater + dropped
    }

    constructor (arp: AddressResolution, ip: nat, gateway: nat, prefixLen: nat, mtu: nat, freq: nat, now: nat)
      requires arp.Valid() && prefixLen <= 32
      ensures this.arp == arp && this.ip == ip && this.gateway == gateway && this.prefixLen == prefixLen
      ensures this.mtu == mtu && this.freq == freq && idleDelay == freq * 100 / 1000 / 1000
      ensures idleCalls == 0 && lastIdle == now && table.Length == SLOTS && free.Length == 2
      ensures ArpValid() && fresh(table) && fresh(free)
    {
      this.arp, this.ip, this.gateway, this.prefixLen, this.mtu := arp, ip, gateway, prefixLen, mtu;
      this.freq, idleDelay, idleCalls, lastIdle, wire := freq, freq * 100 / 1000 / 1000, 0, now, [];
      table := new Deferred[SLOTS](_ => Deferred(0, 0, Packet(0, 0, [])));
      free := new nat[2](_ => 0);
    }

    /** ducknet_ipv4_init: every slot free. */
    method Init()
      requires prefixLen <= 32 && table.Length == SLOTS && free.Length == 2 && ArpValid()
      modifies this, free
      ensures Valid() && wire == [] && View() == seq(SLOTS, _ => Free)
    {
      hide Waiting, Word, SlotFree, AddressResolution.Valid, Or, Mask;
      free[0], free[1] := 0, 0;
      NoSlotFree(free[..]);
      for i := 0 to SLOTS
        modifies free
        invariant ArpValid() && Words(free[..])
        invariant forall j :: 0 <= j < SLOTS ==> (SlotFree(free[..], j) <==> j < i)
      {
        ghost var words := free[..];
        ReleasedSlots(words, i);
        free[i / 32] := Or(free[i / 32], Mask(i % 32));
        assert free[..] == Released(words, i);
      }
      wire, deferred, sentLater, dropped := [], multiset{}, multiset{}, multiset{};
      assert View() == seq(SLOTS, _ => Free);
      NothingWaiting(View());
    }

    /** ducknet_ipv4_send: at once when the hop's address is known, else into the lowest free slot.  The hop
        is the destination if it agrees with the own address in the leading bits, else the gateway. */
    method Send(packet: Packet, now: nat) returns (v: Verdict)
      requires Valid()
      modifies this`wire, this`deferred, table, free, arp.queries`n, arp.queries.slots
      ensures Valid() && arp.updates == old(arp.updates)
      ensures
        var hop := if Shift(packet.dst, 32 - prefixLen) == Shift(ip, 32 - prefixLen) then packet.dst else gateway;
        && Answers(v, Deferred(hop, now + 5000 * freq / 1000, packet), Known(arp.updates, hop),
                   |packet.payload| + 20 <= mtu, old(View()), View(), old(wire), wire)
        && Asks(Entry(hop, (), now + 1000 * freq / 1000), Known(arp.updates, hop),
                old(arp.queries.Contents()), arp.queries.Contents())
    {
      hide Waiting, Word, SlotFree, Known, Records, Shift, Answers, Asks, AddressResolution.Valid;
      SameNetIff(packet.dst, ip, prefixLen);
      v := SendTo(packet, if SameNet(packet.dst, ip, prefixLen) then packet.dst else gateway, now);
    }

    method SendTo(packet: Packet, hop: nat, now: nat) returns (v: Verdict)
      requires Valid()
      modifies this`wire, this`deferred, table, free, arp.queries`n, arp.queries.slots
      ensures Valid() && arp.updates == old(arp.updates)
      ensures Answers(v, Deferred(hop, now + 5000 * freq / 1000, packet), Known(arp.updates, hop),
                      |packet.payload| + 20 <= mtu, old(View()), View(), old(wire), wire)
      ensures Asks(Entry(hop, (), now + 1000 * freq / 1000), Known(arp.updates, hop),
                   old(arp.queries.Contents()), arp.queries.Contents())
    {
      hide Waiting, Word, SlotFree, Known, Records, AddMs, VisibleIp;
      var mac := arp.Lookup(hop);
      if mac.Some? {
        if |packet.payload| + HEADER_LEN > mtu {
          return TooLong;
        }
        wire := wire + [Frame(mac.value, packet)];
        return Sent;
      }
      var _ := arp.Query(hop, AddMs(now, QUERY_TIMEOUT_MS, freq));
      v := Defer(packet, Deferred(hop, AddMs(now, TOSEND_TIMEOUT_MS, freq), packet));
    }

    /** The packet goes into the lowest free slot. */
    method Defer(packet: Packet, item: Deferred) returns (v: Verdict)
      requires Valid() && item.packet == packet
      modifies this`deferred, table, free
      ensures Valid() && Answers(v, item, None, |packet.payload| + 20 <= mtu, old(View()), View(), wire, wire)
    {
      hide Waiting, Word, SlotFree, Records, Known;
      var id := FindFree(free[..]);
      if id.None? {
        return NoSlot;
      }
      if |packet.payload| + HEADER_LEN > mtu {
        assert View()[id.value] == Free;
        return TooLong;
      }
      Enqueue(id.value, item);
      return Queued(id.value);
    }

    method Enqueue(id: nat, item: Deferred)
      requires Valid() && id < SLOTS && View()[id] == Free
      modifies this`deferred, table, free
      ensures Valid() && View() == old(View())[id := Busy(item)]
    {
      hide Waiting, Word, SlotFree, AddressResolution.Valid, Without, Mask;
      ghost var words, items, view := free[..], table[..], View();
      ClaimedView(words, items, id, item);
      WaitingAdd(view, id, item);
      table[id] := item;
      free[id / 32] := Without(free[id / 32], Mask(id % 32));
      deferred := deferred + multiset{item};
      assert free[..] == Claimed(words, id) && table[..] == items[id := item];
    }

    method Release(i: nat)
      requires Shape() && i < SLOTS
      modifies free
      ensures Shape() && View() == old(View())[i := Free]
    {
      hide Word, SlotFree, Or, Mask;
      ghost var words := free[..];
      ReleasedView(words, table[..], i);
      free[i / 32] := Or(free[i / 32], Mask(i % 32));
      assert free[..] == Released(words, i);
    }

    /** One slot of the pass. */
    method SweepSlot(i: nat, now: nat)
      requires Shape() && ArpValid() && i < SLOTS
      modifies this`wire, free, arp.queries`n, arp.queries.slots
      ensures Shape() && ArpValid() && arp.updates == old(arp.updates)
      ensures View() == old(View())[i := Next(old(View())[i], now, arp.updates)]
      ensures wire == old(wire) + FrameOf(old(View())[i], now, arp.updates)
      ensures
        match old(View())[i]
        case Free => View() == old(View()) && wire == old(wire)
        case Busy(Deferred(hop, expire, packet)) =>
          if now > expire then
            View() == old(View())[i := Free] && wire == old(wire)
          else
            match Known(arp.updates, hop)
            case Some(mac) => View() == old(View())[i := Free] && wire == old(wire) + [Frame(mac, packet)]
            case None => View() == old(View()) && wire == old(wire)
    {
      hide Word, Shift, Or, Mask, Known, Records;
      if SlotFree(free[..], i) {
        return;
      }
      var item := table[i];
      assert View()[i] == Busy(item);
      if Late(item, now) {
        Release(i);
        return;
      }
      var mac := arp.Lookup(item.hop);
      if mac.Some? {
        Release(i);
        wire := wire + [Frame(mac.value, item.packet)];
      } else {
        var _ := arp.Query(item.hop, AddMs(now, QUERY_TIMEOUT_MS, freq));
      }
    }

    method SweepSlots(now: nat)
      requires Shape() && ArpValid()
      modifies this`wire, free, arp.queries`n, arp.queries.slots
      ensures Shape() && ArpValid() && arp.updates == old(arp.updates)
      ensures View() == Swept(old(View()), now, arp.updates)
      ensures wire == old(wire) + Frames(old(View()), now, arp.updates)
    {
      hide ViewOf, Words, Frames, FrameOf, AddressResolution.Valid, Next, Swept, Partway;
      ghost var view, h, sent := View(), arp.updates, wire;
      SweepEnds(view, now, h);
      for i := 0 to SLOTS
        invariant Shape() && ArpValid() && arp.updates == h
        invariant View() == Partway(view, i, now, h)
        invariant wire == sent + Frames(view[..i], now, h)
      {
        SweepStep(view, i, now, h);
        SweepSlot(i, now);
      }
    }

    /** The pass over all slots: each waiting packet stays as it is, is dropped, or is sent. */
    method Sweep(now: nat)
      requires Valid()
      modifies this`wire, this`sentLater, this`dropped, free, arp.queries`n, arp.queries.slots
      ensures Valid() && arp.updates == old(arp.updates)
      ensures View() == Swept(old(View()), now, arp.updates)
      ensures wire == old(wire) + Frames(old(View()), now, arp.updates)
    {
      hide Word, SlotFree, Waiting, Frames, Records, AddressResolution.Valid;
      ghost var view, h := View(), arp.updates;
      SweepConserves(view, now, h);
      SumConserves(deferred, Waiting(view), Waiting(Swept(view, now, h)), Dropped(view, now), SentLater(view, now, h),
                   sentLater, dropped);
      SweepSlots(now);
      sentLater, dropped := sentLater + SentLater(view, now, h), dropped + Dropped(view, now);
    }

    /** ducknet_ipv4_idle. */
    method Idle(now: nat)
      requires Valid()
      modifies this`idleCalls, this`lastIdle, this`wire, this`sentLater, this`dropped
      modifies free, arp.queries`n, arp.queries.slots
      ensures Valid() && arp.updates == old(arp.updates)
      ensures
        if old(idleCalls) + 1 < 1024 && (now - old(lastIdle)) % TWO64 <= idleDelay then
          && View() == old(View()) && wire == old(wire)
          && idleCalls == old(idleCalls) + 1 && lastIdle == old(lastIdle)
        else
          && idleCalls == 0 && lastIdle == now
          && View() == Swept(old(View()), now, arp.updates)
          && wire == old(wire) + Frames(old(View()), now, arp.updates)
    {
      hide Word, SlotFree, Waiting, Frames, Known, Records, Leaves, Next;
      idleCalls := idleCalls + 1;
      if idleCalls < SWEEP_CALLS && (now - lastIdle) % TWO64 <= idleDelay {
        return;
      }
      idleCalls, lastIdle := 0, now;
      Sweep(now);
    }
  }
}
