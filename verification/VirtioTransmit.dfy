/** The driver and the device working on one transmit queue. */
module VirtioTransmit {
  import opened Machine
  import opened VirtioQueue

  /** The packets in the buffers of the given ids. */
  ghost function Packets(bufs: seq<seq<byte>>, ids: seq<nat>): multiset<seq<byte>> {
    if ids == [] then multiset{}
    else
      var id := ids[|ids| - 1];
      Packets(bufs, ids[..|ids| - 1]) + multiset{if id < |bufs| then bufs[id] else []}
  }

  lemma {:induction false} PacketsConcat(bufs: seq<seq<byte>>, a: seq<nat>, b: seq<nat>)
    ensures Packets(bufs, a + b) == Packets(bufs, a) + Packets(bufs, b)
    decreases |b|
  {
    if b == [] {
      assert a + b == a;
    } else {
      assert (a + b)[..|a + b| - 1] == a + b[..|b| - 1];
      PacketsConcat(bufs, a, b[..|b| - 1]);
    }
  }

  lemma PacketsOne(bufs: seq<seq<byte>>, id: nat)
    requires id < |bufs|
    ensures Packets(bufs, [id]) == multiset{bufs[id]}
  {
    assert [id][..0] == [];
  }

  lemma {:induction false} PacketsFrame(bufs: seq<seq<byte>>, ids: seq<nat>, id: nat, p: seq<byte>)
    requires id < |bufs| && id !in ids
    ensures Packets(bufs[id := p], ids) == Packets(bufs, ids)
  {
    if ids == [] {
    } else {
      PacketsFrame(bufs, ids[..|ids| - 1], id, p);
    }
  }

  /** Accepted packets are on the wire or unaltered in the buffers that the device can see. */
  ghost predicate Conserved(accepted: seq<seq<byte>>, wire: seq<seq<byte>>, bufs: seq<seq<byte>>, avail: seq<nat>,
                            held: seq<nat>) {
    multiset(accepted) == multiset(wire) + Packets(bufs, avail) + Packets(bufs, held)
  }

  lemma ConservedTake(accepted: seq<seq<byte>>, wire: seq<seq<byte>>, bufs: seq<seq<byte>>, avail: seq<nat>,
                      held: seq<nat>)
    requires Conserved(accepted, wire, bufs, avail, held) && avail != []
    ensures Conserved(accepted, wire, bufs, avail[1..], held + [avail[0]])
  {
    hide Packets;
    assert avail == [avail[0]] + avail[1..];
    PacketsConcat(bufs, [avail[0]], avail[1..]);
    PacketsConcat(bufs, held, [avail[0]]);
  }

  lemma ConservedReturn(accepted: seq<seq<byte>>, wire: seq<seq<byte>>, bufs: seq<seq<byte>>, avail: seq<nat>,
                        held: seq<nat>, j: nat)
    requires Conserved(accepted, wire, bufs, avail, held) && j < |held| && held[j] < |bufs|
    ensures Conserved(accepted, wire + [bufs[held[j]]], bufs, avail, held[..j] + held[j + 1..])
  {
    hide Packets;
    var a, b := held[..j], held[j + 1..];
    assert held == a + [held[j]] + b;
    PacketsConcat(bufs, a + [held[j]], b);
    PacketsConcat(bufs, a, [held[j]]);
    PacketsConcat(bufs, a, b);
    PacketsOne(bufs, held[j]);
  }

  lemma ConservedWrite(accepted: seq<seq<byte>>, wire: seq<seq<byte>>, bufs: seq<seq<byte>>, avail: seq<nat>,
                       held: seq<nat>, id: nat, p: seq<byte>)
    requires Conserved(accepted, wire, bufs, avail, held) && id < |bufs| && id !in avail && id !in held
    ensures Conserved(accepted, wire, bufs[id := p], avail, held)
  {
    PacketsFrame(bufs, avail, id, p);
    PacketsFrame(bufs, held, id, p);
  }

  lemma ConservedOffer(accepted: seq<seq<byte>>, wire: seq<seq<byte>>, bufs: seq<seq<byte>>, avail: seq<nat>,
                       held: seq<nat>, id: nat)
    requires Conserved(accepted, wire, bufs, avail, held) && id < |bufs|
    ensures Conserved(accepted + [bufs[id]], wire, bufs, avail + [id], held)
  {
    hide Packets;
    PacketsConcat(bufs, avail, [id]);
    PacketsOne(bufs, id);
  }

  /** What the device may do next: take the next available buffer, or send and return the j-th it holds. */
  datatype Action = Take | Return(j: nat)

  /** The ids that the device can take, those it holds, and those it has returned. */
  datatype DeviceIds = DeviceIds(offered: seq<nat>, held: seq<nat>, returned: seq<nat>)

  ghost function Acted(d: DeviceIds, a: Action): DeviceIds {
    match a
    case Take => if d.offered == [] then d else DeviceIds(d.offered[1..], d.held + [d.offered[0]], d.returned)
    case Return(j) =>
      if j < |d.held| then DeviceIds(d.offered, d.held[..j] + d.held[j + 1..], d.returned + [d.held[j]]) else d
  }

  ghost function AllActed(d: DeviceIds, acts: seq<Action>): DeviceIds {
    if acts == [] then d else Acted(AllActed(d, acts[..|acts| - 1]), acts[|acts| - 1])
  }

  class VirtQueue {
    const queueSize: nat
    const actual: nat
    const usedRing: array<nat>
    const availRing: array<nat>
    const bufs: array<seq<byte>>
    var usedIdx: nat
    var availIdx: nat
    var curUsedIdx: nat

    // the device: how far it has read the avail ring, what it holds, what it has sent
    var lastAvail: nat
    var held: seq<nat>
    var wire: seq<seq<byte>>

    ghost var usedLog: seq<nat>
    ghost var availLog: seq<nat>
    ghost var popped: nat
    ghost var taken: nat
    ghost var hand: seq<nat>
    ghost var accepted: seq<seq<byte>>

    ghost function State(): Rings
      reads this, usedRing, availRing
    {
      Rings(queueSize, actual, usedRing[..], usedLog, popped, availRing[..], availLog, taken, hand, held)
    }

    /** The 16-bit counters are the unbounded ones, wrapped; the used counters start at -actual. */
    ghost predicate Counters()
      reads this
    {
      && usedIdx == Wrap(|usedLog| - actual) && curUsedIdx == Wrap(popped - actual)
      && availIdx == Wrap(|availLog|) && lastAvail == Wrap(taken)
    }

    /** Holds between any two steps of driver and device. */
    ghost predicate Sound()
      reads this, usedRing, availRing, bufs
    {
      && usedRing != availRing && bufs.Length == actual
      && Partition(State()) && Counters()
      && taken <= |availLog| && Conserved(accepted, wire, bufs[..], availLog[taken..], held)
    }

    ghost predicate Valid()
      reads this, usedRing, availRing, bufs
    {
      Sound() && hand == []
    }

    ghost function Side(): DeviceIds
      requires taken <= |availLog|
      reads this
    {
      DeviceIds(availLog[taken..], held, usedLog)
    }

    /** The queue memory before init. */
    ghost predicate Sized() {
      && QueueSize(queueSize) && actual == (if queueSize < 128 then queueSize else 128)
      && usedRing != availRing && usedRing.Length == availRing.Length == queueSize && bufs.Length == actual
    }

    constructor (queueSize: nat)
      requires QueueSize(queueSize)
      ensures Sized() && FirstIsZero(usedRing[..], actual) && this.queueSize == queueSize
    {
      this.queueSize := queueSize;
      actual := if queueSize < MAX_ACTUAL then queueSize else MAX_ACTUAL;
      usedRing := new nat[queueSize](_ => 0);
      availRing := new nat[queueSize](_ => 0);
      bufs := new seq<byte>[if queueSize < MAX_ACTUAL then queueSize else MAX_ACTUAL](_ => []);
      usedIdx, availIdx, curUsedIdx, lastAvail, held, wire := 0, 0, 0, 0, [], [];
    }

    /** VirtQueue::init for a transmit queue: every id un-popped. */
    method Init()
      requires Sized() && FirstIsZero(usedRing[..], actual)
      modifies this, usedRing
      ensures Valid() && accepted == [] && wire == []
    {
      hide Seeding, Valid, Place, FirstIsZero;
      ghost var ring := usedRing[..];
      Seed(usedRing, actual);
      Reset(ring);
    }

    method Reset(ghost ring: seq<nat>)
      requires Sized() && |ring| == queueSize && FirstIsZero(ring, actual) && Seeding(ring, usedRing[..], actual)
      modifies this
      ensures Valid() && accepted == [] && wire == []
    {
      hide Partition, Conserved, Wrap, Place, Seeding, FirstIsZero, Seeded;
      StartOk(queueSize, actual, ring, usedRing[..], availRing[..]);
      NothingYet(bufs[..]);
      availIdx, usedIdx, curUsedIdx := 0, 0, Wrap(0 - actual);
      lastAvail, held, wire := 0, [], [];
      usedLog, availLog, popped, taken, hand, accepted := Seeded(actual), [], 0, 0, [], [];
      assert State() == Start(queueSize, actual, usedRing[..], availRing[..]);
      assert availLog[taken..] == [];
    }

    method PopUsed() returns (id: nat, ok: bool)
      requires Valid()
      modifies this`curUsedIdx, this`popped, this`hand
      ensures Sound() && (ok <==> old(popped) < |usedLog|)
      ensures ok ==> hand == [id] && id < actual && id == usedLog[old(popped)]
      ensures !ok ==> hand == [] && id == 0xffff
    {
      hide Partition, Conserved, Wrap, Place;
      Pending();
      WrapEqual(popped - actual, |usedLog| - actual);
      if usedIdx == curUsedIdx {
        return 0xffff, false;
      }
      ghost var r := State();
      PoppedOk(r);
      WrapPlace(popped - actual, queueSize);
      WrapNext(popped - actual);
      id := usedRing[Place(curUsedIdx, queueSize)];
      curUsedIdx := (curUsedIdx + 1) % 0x1_0000;
      hand := [usedLog[popped]];
      popped := popped + 1;
      assert State() == Popped(r);
      ok := true;
    }

    method AddAvail(id: nat)
      requires Sound() && hand == [id] && id < bufs.Length
      modifies this`availIdx, this`availLog, this`hand, this`accepted, availRing
      ensures Valid() && accepted == old(accepted) + [bufs[id]] && availLog == old(availLog) + [id]
    {
      hide Partition, Conserved, Wrap, Place;
      Pending();
      ghost var r := State();
      OfferedOk(r, id);
      WrapPlace(|availLog|, queueSize);
      WrapNext(|availLog|);
      ConservedOffer(accepted, wire, bufs[..], availLog[taken..], held, id);
      assert (availLog + [id])[taken..] == availLog[taken..] + [id];
      availRing[Place(availIdx, queueSize)] := id;
      availIdx := (availIdx + 1) % 0x1_0000;
      availLog, hand, accepted := availLog + [id], [], accepted + [bufs[id]];
      assert availRing[..] == r.availRing[Place(|r.availLog|, r.size) := id];
      assert State() == Offered(r, id);
    }

    /** One step of the device, if it can take it. */
    method DeviceStep(a: Action)
      requires Sound()
      modifies this`lastAvail, this`held, this`wire, this`taken, this`usedIdx, this`usedLog, usedRing
      ensures Sound() && old(wire) <= wire && Side() == Acted(old(Side()), a)
    {
      hide Sound;
      Pending();
      match a
      case Take => TakeNext();
      case Return(j) => if j < |held| { SendAndReturn(j); }
    }

    method TakeNext()
      requires Sound()
      modifies this`lastAvail, this`held, this`taken
      ensures Sound()
      ensures Side() == Acted(old(Side()), Take)
    {
      hide Partition, Conserved, Wrap, Place;
      Pending();
      WrapEqual(taken, |availLog|);
      if lastAvail != availIdx {
        ghost var r := State();
        TakenOk(r);
        WrapPlace(taken, queueSize);
        WrapNext(taken);
        ConservedTake(accepted, wire, bufs[..], availLog[taken..], held);
        assert availLog[taken..][1..] == availLog[taken + 1..] && availLog[taken..][0] == availLog[taken];
        var id := availRing[Place(lastAvail, queueSize)];
        assert id == availRing[..][Place(taken, r.size)];
        held := held + [id];
        lastAvail := (lastAvail + 1) % 0x1_0000;
        taken := taken + 1;
        assert State() == Taken(r);
      }
    }

    method SendAndReturn(j: nat)
      requires Sound() && j < |held|
      modifies this`held, this`wire, this`usedIdx, this`usedLog, usedRing
      ensures Sound() && old(held[j]) < bufs.Length && wire == old(wire) + [bufs[old(held[j])]]
      ensures Side() == Acted(old(Side()), Return(j))
    {
      hide Partition, Conserved, Wrap, Place;
      Pending();
      ghost var r := State();
      ReturnedOk(r, j);
      WrapPlace(|usedLog| - actual, queueSize);
      WrapNext(|usedLog| - actual);
      ConservedReturn(accepted, wire, bufs[..], availLog[taken..], held, j);
      var id := held[j];
      wire := wire + [bufs[id]];
      usedRing[Place(usedIdx, queueSize)] := id;
      usedIdx := (usedIdx + 1) % 0x1_0000;
      held := held[..j] + held[j + 1..];
      usedLog := usedLog + [id];
      assert usedRing[..] == r.usedRing[Place(|r.usedLog| - r.actual, r.size) := id];
      assert State() == Returned(r, j);
    }

    method Device(acts: seq<Action>)
      requires Sound()
      modifies this`lastAvail, this`held, this`wire, this`taken, this`usedIdx, this`usedLog, usedRing
      ensures Sound() && old(wire) <= wire && Side() == AllActed(old(Side()), acts)
    {
      hide Sound, Acted;
      Pending();
      for i := 0 to |acts|
        invariant Sound() && old(wire) <= wire && taken <= |availLog| && Side() == AllActed(old(Side()), acts[..i])
      {
        DeviceStep(acts[i]);
        Pending();
        assert acts[..i + 1][..i] == acts[..i];
      }
      assert acts[..|acts|] == acts;
    }

    /** The copy into the popped buffer: at that moment neither ring offers it and the device does
        not hold it, and no other buffer changes. */
    method FillBuffer(id: nat, packet: seq<byte>)
      requires Sound() && hand == [id]
      modifies bufs
      ensures Sound() && id < bufs.Length && bufs[..] == old(bufs[..])[id := packet]
      ensures id !in availLog[taken..] && id !in held
    {
      hide Partition, Conserved, Counters;
      Pending();
      assert hand[0] == id;
      ghost var before := bufs[..];
      ConservedWrite(accepted, wire, before, availLog[taken..], held, id, packet);
      bufs[id] := packet;
      assert bufs[..] == before[id := packet];
    }

    /** send, with device steps d1 after the pop and d2 after the copy.  The one buffer it writes was
        pending in the used ring: not offered, and not the device's. */
    method Send(packet: seq<byte>, d1: seq<Action>, d2: seq<Action>) returns (ok: bool, ghost id: nat)
      requires Valid() && |packet| <= BUFFER_LEN
      modifies this, usedRing, availRing, bufs
      ensures Valid() && old(wire) <= wire
      ensures accepted == if ok then old(accepted) + [packet] else old(accepted)
      ensures ok <==> old(popped) < |old(usedLog)|
      ensures ok ==> id == old(usedLog)[old(popped)] && id !in old(held) && old(taken) <= |old(availLog)|
      ensures ok ==> id !in old(availLog)[old(taken)..]
      ensures ok ==> id < bufs.Length && bufs[..] == old(bufs[..])[id := packet]
      ensures !ok ==> bufs[..] == old(bufs[..])
      ensures var d := if ok then AllActed(AllActed(old(Side()), d1), d2) else old(Side());
              Side() == if ok then d.(offered := d.offered + [id]) else d
    {
      hide Partition, Conserved, Counters, AllActed;
      PendingApart();
      var next;
      next, ok := PopUsed();
      id := next;
      if ok {
        Device(d1);
        FillBuffer(next, packet);
        Device(d2);
        Pending();
        ghost var log := availLog;
        AddAvail(next);
        assert availLog[taken..] == log[taken..] + [next];
      }
    }

    /** What the used ring holds is not offered and not with the device. */
    lemma PendingApart()
      requires Sound()
      ensures popped <= |usedLog| && taken <= |availLog|
      ensures popped < |usedLog| ==> usedLog[popped] !in availLog[taken..] && usedLog[popped] !in held
    {
      hide Conserved, Stands, Located;
      if popped < |usedLog| {
        LocatedUsed(usedLog[popped..], availLog[taken..], hand, held, actual, 0);
      }
    }

    lemma Pending()
      requires Sound()
      ensures popped <= |usedLog| <= popped + MAX_ACTUAL && taken <= |availLog| <= taken + MAX_ACTUAL
      ensures 0 < actual <= queueSize && actual <= MAX_ACTUAL && QueueSize(queueSize)
      ensures usedRing.Length == availRing.Length == queueSize
      ensures forall k :: 0 <= k < |hand| ==> hand[k] < actual && hand[k] !in availLog[taken..] && hand[k] !in held
      ensures forall k :: 0 <= k < |held| ==> held[k] < actual
    {
      hide Conserved, Stands, Located;
      var r := State();
      var used, avail := r.usedLog[r.popped..], r.availLog[r.taken..];
      LocatedCount(used, avail, r.hand, r.held, r.actual);
      forall k | 0 <= k < |hand| ensures hand[k] < actual && hand[k] !in avail && hand[k] !in held {
        LocatedOnce(used, avail, hand, held, actual, hand[k]);
      }
      forall k | 0 <= k < |held| ensures held[k] < actual {
        LocatedHeld(used, avail, hand, held, actual, k);
      }
    }
  }

  lemma NothingYet(bufs: seq<seq<byte>>)
    ensures Conserved([], [], bufs, [], []) && Wrap(0) == 0
  {
  }

  lemma LocatedHeld(used: seq<nat>, avail: seq<nat>, hand: seq<nat>, held: seq<nat>, n: nat, k: nat)
    requires Located(used, avail, hand, held, n) && k < |held|
    ensures held[k] < n
  {
    assert held[k] in multiset(held);
    assert held[k] in multiset(used) + multiset(avail) + multiset(hand) + multiset(held);
  }

  lemma SeedingStep(ring: seq<nat>, ring': seq<nat>, n: nat)
    requires Seeding(ring, ring', n) && n < |ring|
    ensures Seeding(ring, ring'[Place(0 - n, |ring|) := n], n + 1)
  {
    hide Place;
    var next := ring'[Place(0 - n, |ring|) := n];
    forall k | 0 <= k < |ring| && k != n ensures Back(next, k) == Back(ring', k) {
      SeedPlaces(k, n, |ring|);
    }
  }

  lemma SeedPlaces(j: nat, k: nat, n: nat)
    requires j < n && k < n && j != k
    ensures Place(0 - j, n) != Place(0 - k, n)
  {
    if j < k {
      PlacesDiffer(0 - k, 0 - j, n);
    } else {
      PlacesDiffer(0 - j, 0 - k, n);
    }
  }

  /** The seeding loop. */
  method Seed(ring: array<nat>, actual: nat)
    requires 0 < actual <= ring.Length
    modifies ring
    ensures Seeding(old(ring[..]), ring[..], actual)
  {
    hide Place;
    ghost var start := ring[..];
    assert forall k :: 0 <= k < |start| ==> Back(ring[..], k) == Back(start, k);
    var id: nat := 0;
    while id < actual
      invariant 0 <= id <= actual && Seeding(start, ring[..], id)
    {
      SeedingStep(start, ring[..], id);
      ghost var before := ring[..];
      ring[Place(0 - id, ring.Length)] := id;
      assert ring[..] == before[Place(0 - id, |before|) := id];
      id := id + 1;
    }
  }
}
