/** The transmit ring of lib/e1000.cpp and the device behind it.

    The driver owns the descriptors from the tail register to the head register, the device the
    others (section 3.4 of Intel's PCI/PCI-X Family of Gigabit Ethernet Controllers Software
    Developer's Manual).  A device step fetches the descriptor at the head, sends the bytes it
    points at and advances the head.  Within a send steps may fall at four places: before the head
    register is read, after that, between the copy of the packet and its descriptor, and before the
    tail register is written.  Addresses are relative to the page area, registers are fields. */
module E1000Transmit {
  import opened Machine
  import opened E1000Frags

  const TQSIZE: nat := 256
  const AREA: nat := PAGES * PAGE_SIZE

  datatype Desc = Desc(addr: nat, length: nat)

  /** The ring slot of packet k. */
  ghost function Slot(k: nat): (r: nat)
    ensures r < TQSIZE
  {
    k % TQSIZE
  }

  lemma SlotNext(k: nat)
    ensures Slot(k + 1) == (Slot(k) + 1) % TQSIZE
  {
  }

  lemma SlotsDiffer(j: nat, k: nat)
    requires j < k <= j + 255
    ensures Slot(j) != Slot(k)
  {
  }

  /** The test for a full ring compares counts modulo its size. */
  lemma FullTest(accepted: nat, seen: nat)
    requires seen <= accepted <= seen + 255
    ensures (Slot(accepted) + 1) % TQSIZE == Slot(seen) <==> accepted == seen + 255
  {
    hide Slot;
    SlotNext(accepted);
    if accepted < seen + 255 {
      SlotsDiffer(seen, accepted + 1);
    } else {
      SlotAgain(seen);
    }
  }

  lemma SlotAgain(k: nat)
    ensures Slot(k + TQSIZE) == Slot(k)
  {
  }

  lemma PageNext(page: nat)
    ensures (page % PAGES + 1) % PAGES == (page + 1) % PAGES
  {
  }

  /** Packet k stands in its ring slot: the descriptor points at its fragment, which holds its bytes. */
  ghost predicate Holds(tq: seq<Desc>, mem: seq<byte>, frag: Frag, packet: seq<byte>, k: nat)
    requires |tq| == TQSIZE && |mem| == AREA
  {
    && |packet| <= frag.size && Start(frag) + |packet| <= AREA
    && tq[Slot(k)] == Desc(Start(frag), |packet|)
    && mem[Start(frag)..Start(frag) + |packet|] == packet
  }

  /** Everything accepted and not yet sent is in place. */
  ghost predicate InFlight(tq: seq<Desc>, mem: seq<byte>, frags: seq<Frag>, accepted: seq<seq<byte>>, sent: nat)
    requires |tq| == TQSIZE && |mem| == AREA && |accepted| <= |frags|
  {
    forall k :: sent <= k < |accepted| ==> Holds(tq, mem, frags[k], accepted[k], k)
  }

  lemma FragInArea(frags: seq<Frag>, k: nat)
    requires Handed(frags) && k < |frags|
    ensures Start(frags[k]) + frags[k].size <= AREA
  {
    InPage(frags, k);
  }

  /** Writing a packet into a newly handed out fragment disturbs nothing in flight. */
  lemma WriteKeeps(tq: seq<Desc>, mem: seq<byte>, mem': seq<byte>, frags: seq<Frag>, accepted: seq<seq<byte>>,
                   sent: nat, n: nat)
    requires |tq| == TQSIZE && |mem| == |mem'| == AREA && Handed(frags) && |frags| == |accepted| + 1
    requires sent <= |accepted| <= sent + 254 && n <= frags[|accepted|].size
    requires InFlight(tq, mem, frags, accepted, sent)
    requires forall x :: 0 <= x < AREA && !(Start(frags[|accepted|]) <= x < Start(frags[|accepted|]) + n) ==>
              mem'[x] == mem[x]
    ensures InFlight(tq, mem', frags, accepted, sent)
  {
    hide Start, Handed;
    var new_ := |accepted|;
    forall k | sent <= k < |accepted| ensures Holds(tq, mem', frags[k], accepted[k], k) {
      RecentApart(frags, k, new_);
      assert Holds(tq, mem, frags[k], accepted[k], k);
      var a, l := Start(frags[k]), |accepted[k]|;
      forall x | a <= x < a + l ensures mem'[x] == mem[x] {
      }
      assert mem'[a..a + l] == mem[a..a + l];
    }
  }

  /** Writing the descriptor at the tail disturbs nothing in flight. */
  lemma DescKeeps(tq: seq<Desc>, d: Desc, mem: seq<byte>, frags: seq<Frag>, accepted: seq<seq<byte>>, sent: nat)
    requires |tq| == TQSIZE && |mem| == AREA && |accepted| <= |frags| && sent <= |accepted| <= sent + 254
    requires InFlight(tq, mem, frags, accepted, sent)
    ensures InFlight(tq[Slot(|accepted|) := d], mem, frags, accepted, sent)
  {
    hide Slot, Start;
    forall k | sent <= k < |accepted| ensures Holds(tq[Slot(|accepted|) := d], mem, frags[k], accepted[k], k) {
      assert Holds(tq, mem, frags[k], accepted[k], k);
      SlotsDiffer(k, |accepted|);
    }
  }

  lemma InFlightNext(tq: seq<Desc>, mem: seq<byte>, frags: seq<Frag>, accepted: seq<seq<byte>>, packet: seq<byte>,
                     sent: nat)
    requires |tq| == TQSIZE && |mem| == AREA && |accepted| < |frags| && InFlight(tq, mem, frags, accepted, sent)
    requires Holds(tq, mem, frags[|accepted|], packet, |accepted|)
    ensures InFlight(tq, mem, frags, accepted + [packet], sent)
  {
    hide Holds;
  }

  /** How many packets are on the wire after n device steps, when so many are handed to the device. */
  ghost function Sent(wire: nat, n: nat, accepted: nat): nat {
    if wire + n <= accepted then wire + n else accepted
  }

  class Transmit {
    const tq: array<Desc>
    const pages: array<byte>
    var pageId: nat
    var pageOffset: nat
    var tdt: nat
    var tdtReal: nat
    var tdh: nat

    // the device: its registers and what it has put on the wire
    var regTDT: nat
    var regTDH: nat
    var wire: seq<seq<byte>>

    // what send has accepted, the fragments it used, and when it last read the head register
    ghost var accepted: seq<seq<byte>>
    ghost var frags: seq<Frag>
    ghost var seen: nat

    /** The ring registers count packets modulo the ring size; at most 255 packets are in flight. */
    ghost predicate Ring()
      reads this
    {
      && seen <= |wire| <= |accepted| <= seen + 255
      && regTDH == Slot(|wire|) && tdh == Slot(seen)
      && regTDT == Slot(|accepted|)
      && wire == accepted[..|wire|]
    }

    /** The allocator stands behind the last fragment. */
    ghost predicate Allocator()
      reads this`pageId, this`pageOffset, this`frags
    {
      && Handed(frags)
      && if frags == [] then pageId == 0 && pageOffset == 0
         else var f := frags[|frags| - 1]; pageId == f.page % PAGES && pageOffset == f.offset + f.size
    }

    ghost predicate Shape()
    {
      tq.Length == TQSIZE && pages.Length == AREA
    }

    /** Holds also inside send, when one more fragment has been handed out than packets accepted. */
    ghost predicate Sound()
      reads this, tq, pages
    {
      && Shape() && Ring() && Allocator() && |accepted| <= |frags|
      && InFlight(tq[..], pages[..], frags, accepted, |wire|)
    }

    ghost predicate Valid()
      reads this, tq, pages
    {
      Sound() && |frags| == |accepted| && tdt == tdtReal == regTDT
    }

    constructor ()
      ensures Valid() && accepted == [] && wire == [] && fresh(tq) && fresh(pages)
    {
      tq := new Desc[TQSIZE](_ => Desc(0, 0));
      pages := new byte[AREA](_ => 0);
      pageId, pageOffset, tdt, tdtReal, tdh, regTDT, regTDH := 0, 0, 0, 0, 0, 0, 0;
      wire, accepted, frags, seen := [], [], [], 0;
    }

    /** Up to n device steps. */
    method Device(n: nat)
      requires Sound()
      modifies this`regTDH, this`wire
      ensures Sound() && old(wire) <= wire
      ensures |wire| == Sent(|old(wire)|, n, |accepted|)
    {
      hide Allocator, InFlight, Slot;
      var i := 0;
      while i < n && regTDH != regTDT
        invariant i <= n && Sound() && old(wire) <= wire && |wire| == |old(wire)| + i
      {
        DeviceStep();
        i := i + 1;
      }
      if |wire| < |accepted| {
        SlotsDiffer(|wire|, |accepted|);
      }
    }

    /** The device fetches one descriptor and sends what it points at: the next accepted packet. */
    method DeviceStep()
      requires Sound() && regTDH != regTDT
      modifies this`regTDH, this`wire
      ensures Sound() && |wire| == |old(wire)| + 1 && old(wire) <= wire
    {
      hide Allocator, Start, Slot;
      ghost var k := |wire|;
      SlotNext(k);
      assert k < |accepted| && Holds(tq[..], pages[..], frags[k], accepted[k], k);
      var d := tq[regTDH];
      assert d == tq[..][Slot(k)];
      var data := pages[d.addr..d.addr + d.length];
      assert data == pages[..][d.addr..d.addr + d.length];
      assert accepted[..k + 1] == accepted[..k] + [accepted[k]];
      wire := wire + [data];
      regTDH := (regTDH + 1) % TQSIZE;
    }

    /** tq_frag_alloc: never fails for a frame of at most 1500 bytes. */
    method FragAlloc(cnt: nat) returns (addr: nat)
      requires Shape() && Allocator() && cnt <= MAX_FRAME
      modifies this`pageId, this`pageOffset, this`frags
      ensures Allocator() && |frags| == |old(frags)| + 1 && frags[..|old(frags)|] == old(frags)
      ensures addr == Start(frags[|old(frags)|]) && cnt <= frags[|old(frags)|].size
    {
      hide Rounded;
      var size := Rounded(cnt);
      ghost var n := |frags|;
      if n > 0 {
        InPage(frags, n - 1);
        PageNext(frags[n - 1].page);
      }
      if pageOffset + size <= PAGE_SIZE {
        addr := pageId * PAGE_SIZE + pageOffset;
        frags := frags + [if n == 0 then Frag(0, 0, size) else Frag(frags[n - 1].page, pageOffset, size)];
        pageOffset := pageOffset + size;
      } else {
        pageId := (pageId + 1) % PAGES;
        addr := pageId * PAGE_SIZE;
        frags := frags + [Frag(frags[n - 1].page + 1, 0, size)];
        pageOffset := size;
      }
    }

    /** memcpy of a packet into the fragment just handed out. */
    method Copy(packet: seq<byte>, addr: nat)
      requires Sound() && |frags| == |accepted| + 1 && |accepted| - seen <= 254
      requires addr == Start(frags[|accepted|]) && |packet| <= frags[|accepted|].size
      modifies pages
      ensures Sound() && addr + |packet| <= AREA && pages[addr..addr + |packet|] == packet
    {
      hide Start;
      FragInArea(frags, |accepted|);
      ghost var before := pages[..];
      forall x | 0 <= x < |packet| {
        pages[addr + x] := packet[x];
      }
      WriteKeeps(tq[..], before, pages[..], frags, accepted, |wire|, |packet|);
    }

    /** send, with device steps let in between its actions: d0 before the head register is read, d1
        after, d2 between the copy and the descriptor, d3 before the tail register is written. */
    method Send(buf: seq<byte>, cnt: int, d0: nat, d1: nat, d2: nat, d3: nat) returns (ok: bool)
      requires Valid() && (0 <= cnt ==> cnt <= |buf|)
      modifies this, tq, pages
      ensures Valid() && old(wire) <= wire <= accepted
      ensures ok ==> 0 <= cnt && accepted == old(accepted) + [buf[..cnt]]
      ensures !ok ==> accepted == old(accepted)
      ensures ok <==> 0 <= cnt <= 1500 && |old(accepted)| - seen <= 254
      ensures |wire| == Sent(|old(wire)|, if ok then d0 + d1 + d2 + d3 else if 0 <= cnt <= 1500 then d0 + d1 else 0,
                             |old(accepted)|)
      ensures !ok && 0 <= cnt <= 1500 ==> |old(wire)| <= seen && |accepted| - seen == 255
    {
      hide Allocator, InFlight, Slot;
      if cnt < 0 || cnt > MAX_FRAME {
        return false;
      }
      Device(d0);
      FullTest(|accepted|, seen);
      if (tdt + 1) % TQSIZE == tdh {
        seen := |wire|;
        tdh := regTDH;
      }
      Device(d1);
      FullTest(|accepted|, seen);
      if (tdt + 1) % TQSIZE == tdh {
        return false;
      }
      Publish(buf[..cnt], d2, d3);
      ok := true;
    }

    /** Put one packet in place and move the tail register over it. */
    method Publish(packet: seq<byte>, d2: nat, d3: nat)
      requires Valid() && |packet| <= MAX_FRAME && |accepted| - seen <= 254
      modifies this, tq, pages
      ensures Valid() && old(wire) <= wire
      ensures accepted == old(accepted) + [packet] && seen == old(seen)
      ensures |wire| == Sent(|old(wire)|, d2 + d3, |old(accepted)|)
    {
      hide Allocator, Start, Slot, InFlight, Holds;
      Place(packet, d2);
      SlotNext(|accepted|);
      tdt := (tdt + 1) % TQSIZE;
      Device(d3);
      if tdt % 32 == 0 {
        regTDT := tdt;
        tdtReal := tdt;
      }
      Flush();
      SlotsDiffer(|accepted|, |accepted| + 1);
      InFlightNext(tq[..], pages[..], frags, accepted, packet, |wire|);
      accepted := accepted + [packet];
    }

    /** Copy the packet to a new fragment and describe it in the slot at the tail. */
    method Place(packet: seq<byte>, d2: nat)
      requires Valid() && |packet| <= MAX_FRAME && |accepted| - seen <= 254
      modifies this`pageId, this`pageOffset, this`frags, this`regTDH, this`wire, tq, pages
      ensures Sound() && old(wire) <= wire
      ensures |frags| == |accepted| + 1 && Holds(tq[..], pages[..], frags[|accepted|], packet, |accepted|)
      ensures |wire| == Sent(|old(wire)|, d2, |accepted|)
    {
      hide Allocator, Start, Slot;
      ghost var frags0 := frags;
      var addr := FragAlloc(|packet|);
      assert forall k :: 0 <= k < |frags0| ==> frags[k] == frags0[k];
      Copy(packet, addr);
      Device(d2);
      DescKeeps(tq[..], Desc(addr, |packet|), pages[..], frags, accepted, |wire|);
      ghost var before := tq[..];
      tq[tdt] := Desc(addr, |packet|);
      assert tq[..] == before[Slot(|accepted|) := Desc(addr, |packet|)];
      assert pages[..][addr..addr + |packet|] == pages[addr..addr + |packet|];
    }

    method Flush()
      modifies this`regTDT, this`tdtReal
      ensures tdt == tdtReal && regTDT == if old(tdt) != old(tdtReal) then tdt else old(regTDT)
      ensures old(tdtReal) == old(regTDT) ==> regTDT == tdt
    {
      if tdt != tdtReal {
        regTDT := tdt;
        tdtReal := tdt;
      }
    }
  }
}
