/** The heap of core/mem.c: block headers and user data in one byte array, and lfree, the lowest
    free block.  Pointers into the heap are offsets from ram.  A failing LWIP_ASSERT aborts. */
module LwipHeap {
  import opened Machine
  import opened HeapHeaders
  import opened HeapBlocks
  import opened HeapSpec
  import opened HeapLaws

  const MEM_ALIGNMENT: nat := 1

  datatype Pointer = Null | At(addr: int)

  /** LWIP_MEM_ALIGN_SIZE and the minimum block size, in the 32 bits of mem_size_t. */
  function RoundedSize(sizeIn: nat): nat {
    var size := (sizeIn + MEM_ALIGNMENT - 1) % TWO32 / MEM_ALIGNMENT * MEM_ALIGNMENT;
    if size < MIN_SIZE then MIN_SIZE else size
  }

  lemma RoundedIs(sizeIn: nat)
    requires sizeIn < TWO32
    ensures RoundedSize(sizeIn) == if sizeIn < 12 then 12 else sizeIn
  {
  }

  /** Block j is free and has n bytes behind its header. */
  ghost predicate Holds(bl: seq<Block>, j: nat, n: nat)
    requires j < |bl| - 1
  {
    !bl[j].used && bl[j].start + 12 + n <= bl[j + 1].start
  }

  lemma HoldsIff(bl: seq<Block>, n: nat)
    requires Tiled(bl)
    ensures forall j :: 0 <= j < |bl| - 1 ==> (Holds(bl, j, n) <==> Suits(bl, j, n))
    ensures n > MEM_SIZE ==> forall j :: 0 <= j < |bl| - 1 ==> !Holds(bl, j, n)
  {
    forall j | 0 <= j < |bl| - 1 && n > MEM_SIZE ensures !Holds(bl, j, n) {
      EndsInHeap(bl, j + 1);
    }
  }

  /** The block that an allocation makes of block i. */
  lemma AllocatedBlock(bl: seq<Block>, i: nat, size: nat)
    requires Tiled(bl) && i < |bl| - 1 && Suits(bl, i, size) && size >= 12
    ensures var bl' := Allocated(bl, i, size);
            && i < |bl'| - 1 && bl'[i] == Block(bl[i].start, true)
            && size <= bl'[i + 1].start - (bl[i].start + 12) < size + 24
  {
  }

  /** The block that a trim makes of block i. */
  lemma TrimmedBlock(bl: seq<Block>, i: nat, n: nat)
    requires Tiled(bl) && i < |bl| - 1 && bl[i].used && 12 <= n <= UserSize(bl, i)
    ensures var bl' := Trimmed(bl, i, n);
            && i < |bl'| - 1 && bl'[i] == bl[i] && n <= bl'[i + 1].start - (bl[i].start + 12) < n + 24
            && (!bl[i + 1].used ==> bl'[i + 1].start == bl[i].start + 12 + n)
  {
  }

  /** mem_link_valid: the neighbours named by the header at p point back at it. */
  function LinkValid(m: seq<byte>, p: nat): bool
    requires |m| == RAM && p + HDR <= MEM_SIZE
  {
    var h := Hdr(m, p);
    if h.next > MEM_SIZE || h.prev > MEM_SIZE then false
    else if h.prev != p && Hdr(m, h.prev).next != p then false
    else if h.next != MEM_SIZE && Hdr(m, h.next).prev != p then false
    else true
  }

  lemma BlockLinkValid(m: seq<byte>, bl: seq<Block>, i: nat)
    requires Tiled(bl) && Represents(m, bl) && i < |bl| - 1
    ensures bl[i].start + HDR <= MEM_SIZE && LinkValid(m, bl[i].start)
  {
    hide Hdr;
    StartsApart(bl);
    assert HeaderAt(m, bl, i) && HeaderAt(m, bl, i + 1);
    if i > 0 {
      assert HeaderAt(m, bl, i - 1);
    }
  }

  ghost predicate IsStart(bl: seq<Block>, p: int) {
    exists i :: 0 <= i < |bl| - 1 && bl[i].start == p
  }

  lemma ReadHeader(m: seq<byte>, bl: seq<Block>, i: nat)
    requires Tiled(bl) && Represents(m, bl) && i < |bl| - 1
    ensures bl[i].start + HDR + MIN_SIZE <= bl[i + 1].start <= MEM_SIZE
    ensures Hdr(m, bl[i].start) == Expected(bl, i)
  {
    EndsInHeap(bl, i + 1);
    assert HeaderAt(m, bl, i);
  }

  /** Three field writes make a header. */
  lemma ThreeWrites(m: seq<byte>, p: nat, h: Header)
    requires p + 9 <= |m| && Fits(h)
    ensures var m1 := PutHdr(m, p, Hdr(m, p).(used := h.used));
            var m2 := PutHdr(m1, p, Hdr(m1, p).(next := h.next));
            PutHdr(m2, p, Hdr(m2, p).(prev := h.prev)) == PutHdr(m, p, h)
  {
    hide Hdr, PutHdr;
    var h1 := Hdr(m, p).(used := h.used);
    var m1 := PutHdr(m, p, h1);
    HdrSame(m, p, h1);
    var h2 := h1.(next := h.next);
    PutTwice(m, p, h1, h2);
    HdrSame(m, p, h2);
    PutTwice(m, p, h2, h);
  }

  lemma TwoWrites(m: seq<byte>, p: nat, next: nat, used: nat)
    requires p + 9 <= |m| && next < TWO32 && used < 256
    ensures var m1 := PutHdr(m, p, Hdr(m, p).(next := next));
            PutHdr(m1, p, Hdr(m1, p).(used := used)) == PutHdr(m, p, Header(next, Hdr(m, p).prev, used))
  {
    hide Hdr, PutHdr;
    var h1 := Hdr(m, p).(next := next);
    HdrSame(m, p, h1);
    PutTwice(m, p, h1, h1.(used := used));
  }

  /** lfree, when the block `from` is absorbed by the block `to`. */
  function Redirected(lfree: nat, from: nat, to: nat): nat {
    if lfree == from then to else lfree
  }

  class Heap {
    const ram: array<byte>
    var lfree: nat
    ghost var blocks: seq<Block>

    ghost predicate Valid()
      reads this, ram
    {
      ram.Length == RAM && HeapOk(ram[..], lfree, blocks)
    }

    function Mem(p: nat): Header
      requires p + HDR <= ram.Length
      reads ram
    {
      Hdr(ram[..], p)
    }

    method SetNext(p: nat, v: nat)
      requires p + HDR <= ram.Length
      modifies ram
      ensures ram[..] == PutHdr(old(ram[..]), p, old(Mem(p)).(next := v))
    {
      PutNext(ram[..], p, v);
      ghost var m := ram[..];
      ram[p], ram[p + 1], ram[p + 2], ram[p + 3] := Byte(v), Byte(v / 0x100), Byte(v / 0x1_0000), Byte(v / 0x100_0000);
      assert ram[..p] == m[..p] && ram[p..p + 4] == Enc32(v) && ram[p + 4..] == m[p + 4..];
      assert ram[..] == ram[..p] + ram[p..p + 4] + ram[p + 4..];
    }

    method SetPrev(p: nat, v: nat)
      requires p + HDR <= ram.Length
      modifies ram
      ensures ram[..] == PutHdr(old(ram[..]), p, old(Mem(p)).(prev := v))
    {
      PutPrev(ram[..], p, v);
      ghost var m := ram[..];
      ram[p + 4], ram[p + 5] := Byte(v), Byte(v / 0x100);
      ram[p + 6], ram[p + 7] := Byte(v / 0x1_0000), Byte(v / 0x100_0000);
      assert ram[..p + 4] == m[..p + 4] && ram[p + 4..p + 8] == Enc32(v) && ram[p + 8..] == m[p + 8..];
      assert ram[..] == ram[..p + 4] + ram[p + 4..p + 8] + ram[p + 8..];
    }

    method SetUsed(p: nat, v: nat)
      requires p + HDR <= ram.Length
      modifies ram
      ensures ram[..] == PutHdr(old(ram[..]), p, old(Mem(p)).(used := v))
    {
      PutUsed(ram[..], p, v);
      ram[p + 8] := Byte(v);
    }

    /** Write a new free block header at p2 between p and next, and the links to it. */
    method LinkIn(p: nat, p2: nat, next: nat, markUsed: bool)
      requires ram.Length == RAM && next + HDR <= RAM && p + HDR <= p2 && p2 + HDR <= RAM
      modifies ram
      ensures var m := old(ram[..]);
        ram[..] == Rewritten(m, p2, Header(next, p, 0), p,
                             Header(p2, Hdr(m, p).prev, if markUsed then 1 else Hdr(m, p).used), next, p2)
    {
      hide Hdr, PutHdr;
      ghost var m := ram[..];
      WriteHeader(p2, next, p, 0);
      ghost var m1 := ram[..];
      HdrOther(m, p2, Header(next, p, 0), p);
      HdrSame(m, p2, Header(next, p, 0));
      TwoWrites(m1, p, p2, if markUsed then 1 else Hdr(m, p).used);
      SetNext(p, p2);
      if markUsed {
        SetUsed(p, 1);
      }
      if next != MEM_SIZE {
        SetPrev(next, p2);
      }
    }

    constructor ()
      ensures ram.Length == RAM && fresh(ram)
    {
      ram := new byte[RAM](_ => 0);
      lfree := 0;
      blocks := [];
    }

    /** mem_init: one free block and the end marker. */
    method Init()
      requires ram.Length == RAM
      modifies this, ram
      ensures Valid() && blocks == [Block(0, false), Block(0x10_0000, true)]
    {
      hide Hdr, PutHdr;
      ghost var m, first, end := ram[..], Header(MEM_SIZE, 0, 0), Header(MEM_SIZE, MEM_SIZE, 1);
      WriteHeader(0, MEM_SIZE, 0, 0);
      WriteHeader(MEM_SIZE, MEM_SIZE, MEM_SIZE, 1);
      lfree := 0;
      blocks := [Block(0, false), Block(MEM_SIZE, true)];
      HdrSame(m, 0, first);
      HdrOther(PutHdr(m, 0, first), MEM_SIZE, end, 0);
      HdrSame(PutHdr(m, 0, first), MEM_SIZE, end);
      assert HeaderAt(ram[..], blocks, 0) && HeaderAt(ram[..], blocks, 1);
    }

    method WriteHeader(p: nat, next: nat, prev: nat, used: nat)
      requires p + HDR <= ram.Length && next < TWO32 && prev < TWO32 && used < 256
      modifies ram
      ensures ram[..] == PutHdr(old(ram[..]), p, Header(next, prev, used))
    {
      hide Hdr, PutHdr;
      ThreeWrites(ram[..], p, Header(next, prev, used));
      SetUsed(p, used);
      SetNext(p, next);
      SetPrev(p, prev);
    }

    /** The search of mem_malloc, from the lowest free block up. */
    method FindFit(size: nat) returns (found: bool, ptr: nat, ghost i: nat)
      requires Valid() && MIN_SIZE <= size <= MEM_SIZE
      ensures i < |blocks|
      ensures found ==> i < |blocks| - 1 && ptr == blocks[i].start && Suits(blocks, i, size)
      ensures forall j :: 0 <= j < |blocks| - 1 && (found ==> j < i) ==> !Suits(blocks, j, size)
    {
      hide Hdr, Represents, NoAdjacentFree;
      found := false;
      ptr, i := lfree, FirstFree(blocks, 0);
      EndsInHeap(blocks, i);
      while ptr < MEM_SIZE - size
        invariant 0 <= i < |blocks| && ptr == blocks[i].start
        invariant forall j :: 0 <= j < i ==> !Suits(blocks, j, size)
        decreases |blocks| - i
      {
        ReadHeader(ram[..], blocks, i);
        var h := Mem(ptr);
        if h.used == 0 && h.next - (ptr + HDR) >= size {
          return true, ptr, i;
        }
        ptr, i := h.next, i + 1;
      }
      NoneBehind(blocks, i, size);
    }

    /** Take block i for a request: split off what is not needed, or take it whole. */
    method TakeBlock(ptr: nat, size: nat, ghost i: nat)
      requires Valid() && MIN_SIZE <= size && i < |blocks| - 1 && ptr == blocks[i].start && Suits(blocks, i, size)
      modifies ram
      ensures ram[..] == AllocatedMem(old(ram[..]), blocks, i, size)
    {
      hide Hdr, PutHdr, Rewritten;
      ReadHeader(ram[..], blocks, i);
      var h := Mem(ptr);
      if h.next - (ptr + HDR) >= size + HDR + MIN_SIZE {
        var ptr2 := ptr + HDR + size;
        LinkIn(ptr, ptr2, h.next, true);
      } else {
        SetUsed(ptr, 1);
      }
    }

    /** The lowest free block from cur on. */
    method NextFree(start: nat, ghost bl: seq<Block>, ghost i: nat) returns (cur: nat)
      requires ram.Length == RAM && Tiled(bl) && Represents(ram[..], bl) && i < |bl| - 1 && start == bl[i].start
      ensures cur == bl[FirstFree(bl, i)].start
    {
      hide Hdr;
      cur := start;
      ghost var k := i;
      EndsInHeap(bl, k);
      ReadHeader(ram[..], bl, k);
      while Mem(cur).used != 0 && cur != MEM_SIZE
        invariant i <= k < |bl| && cur == bl[k].start && cur + HDR <= RAM
        invariant HeaderAt(ram[..], bl, k)
        invariant FirstFree(bl, i) == FirstFree(bl, k)
        decreases |bl| - k
      {
        EndsInHeap(bl, k + 1);
        assert HeaderAt(ram[..], bl, k + 1);
        cur := Mem(cur).next;
        k := k + 1;
      }
      EndsInHeap(bl, k);
    }

    /** mem_malloc: the lowest free block that is large enough, or null when there is none. */
    method Malloc(sizeIn: nat) returns (r: Pointer, ghost i: nat)
      requires Valid() && sizeIn < TWO32
      modifies this, ram
      ensures Valid()
      ensures r.Null? ==> blocks == old(blocks) && ram[..] == old(ram[..]) && lfree == old(lfree)
      ensures r.Null? <==> sizeIn == 0 || RoundedSize(sizeIn) > MEM_SIZE ||
                           forall j :: 0 <= j < |old(blocks)| - 1 ==> !Suits(old(blocks), j, RoundedSize(sizeIn))
      ensures r.At? ==>
        && i < |old(blocks)| - 1 && r.addr == old(blocks)[i].start + HDR && r.addr % MEM_ALIGNMENT == 0
        && Suits(old(blocks), i, RoundedSize(sizeIn))
        && (forall j :: 0 <= j < i ==> !Suits(old(blocks), j, RoundedSize(sizeIn)))
        && blocks == Allocated(old(blocks), i, RoundedSize(sizeIn))
        && SameUserData(old(ram[..]), ram[..], blocks)
        && TakesArea(old(blocks), blocks, i, RoundedSize(sizeIn))
      ensures
        var n, bl := (if sizeIn < 12 then 12 else sizeIn), old(blocks);
        if sizeIn == 0 || forall j :: 0 <= j < |bl| - 1 ==> !Holds(bl, j, n) then r.Null?
        else
          && r.At? && i < |bl| - 1 && r.addr == bl[i].start + 12
          && Holds(bl, i, n) && (forall j :: 0 <= j < i ==> !Holds(bl, j, n))
          && i < |blocks| - 1 && blocks[i] == Block(bl[i].start, true)
          && n <= blocks[i + 1].start - r.addr < n + 24
    {
      hide Represents, SameUserData, Suits, Allocated, AllocatedMem, NoAdjacentFree, TakesArea, Holds;
      RoundedIs(sizeIn);
      HoldsIff(blocks, RoundedSize(sizeIn));
      i := 0;
      if sizeIn == 0 {
        return Null, 0;
      }
      var size := RoundedSize(sizeIn);
      if size > MEM_SIZE || size < sizeIn {
        return Null, 0;
      }
      var found, ptr;
      found, ptr, i := FindFit(size);
      if !found {
        return Null, i;
      }
      ghost var bl := blocks;
      AllocatedOk(ram[..], bl, i, size);
      AllocatedFirst(bl, i, size);
      AllocatedLive(bl, i, size);
      AllocatedBlock(bl, i, size);
      TakeBlock(ptr, size, i);
      blocks := Allocated(bl, i, size);
      StartsApart(bl);
      if ptr == lfree {
        lfree := NextFree(lfree, blocks, i);
      }
      r := At(ptr + HDR);
    }

    /** plug_holes: join the free block i with a free block behind it and one before it. */
    method PlugHoles(p: nat, ghost i: nat, ghost m0: seq<byte>)
      requires ram.Length == RAM && HoleAt(blocks, i) && Represents(ram[..], blocks) && p == blocks[i].start
      requires lfree == blocks[FirstFree(blocks, 0)].start && SameUserData(m0, ram[..], blocks)
      modifies this, ram
      ensures blocks == PluggedBackward(PluggedForward(old(blocks), i), i)
      ensures Valid() && SameUserData(m0, ram[..], blocks)
    {
      hide Hdr, PutHdr, Relink, SameUserData;
      ForwardHole(blocks, i);
      BackwardHole(PluggedForward(blocks, i), i);
      JoinForward(p, i, m0);
      JoinBackward(p, i, m0);
    }

    method JoinForward(p: nat, ghost i: nat, ghost m0: seq<byte>)
      requires ram.Length == RAM && HoleAt(blocks, i) && Represents(ram[..], blocks) && p == blocks[i].start
      requires lfree == blocks[FirstFree(blocks, 0)].start && SameUserData(m0, ram[..], blocks)
      modifies this, ram
      ensures blocks == PluggedForward(old(blocks), i) && lfree == old(lfree)
      ensures Represents(ram[..], blocks) && SameUserData(m0, ram[..], blocks)
    {
      hide Hdr, PutHdr, Relink, SameUserData;
      ForwardHole(blocks, i);
      StartsApart(blocks);
      ReadHeader(ram[..], blocks, i);
      var nmem := Mem(p).next;
      EndsInHeap(blocks, i + 1);
      assert HeaderAt(ram[..], blocks, i + 1);
      if p != nmem && Mem(nmem).used == 0 && nmem != MEM_SIZE {
        JoinStep(m0, ram[..], blocks, i);
        lfree := Redirected(lfree, nmem, p);
        Absorb(p, Mem(nmem).next, i);
        blocks := Joined(blocks, i);
      }
    }

    /** Let the block at p reach up to `next`, and link that one back. */
    method Absorb(p: nat, next: nat, ghost i: nat)
      requires ram.Length == RAM && Tiled(blocks) && Represents(ram[..], blocks) && i + 2 < |blocks|
      requires p == blocks[i].start && next == blocks[i + 2].start
      modifies ram
      ensures ram[..] == JoinedMem(old(ram[..]), blocks, i)
    {
      hide Hdr, PutHdr;
      assert HeaderAt(ram[..], blocks, i) && HeaderAt(ram[..], blocks, i + 2);
      SetNext(p, next);
      if next != MEM_SIZE {
        SetPrev(next, p);
      }
    }

    method JoinBackward(p: nat, ghost i: nat, ghost m0: seq<byte>)
      requires ram.Length == RAM && HoleAt(blocks, i) && Represents(ram[..], blocks) && p == blocks[i].start
      requires lfree == blocks[FirstFree(blocks, 0)].start && SameUserData(m0, ram[..], blocks)
      modifies this, ram
      ensures blocks == PluggedBackward(old(blocks), i) && lfree == old(lfree)
      ensures Represents(ram[..], blocks) && SameUserData(m0, ram[..], blocks)
    {
      hide Hdr, PutHdr, Relink, SameUserData;
      StartsApart(blocks);
      ReadHeader(ram[..], blocks, i);
      if i > 0 {
        ReadHeader(ram[..], blocks, i - 1);
      }
      var pmem := Mem(p).prev;
      if pmem != p && Mem(pmem).used == 0 {
        JoinStep(m0, ram[..], blocks, i - 1);
        lfree := Redirected(lfree, p, pmem);
        Absorb(pmem, Mem(p).next, i - 1);
        blocks := Joined(blocks, i - 1);
      }
    }

    /** What mem_free may be given: null, an address it rejects by its range, the user pointer of a
        block, or anything whose supposed header is free or badly linked. */
    ghost predicate Freeable(rmem: Pointer)
      requires ram.Length == RAM
      reads this, ram
    {
      rmem.At? && HDR <= rmem.addr && rmem.addr + MIN_SIZE <= MEM_SIZE ==>
        var p := rmem.addr - HDR;
        var h := Mem(p);
        || IsStart(blocks, p) || h.used == 0 || h.next > MEM_SIZE || h.prev > MEM_SIZE
        || (h.prev != p && Mem(h.prev).next != p) || (h.next != MEM_SIZE && Mem(h.next).prev != p)
    }

    /** mem_free: a block in use becomes free and is joined with free neighbours; null is ignored and
        anything else fails an assertion before anything changes. */
    method Free(rmem: Pointer, ghost i: nat) returns (r: FreeResult)
      requires Valid() && Freeable(rmem)
      requires rmem.At? && IsStart(blocks, rmem.addr - HDR) ==> i < |blocks| - 1 && blocks[i].start == rmem.addr - HDR
      modifies this, ram
      ensures Valid()
      ensures r == Ignored <==> rmem.Null?
      ensures r == Freed <==> rmem.At? && IsStart(old(blocks), rmem.addr - HDR) && old(blocks)[i].used
      ensures if r == Freed
              then && blocks == Released(old(blocks), i) && SameUserData(old(ram[..]), ram[..], blocks)
                   && Live(blocks) == Live(old(blocks)) - {Area(old(blocks), i)}
              else blocks == old(blocks) && lfree == old(lfree) && ram[..] == old(ram[..])
    {
      hide Hdr, SameUserData, NoAdjacentFree, Live, Released;
      if rmem.Null? {
        return Ignored;
      }
      StartsApart(blocks);
      if rmem.addr % MEM_ALIGNMENT != 0 {
        return IllegalFree;
      }
      var p := rmem.addr - HDR;
      if IsStart(blocks, p) {
        ReadHeader(ram[..], blocks, i);
        BlockLinkValid(ram[..], blocks, i);
      }
      if p < 0 || rmem.addr + MIN_SIZE > MEM_SIZE {
        return IllegalFree;
      }
      if Mem(p).used == 0 {
        return IllegalFree;
      }
      if !LinkValid(ram[..], p) {
        return IllegalFree;
      }
      ReleasedLive(blocks, i);
      Release(p, i);
      r := Freed;
    }

    method Release(p: nat, ghost i: nat)
      requires Valid() && i < |blocks| - 1 && p == blocks[i].start
      modifies this, ram
      ensures Valid() && blocks == Released(old(blocks), i) && SameUserData(old(ram[..]), ram[..], blocks)
    {
      hide Hdr, PutHdr, SameUserData;
      ghost var m0, bl := ram[..], blocks;
      ReadHeader(m0, bl, i);
      MarkedRepresents(m0, bl, i, false);
      MarkedData(m0, bl, i, false);
      MarkedHole(bl, i);
      StartsApart(bl);
      SetUsed(p, 0);
      if p < lfree {
        lfree := p;
      }
      blocks := Marked(bl, i, false);
      PlugHoles(p, i, m0);
    }

    /** mem_trim.  It aborts where an LWIP_ASSERT fails. */
    method Trim(rmem: int, newSizeIn: nat, ghost i: nat) returns (r: TrimResult)
      requires Valid() && newSizeIn < TWO32
      requires 0 <= rmem < MEM_SIZE ==> i < |blocks| - 1 && blocks[i].used && rmem == blocks[i].start + HDR
      modifies this, ram
      ensures Valid()
      ensures r == TrimOutcome(old(blocks), rmem, i, RoundedSize(newSizeIn))
      ensures r.TrimmedTo? <==>
                && 0 <= rmem < MEM_SIZE && RoundedSize(newSizeIn) <= UserSize(old(blocks), i)
                && (old(blocks)[i + 1].start != MEM_SIZE ||
                    RoundedSize(newSizeIn) + HDR + MIN_SIZE > UserSize(old(blocks), i))
      ensures if r.TrimmedTo?
              then && 0 <= rmem < MEM_SIZE && blocks == Trimmed(old(blocks), i, RoundedSize(newSizeIn))
                   && SameUserData(old(ram[..]), ram[..], blocks) && i < |blocks| - 1
                   && Live(blocks) == Live(old(blocks)) - {Area(old(blocks), i)} + {Area(blocks, i)}
              else blocks == old(blocks) && ram[..] == old(ram[..]) && lfree == old(lfree)
      ensures
        var n, bl := (if newSizeIn < 12 then 12 else newSizeIn), old(blocks);
        match r
        case NoMemory => n > 0x10_0000
        case Aborted =>
          && n <= 0x10_0000
          && (!(0 <= rmem < 0x10_0000) || rmem + n > bl[i + 1].start
              || (bl[i + 1].start == 0x10_0000 && rmem + n + 24 <= bl[i + 1].start))
        case TrimmedTo =>
          && 0 <= rmem < 0x10_0000 && i < |blocks| - 1 && blocks[i] == bl[i]
          && rmem + n <= blocks[i + 1].start < rmem + n + 24
          && (!bl[i + 1].used ==> blocks[i + 1].start == rmem + n)
    {
      hide Hdr, PutHdr, Represents, NoAdjacentFree, SameUserData, Live, Trimmed;
      RoundedIs(newSizeIn);
      SameData(ram[..], blocks);
      if 0 <= rmem < MEM_SIZE {
        EndsInHeap(blocks, i + 1);
      }
      var newSize := RoundedSize(newSizeIn);
      if newSize > MEM_SIZE || newSize < newSizeIn {
        return NoMemory;
      }
      if !(0 <= rmem < MEM_SIZE) {
        return Aborted;
      }
      var ptr := rmem - HDR;
      ReadHeader(ram[..], blocks, i);
      var size := Mem(ptr).next - ptr - HDR;
      if newSize > size {
        return Aborted;
      }
      TrimmedLive(blocks, i, newSize);
      TrimmedBlock(blocks, i, newSize);
      if newSize == size {
        TrimmedSame(blocks, i);
        return TrimmedTo;
      }
      r := Shrink(ptr, newSize, size, i);
    }

    /** A smaller block in use: what follows is moved down, or a new free block is cut off if one fits. */
    method Shrink(ptr: nat, newSize: nat, size: nat, ghost i: nat) returns (r: TrimResult)
      requires Valid() && i < |blocks| - 1 && blocks[i].used && ptr == blocks[i].start
      requires MIN_SIZE <= newSize < size == UserSize(blocks, i)
      modifies this, ram
      ensures Valid()
      ensures r == if AtEnd(old(blocks), i) && newSize + HDR + MIN_SIZE <= size then Aborted else TrimmedTo
      ensures r.TrimmedTo? ==> blocks == Trimmed(old(blocks), i, newSize) && SameUserData(old(ram[..]), ram[..], blocks)
      ensures r.Aborted? ==> blocks == old(blocks) && ram[..] == old(ram[..]) && lfree == old(lfree)
    {
      hide Hdr, PutHdr, Represents, NoAdjacentFree, SameUserData, Moved, Cut;
      SameData(ram[..], blocks);
      ReadHeader(ram[..], blocks, i);
      BlockHeader(ram[..], blocks, i + 1);
      EndsInHeap(blocks, i + 1);
      var mem2 := Mem(ptr).next;
      if Mem(mem2).used == 0 {
        MoveNext(ptr, mem2, ptr + HDR + newSize, i);
        r := TrimmedTo;
      } else if newSize + HDR + MIN_SIZE <= size {
        if mem2 == MEM_SIZE {
          return Aborted;
        }
        CutOff(ptr, mem2, ptr + HDR + newSize, i);
        r := TrimmedTo;
      } else {
        r := TrimmedTo;
      }
    }

    /** The free block behind block i now starts at ptr2. */
    method MoveNext(ptr: nat, mem2: nat, ptr2: nat, ghost i: nat)
      requires Valid() && i < |blocks| - 1 && blocks[i].used && !blocks[i + 1].used
      requires ptr == blocks[i].start && mem2 == blocks[i + 1].start && ptr + HDR + MIN_SIZE <= ptr2 <= mem2
      modifies this, ram
      ensures Valid() && blocks == Moved(old(blocks), i, ptr2) && SameUserData(old(ram[..]), ram[..], blocks)
    {
      hide Hdr, PutHdr, Rewritten, Represents, NoAdjacentFree, SameUserData;
      ghost var bl, m := blocks, ram[..];
      MovedOk(m, bl, i, ptr2);
      StartsApart(bl);
      BlockHeader(m, bl, i + 1);
      var next := Mem(mem2).next;
      BlockHeader(m, bl, i + 2);
      LinkInIsMoved(m, bl, i, ptr2);
      if lfree == mem2 {
        lfree := ptr2;
      }
      LinkIn(ptr, ptr2, next, false);
      blocks := Moved(bl, i, ptr2);
    }

    /** A new free block at ptr2, between block i and a block in use. */
    method CutOff(ptr: nat, mem2: nat, ptr2: nat, ghost i: nat)
      requires Valid() && i < |blocks| - 2 && blocks[i].used && blocks[i + 1].used
      requires ptr == blocks[i].start && mem2 == blocks[i + 1].start
      requires ptr + HDR + MIN_SIZE <= ptr2 && ptr2 + HDR + MIN_SIZE <= mem2
      modifies this, ram
      ensures Valid() && blocks == Cut(old(blocks), i, ptr2, true) && SameUserData(old(ram[..]), ram[..], blocks)
    {
      hide Hdr, PutHdr, Rewritten, Represents, NoAdjacentFree, SameUserData;
      ghost var bl, m := blocks, ram[..];
      EndsInHeap(bl, i + 1);
      TrimCutOk(m, bl, i, ptr2);
      if ptr2 < lfree {
        lfree := ptr2;
      }
      LinkInIsCut(m, bl, i, ptr2);
      LinkIn(ptr, ptr2, mem2, false);
      blocks := Cut(bl, i, ptr2, true);
    }
  }

  /** IllegalFree and Aborted are failed assertions. */
  datatype FreeResult = Ignored | IllegalFree | Freed

  datatype TrimResult = Aborted | NoMemory | TrimmedTo

  ghost predicate AtEnd(bl: seq<Block>, i: nat) {
    i + 2 == |bl|
  }

  /** How mem_trim ends: block i is the one that rmem belongs to. */
  ghost function TrimOutcome(bl: seq<Block>, rmem: int, i: nat, newSize: nat): TrimResult
    requires Tiled(bl) && (0 <= rmem < MEM_SIZE ==> i < |bl| - 1)
  {
    if newSize > MEM_SIZE then NoMemory
    else if !(0 <= rmem < MEM_SIZE) || newSize > UserSize(bl, i) then Aborted
    else if AtEnd(bl, i) && newSize + HDR + MIN_SIZE <= UserSize(bl, i) then Aborted
    else TrimmedTo
  }

  /** A block that starts this near the end cannot hold the size, nor can any behind it. */
  lemma NoneBehind(bl: seq<Block>, i: nat, size: nat)
    requires Tiled(bl) && i < |bl| && bl[i].start >= MEM_SIZE - size
    ensures forall j :: i <= j < |bl| - 1 ==> !Suits(bl, j, size)
  {
    StartsApart(bl);
    forall j | i <= j < |bl| - 1 ensures !Suits(bl, j, size) {
      EndsInHeap(bl, j + 1);
    }
  }

  lemma TrimmedSame(bl: seq<Block>, i: nat)
    requires Tiled(bl) && i < |bl| - 1
    ensures Trimmed(bl, i, UserSize(bl, i)) == bl
  {
  }

  /** The failing case is reachable: allocate the whole fresh heap, then shrink it. */
  lemma TrimOfWholeHeapAborts(newSize: nat)
    requires MIN_SIZE <= newSize <= MEM_SIZE - 2 * HDR - MIN_SIZE
    ensures var empty := [Block(0, false), Block(MEM_SIZE, true)];
            && Tiled(empty) && Suits(empty, 0, MEM_SIZE - HDR)
            && var bl := Allocated(empty, 0, MEM_SIZE - HDR);
               Tiled(bl) && newSize < UserSize(bl, 0) && TrimOutcome(bl, HDR, 0, newSize) == Aborted
  {
  }

  lemma SameData(m: seq<byte>, bl: seq<Block>)
    requires |m| == RAM && Tiled(bl)
    ensures SameUserData(m, m, bl)
  {
    forall k, x | InUserArea(bl, k, x) ensures x < |m| {
      EndsInHeap(bl, k + 1);
    }
  }

  lemma BlockHeader(m: seq<byte>, bl: seq<Block>, i: nat)
    requires Tiled(bl) && Represents(m, bl) && i < |bl|
    ensures bl[i].start + HDR <= |m| && Hdr(m, bl[i].start) == Expected(bl, i)
  {
    assert HeaderAt(m, bl, i);
  }

  lemma LinkInIsMoved(m: seq<byte>, bl: seq<Block>, i: nat, p2: nat)
    requires Tiled(bl) && Represents(m, bl) && i + 2 < |bl| && p2 + HDR <= |m|
    ensures bl[i].start + HDR <= |m| && bl[i + 2].start + HDR <= |m|
    ensures var p, next := bl[i].start, bl[i + 2].start;
            MovedMem(m, bl, i, p2) ==
            Rewritten(m, p2, Header(next, p, 0), p, Header(p2, Hdr(m, p).prev, Hdr(m, p).used), next, p2)
  {
    hide Rewritten;
    assert HeaderAt(m, bl, i) && HeaderAt(m, bl, i + 2);
  }

  lemma LinkInIsCut(m: seq<byte>, bl: seq<Block>, i: nat, p2: nat)
    requires Tiled(bl) && Represents(m, bl) && i < |bl| - 1 && bl[i].used && p2 + HDR <= |m|
    ensures bl[i].start + HDR <= |m| && bl[i + 1].start + HDR <= |m|
    ensures var p, next := bl[i].start, bl[i + 1].start;
            CutMem(m, bl, i, p2, true) ==
            Rewritten(m, p2, Header(next, p, 0), p, Header(p2, Hdr(m, p).prev, Hdr(m, p).used), next, p2)
  {
    hide Rewritten;
    assert HeaderAt(m, bl, i) && HeaderAt(m, bl, i + 1);
  }
}
