/** mem_malloc, mem_free and mem_trim on the block list, and the invariant they keep. */
module HeapSpec {
  import opened Machine
  import opened HeapHeaders
  import opened HeapBlocks

  // ----- user data

  ghost predicate InUserArea(bl: seq<Block>, k: int, x: int) {
    0 <= k < |bl| - 1 && bl[k].start + HDR <= x < bl[k + 1].start
  }

  /** The bytes of all blocks in use are the same in m and m'. */
  ghost predicate SameUserData(m: seq<byte>, m': seq<byte>, bl: seq<Block>) {
    && |m'| == |m|
    && forall k, x :: InUserArea(bl, k, x) && bl[k].used ==> x < |m| && m'[x] == m[x]
  }

  /** No header overlaps a user area. */
  lemma UserByteNotHeader(bl: seq<Block>, k: nat, x: nat, l: nat)
    requires Tiled(bl) && InUserArea(bl, k, x) && l < |bl|
    ensures x < bl[l].start || bl[l].start + HDR <= x
    ensures x < MEM_SIZE
  {
    StartsApart(bl);
  }

  lemma RelinkBytes(m: seq<byte>, next: nat, prev: nat, x: nat)
    requires next + HDR <= |m| && x < |m| && (x < next || next + HDR <= x)
    ensures Relink(m, next, prev)[x] == m[x]
  {
    hide PutHdr, Hdr;
    if next != MEM_SIZE {
      PutBytes(m, next, Hdr(m, next).(prev := prev), x);
    }
  }

  lemma MarkedData(m: seq<byte>, bl: seq<Block>, i: nat, used: bool)
    requires Tiled(bl) && Represents(m, bl) && i < |bl| - 1 && HeaderAt(m, bl, i)
    ensures SameUserData(m, MarkedMem(m, bl[i].start, used), Marked(bl, i, used))
  {
    hide PutHdr, Hdr;
    var bl' := Marked(bl, i, used);
    forall k, x | InUserArea(bl', k, x) && bl'[k].used ensures x < |m| && MarkedMem(m, bl[i].start, used)[x] == m[x] {
      UserByteNotHeader(bl', k, x, i);
      PutBytes(m, bl[i].start, Hdr(m, bl[i].start).(used := if used then 1 else 0), x);
    }
  }

  lemma RewrittenData(m: seq<byte>, bl': seq<Block>, i: nat, h2: Header, h: Header, b: nat)
    requires |m| == RAM && Tiled(bl') && i + 2 < |bl'|
    ensures bl'[i].start + HDR <= RAM && bl'[i + 1].start + HDR <= RAM && bl'[i + 2].start + HDR <= RAM
    ensures SameUserData(m, Rewritten(m, bl'[i + 1].start, h2, bl'[i].start, h, bl'[i + 2].start, b), bl')
  {
    hide PutHdr, Relink;
    StartsApart(bl');
    var p, p2, next := bl'[i].start, bl'[i + 1].start, bl'[i + 2].start;
    var m1 := PutHdr(m, p2, h2);
    var m2 := PutHdr(m1, p, h);
    forall k, x | InUserArea(bl', k, x) && bl'[k].used ensures x < |m| && Relink(m2, next, b)[x] == m[x] {
      UserByteNotHeader(bl', k, x, i);
      UserByteNotHeader(bl', k, x, i + 1);
      UserByteNotHeader(bl', k, x, i + 2);
      RelinkBytes(m2, next, b, x);
      PutBytes(m1, p, h, x);
      PutBytes(m, p2, h2, x);
    }
  }

  lemma JoinedData(m: seq<byte>, bl: seq<Block>, i: nat)
    requires Tiled(bl) && Represents(m, bl) && i + 2 < |bl|
    ensures SameUserData(m, JoinedMem(m, bl, i), Joined(bl, i))
  {
    hide PutHdr, Hdr, Relink;
    JoinedTiled(bl, i);
    StartsApart(bl);
    var bl', p, next := Joined(bl, i), bl[i].start, bl[i + 2].start;
    var h := Hdr(m, p).(next := next);
    assert bl'[i].start == p && bl'[i + 1].start == next;
    forall k, x | InUserArea(bl', k, x) && bl'[k].used ensures x < |m| && JoinedMem(m, bl, i)[x] == m[x] {
      UserByteNotHeader(bl', k, x, i);
      UserByteNotHeader(bl', k, x, i + 1);
      RelinkBytes(PutHdr(m, p, h), next, p, x);
      PutBytes(m, p, h, x);
    }
  }

  // ----- mem_malloc

  /** The block list after a request of `size` bytes has been served from block i. */
  ghost function Allocated(bl: seq<Block>, i: nat, size: nat): seq<Block>
    requires Tiled(bl) && i < |bl| - 1
  {
    if UserSize(bl, i) >= size + HDR + MIN_SIZE then Cut(bl, i, bl[i].start + HDR + size, true) else Marked(bl, i, true)
  }

  ghost function AllocatedMem(m: seq<byte>, bl: seq<Block>, i: nat, size: nat): seq<byte>
    requires Tiled(bl) && Represents(m, bl) && i < |bl| - 1 && Suits(bl, i, size)
  {
    assert HeaderAt(m, bl, i) && HeaderAt(m, bl, i + 1);
    if UserSize(bl, i) >= size + HDR + MIN_SIZE then CutMem(m, bl, i, bl[i].start + HDR + size, true)
    else MarkedMem(m, bl[i].start, true)
  }

  lemma EndsInHeap(bl: seq<Block>, i: nat)
    requires Tiled(bl) && i < |bl|
    ensures bl[i].start <= MEM_SIZE && (i < |bl| - 1 ==> bl[i].start < MEM_SIZE)
  {
    StartsApart(bl);
  }

  lemma AllocatedOk(m: seq<byte>, bl: seq<Block>, i: nat, size: nat)
    requires Tiled(bl) && NoAdjacentFree(bl) && Represents(m, bl) && i < |bl| - 1
    requires Suits(bl, i, size) && size >= MIN_SIZE
    ensures var bl', m' := Allocated(bl, i, size), AllocatedMem(m, bl, i, size);
            Tiled(bl') && NoAdjacentFree(bl') && Represents(m', bl') && SameUserData(m, m', bl')
  {
    hide Represents, SameUserData, CutMem, MarkedMem, Cut, NoAdjacentFree, Tiled;
    EndsInHeap(bl, i + 1);
    var p2 := bl[i].start + HDR + size;
    if UserSize(bl, i) >= size + HDR + MIN_SIZE {
      UserEnd(bl, i);
      CutRepresents(m, bl, i, p2, true);
      CutData(m, bl, i, p2, true);
      BehindFree(bl, i);
      CutNoAdjacentFree(bl, i, p2);
    } else {
      MarkedRepresents(m, bl, i, true);
      MarkedData(m, bl, i, true);
      TakenNoAdjacentFree(bl, i);
    }
  }

  lemma BehindFree(bl: seq<Block>, i: nat)
    requires NoAdjacentFree(bl) && i < |bl| - 1 && !bl[i].used
    ensures bl[i + 1].used
  {
  }

  lemma UserEnd(bl: seq<Block>, i: nat)
    requires Tiled(bl) && i < |bl| - 1
    ensures bl[i].start + HDR + UserSize(bl, i) == bl[i + 1].start
  {
  }

  lemma TakenNoAdjacentFree(bl: seq<Block>, i: nat)
    requires NoAdjacentFree(bl) && i < |bl|
    ensures NoAdjacentFree(Marked(bl, i, true))
  {
  }

  lemma CutData(m: seq<byte>, bl: seq<Block>, i: nat, p2: nat, used: bool)
    requires Tiled(bl) && Represents(m, bl) && i < |bl| - 1
    requires bl[i].start + HDR + MIN_SIZE <= p2 && p2 + HDR + MIN_SIZE <= bl[i + 1].start <= MEM_SIZE
    ensures SameUserData(m, CutMem(m, bl, i, p2, used), Cut(bl, i, p2, used))
  {
    hide SameUserData, Rewritten, Hdr;
    CutTiled(bl, i, p2, used);
    var bl', p, next := Cut(bl, i, p2, used), bl[i].start, bl[i + 1].start;
    assert HeaderAt(m, bl, i);
    assert bl'[i].start == p && bl'[i + 1].start == p2 && bl'[i + 2] == bl[i + 1];
    RewrittenData(m, bl', i, Header(next, p, 0), Header(p2, Hdr(m, p).prev, if used then 1 else 0), p2);
  }

  /** Cutting leaves a used block followed by a free one: fine where the next is in use. */
  lemma CutNoAdjacentFree(bl: seq<Block>, i: nat, p2: nat)
    requires NoAdjacentFree(bl) && i < |bl| - 1 && bl[i + 1].used
    ensures NoAdjacentFree(Cut(bl, i, p2, true))
  {
    var bl' := Cut(bl, i, p2, true);
    forall j | 0 <= j < |bl'| - 1 ensures bl'[j].used || bl'[j + 1].used {
      if j + 1 < i {
        assert bl'[j] == bl[j] && bl'[j + 1] == bl[j + 1];
      } else if j > i + 1 {
        assert bl'[j] == bl[j - 1] && bl'[j + 1] == bl[j];
      }
    }
  }

  /** Where the lowest free block is after an allocation: as before, or from the allocated block on. */
  lemma AllocatedFirst(bl: seq<Block>, i: nat, size: nat)
    requires Tiled(bl) && i < |bl| - 1 && Suits(bl, i, size)
    ensures var bl', f := Allocated(bl, i, size), FirstFree(bl, 0);
            && f <= i < |bl'| - 1 && bl'[f].start == bl[f].start && bl'[i].start == bl[i].start && bl'[i].used
            && FirstFree(bl', 0) == if f < i then f else FirstFree(bl', i)
  {
    var bl', f := Allocated(bl, i, size), FirstFree(bl, 0);
    assert forall k :: 0 <= k < i ==> bl'[k] == bl[k];
    if f < i {
      FirstFreeIs(bl', 0, f);
    } else {
      FirstFreeIs(bl', 0, FirstFree(bl', i));
    }
  }

  // ----- mem_free and plug_holes

  ghost function PluggedForward(bl: seq<Block>, i: nat): seq<Block>
    requires Tiled(bl) && i < |bl| - 1
  {
    if bl[i + 1].used then bl else Joined(bl, i)
  }

  ghost function PluggedBackward(bl: seq<Block>, i: nat): seq<Block>
    requires Tiled(bl) && i < |bl| - 1
  {
    if i == 0 || bl[i - 1].used then bl else Joined(bl, i - 1)
  }

  /** The block list after block i has been freed. */
  ghost function Released(bl: seq<Block>, i: nat): seq<Block>
    requires Tiled(bl) && NoAdjacentFree(bl) && i < |bl| - 1
  {
    MarkedHole(bl, i);
    ForwardHole(Marked(bl, i, false), i);
    PluggedBackward(PluggedForward(Marked(bl, i, false), i), i)
  }

  /** What holds between the two halves of plug_holes: blocks adjacent to i apart, no two free ones meet. */
  ghost predicate HoleAt(bl: seq<Block>, i: nat) {
    && Tiled(bl) && i < |bl| - 1 && !bl[i].used
    && (forall j :: 0 <= j < |bl| - 1 && j != i && j + 1 != i ==> bl[j].used || bl[j + 1].used)
  }

  lemma MarkedHole(bl: seq<Block>, i: nat)
    requires Tiled(bl) && NoAdjacentFree(bl) && i < |bl| - 1
    ensures HoleAt(Marked(bl, i, false), i)
    ensures FirstFree(Marked(bl, i, false), 0) == if i < FirstFree(bl, 0) then i else FirstFree(bl, 0)
  {
    var f := FirstFree(bl, 0);
    FirstFreeIs(Marked(bl, i, false), 0, if i < f then i else f);
  }

  /** Joining block i with what lies behind it does not move the lowest free block. */
  lemma JoinedFirst(bl: seq<Block>, i: nat)
    requires Tiled(bl) && i + 2 < |bl| && !bl[i].used
    ensures var f := FirstFree(bl, 0);
            f <= i && FirstFree(Joined(bl, i), 0) == f && Joined(bl, i)[f] == bl[f]
  {
    var f, bl' := FirstFree(bl, 0), Joined(bl, i);
    assert forall k :: 0 <= k <= i ==> bl'[k] == bl[k];
    FirstFreeIs(bl', 0, f);
  }

  lemma ForwardHole(bl: seq<Block>, i: nat)
    requires HoleAt(bl, i)
    ensures HoleAt(PluggedForward(bl, i), i) && PluggedForward(bl, i)[i + 1].used
    ensures var f := FirstFree(bl, 0);
            f <= i && FirstFree(PluggedForward(bl, i), 0) == f && PluggedForward(bl, i)[f] == bl[f]
    ensures forall k :: 0 <= k <= i ==> PluggedForward(bl, i)[k] == bl[k]
  {
    if !bl[i + 1].used {
      JoinedTiled(bl, i);
      JoinedFirst(bl, i);
      var bl' := Joined(bl, i);
      assert bl[i + 1].used || bl[i + 2].used;
      forall j | 0 <= j < |bl'| - 1 && j != i && j + 1 != i ensures bl'[j].used || bl'[j + 1].used {
        if j > i {
          assert bl'[j] == bl[j + 1] && bl'[j + 1] == bl[j + 2];
        }
      }
      assert bl'[i + 1] == bl[i + 2];
    }
  }

  lemma BackwardNoAdjacent(bl: seq<Block>, i: nat)
    requires HoleAt(bl, i) && bl[i + 1].used
    ensures NoAdjacentFree(PluggedBackward(bl, i))
  {
    if i != 0 && !bl[i - 1].used {
      var bl' := Joined(bl, i - 1);
      assert forall k :: 0 <= k < i ==> bl'[k] == bl[k];
      assert forall k :: i <= k < |bl'| ==> bl'[k] == bl[k + 1];
      forall j | 0 <= j < |bl'| - 1 ensures bl'[j].used || bl'[j + 1].used {
        if j < i - 1 {
          assert bl[j].used || bl[j + 1].used;
        } else if j >= i {
          assert bl[j + 1].used || bl[j + 2].used;
        }
      }
    }
  }

  lemma BackwardHole(bl: seq<Block>, i: nat)
    requires HoleAt(bl, i) && bl[i + 1].used
    ensures Tiled(PluggedBackward(bl, i)) && NoAdjacentFree(PluggedBackward(bl, i))
    ensures var f := FirstFree(bl, 0);
            && f < |PluggedBackward(bl, i)| && FirstFree(PluggedBackward(bl, i), 0) == f
            && PluggedBackward(bl, i)[f] == bl[f]
  {
    BackwardNoAdjacent(bl, i);
    if i != 0 && !bl[i - 1].used {
      JoinedTiled(bl, i - 1);
      JoinedFirst(bl, i - 1);
    }
  }

  /** The user areas in use after joining free blocks are user areas that were in use before. */
  ghost predicate AreasFrom(bl: seq<Block>, bl': seq<Block>) {
    forall k, x :: InUserArea(bl', k, x) && bl'[k].used ==> exists k' :: InUserArea(bl, k', x) && bl[k'].used
  }

  lemma JoinedAreas(bl: seq<Block>, i: nat)
    requires Tiled(bl) && i + 2 < |bl| && !bl[i].used
    ensures AreasFrom(bl, Joined(bl, i))
  {
    var bl' := Joined(bl, i);
    forall k, x | InUserArea(bl', k, x) && bl'[k].used ensures exists k' :: InUserArea(bl, k', x) && bl[k'].used {
      var k' := if k <= i then k else k + 1;
      assert bl'[k] == bl[k'] && bl'[k + 1] == bl[k' + 1];
      assert InUserArea(bl, k', x);
    }
  }

  lemma SameUserDataTrans(m: seq<byte>, m1: seq<byte>, m2: seq<byte>, bl: seq<Block>, bl': seq<Block>)
    requires SameUserData(m, m1, bl) && SameUserData(m1, m2, bl') && AreasFrom(bl, bl')
    ensures SameUserData(m, m2, bl')
  {
    forall k, x | InUserArea(bl', k, x) && bl'[k].used ensures x < |m| && m2[x] == m[x] {
      var k' :| InUserArea(bl, k', x) && bl[k'].used;
    }
  }

  /** One join inside plug_holes, seen from the memory m0 before the call. */
  lemma JoinStep(m0: seq<byte>, m: seq<byte>, bl: seq<Block>, i: nat)
    requires Tiled(bl) && Represents(m, bl) && i + 2 < |bl| && !bl[i].used && SameUserData(m0, m, bl)
    ensures Tiled(Joined(bl, i)) && Represents(JoinedMem(m, bl, i), Joined(bl, i))
    ensures SameUserData(m0, JoinedMem(m, bl, i), Joined(bl, i))
  {
    hide Represents, SameUserData, AreasFrom, JoinedMem;
    JoinedRepresents(m, bl, i);
    JoinedData(m, bl, i);
    JoinedAreas(bl, i);
    SameUserDataTrans(m0, m, JoinedMem(m, bl, i), bl, Joined(bl, i));
  }

  // ----- mem_trim

  /** The block list after block i has been trimmed to newSize bytes. */
  ghost function Trimmed(bl: seq<Block>, i: nat, newSize: nat): seq<Block>
    requires Tiled(bl) && i < |bl| - 1
  {
    var p2 := bl[i].start + HDR + newSize;
    if newSize >= UserSize(bl, i) then bl
    else if !bl[i + 1].used then Moved(bl, i, p2)
    else if newSize + HDR + MIN_SIZE <= UserSize(bl, i) then Cut(bl, i, p2, true)
    else bl
  }

  lemma MovedData(m: seq<byte>, bl: seq<Block>, i: nat, p2: nat)
    requires Tiled(bl) && Represents(m, bl) && i + 2 < |bl| && p2 + HDR <= |m| && Tiled(Moved(bl, i, p2))
    ensures SameUserData(m, MovedMem(m, bl, i, p2), Moved(bl, i, p2))
  {
    hide SameUserData, Rewritten, Hdr;
    assert HeaderAt(m, bl, i);
    RewrittenData(m, Moved(bl, i, p2), i, Header(bl[i + 2].start, bl[i].start, 0),
                  Hdr(m, bl[i].start).(next := p2), p2);
  }

  lemma MovedOk(m: seq<byte>, bl: seq<Block>, i: nat, p2: nat)
    requires Tiled(bl) && NoAdjacentFree(bl) && Represents(m, bl) && i < |bl| - 1 && bl[i].used && !bl[i + 1].used
    requires bl[i].start + HDR + MIN_SIZE <= p2 <= bl[i + 1].start
    ensures i + 2 < |bl| && p2 + HDR <= |m|
    ensures var bl', m' := Moved(bl, i, p2), MovedMem(m, bl, i, p2);
            Tiled(bl') && NoAdjacentFree(bl') && Represents(m', bl') && SameUserData(m, m', bl')
    ensures FirstFree(Moved(bl, i, p2), 0) == FirstFree(bl, 0)
  {
    hide Represents, SameUserData, MovedMem;
    MovedRepresents(m, bl, i, p2);
    MovedData(m, bl, i, p2);
    var bl' := Moved(bl, i, p2);
    FirstFreeIs(bl', 0, FirstFree(bl, 0));
  }

  lemma TrimCutOk(m: seq<byte>, bl: seq<Block>, i: nat, p2: nat)
    requires Tiled(bl) && NoAdjacentFree(bl) && Represents(m, bl) && i < |bl| - 1 && bl[i].used && bl[i + 1].used
    requires bl[i].start + HDR + MIN_SIZE <= p2 && p2 + HDR + MIN_SIZE <= bl[i + 1].start <= MEM_SIZE
    ensures var bl', m' := Cut(bl, i, p2, true), CutMem(m, bl, i, p2, true);
            Tiled(bl') && NoAdjacentFree(bl') && Represents(m', bl') && SameUserData(m, m', bl')
    ensures var bl', f := Cut(bl, i, p2, true), FirstFree(bl, 0);
            bl'[FirstFree(bl', 0)].start == if p2 < bl[f].start then p2 else bl[f].start
  {
    hide Represents, SameUserData, CutMem;
    CutRepresents(m, bl, i, p2, true);
    CutData(m, bl, i, p2, true);
    CutNoAdjacentFree(bl, i, p2);
    StartsApart(bl);
    var bl', f := Cut(bl, i, p2, true), FirstFree(bl, 0);
    assert forall k :: 0 <= k < i ==> bl'[k] == bl[k];
    assert f != i;
    FirstFreeIs(bl', 0, if f < i then f else i + 1);
  }
}
