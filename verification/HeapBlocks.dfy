/** The heap of core/mem.c as a list of blocks, in the configuration of lwip_config/lwipopts.h and
    opt.h: one megabyte, alignment 1, 32-bit indices, no overflow or sanity checks. */
module HeapBlocks {
  import opened Machine
  import opened HeapHeaders

  const MEM_SIZE: nat := 0x10_0000
  const HDR: nat := 12
  const MIN_SIZE: nat := 12
  const RAM: nat := MEM_SIZE + 2 * HDR

  datatype Block = Block(start: nat, used: bool)

  /** The blocks tile the heap; the last entry is the end marker.  Every block has room for its
      header and at least MIN_SIZE bytes. */
  ghost predicate Tiled(bl: seq<Block>) {
    && |bl| >= 2 && bl[0].start == 0 && bl[|bl| - 1] == Block(MEM_SIZE, true)
    && (forall i :: 0 <= i < |bl| - 1 ==> bl[i].start + HDR + MIN_SIZE <= bl[i + 1].start)
  }

  ghost predicate NoAdjacentFree(bl: seq<Block>) {
    forall i :: 0 <= i < |bl| - 1 ==> bl[i].used || bl[i + 1].used
  }

  /** The header that block i must have. */
  ghost function Expected(bl: seq<Block>, i: nat): Header
    requires i < |bl|
  {
    if i == |bl| - 1 then Header(MEM_SIZE, MEM_SIZE, 1)
    else Header(bl[i + 1].start, if i == 0 then 0 else bl[i - 1].start, if bl[i].used then 1 else 0)
  }

  ghost predicate HeaderAt(m: seq<byte>, bl: seq<Block>, i: nat)
    requires i < |bl|
  {
    bl[i].start + HDR <= |m| && Hdr(m, bl[i].start) == Expected(bl, i)
  }

  /** Every header in memory is the one the block list asks for. */
  ghost predicate Represents(m: seq<byte>, bl: seq<Block>) {
    |m| == RAM && forall i :: 0 <= i < |bl| ==> HeaderAt(m, bl, i)
  }

  /** The index of the lowest free block, or of the end marker. */
  ghost function FirstFree(bl: seq<Block>, i: nat): (f: nat)
    requires i < |bl|
    ensures i <= f < |bl|
    ensures forall k :: i <= k < f ==> bl[k].used
    ensures f == |bl| - 1 || !bl[f].used
    decreases |bl| - i
  {
    if i == |bl| - 1 || !bl[i].used then i else FirstFree(bl, i + 1)
  }

  /** The invariant of the heap. */
  ghost predicate HeapOk(m: seq<byte>, lfree: nat, bl: seq<Block>) {
    && Tiled(bl) && NoAdjacentFree(bl) && Represents(m, bl)
    && lfree == bl[FirstFree(bl, 0)].start
  }

  /** The bytes that block i offers its user. */
  ghost function UserSize(bl: seq<Block>, i: nat): nat
    requires Tiled(bl) && i < |bl| - 1
  {
    bl[i + 1].start - (bl[i].start + HDR)
  }

  ghost predicate Suits(bl: seq<Block>, i: nat, size: nat)
    requires Tiled(bl) && i < |bl| - 1
  {
    !bl[i].used && UserSize(bl, i) >= size
  }

  // ----- the order of the blocks

  lemma {:induction false} StartsIncrease(bl: seq<Block>, i: nat, j: nat)
    requires Tiled(bl) && i < j < |bl|
    ensures bl[i].start + HDR + MIN_SIZE <= bl[j].start
    decreases j
  {
    if i + 1 == j {
    } else {
      StartsIncrease(bl, i, j - 1);
    }
  }

  lemma StartsApart(bl: seq<Block>)
    requires Tiled(bl)
    ensures forall i, j :: 0 <= i < j < |bl| ==> bl[i].start + HDR + MIN_SIZE <= bl[j].start
  {
    forall i, j | 0 <= i < j < |bl| ensures bl[i].start + HDR + MIN_SIZE <= bl[j].start {
      StartsIncrease(bl, i, j);
    }
  }

  /** The user areas of two blocks do not overlap, and all lie inside the heap. */
  lemma UserAreasDisjoint(bl: seq<Block>, i: nat, j: nat)
    requires Tiled(bl) && i < j < |bl| - 1
    ensures bl[i].start + HDR + UserSize(bl, i) <= bl[j].start < bl[j].start + HDR + UserSize(bl, j) <= MEM_SIZE
  {
    StartsApart(bl);
  }

  lemma FirstFreeIs(bl: seq<Block>, i: nat, f: nat)
    requires i <= f < |bl| && (forall k :: i <= k < f ==> bl[k].used) && (f == |bl| - 1 || !bl[f].used)
    ensures FirstFree(bl, i) == f
  {
  }

  // ----- memory updates

  /** Give the block at `next` a new predecessor, unless it is the end marker. */
  function Relink(m: seq<byte>, next: nat, prev: nat): (m': seq<byte>)
    requires next + 9 <= |m|
    ensures |m'| == |m|
  {
    if next == MEM_SIZE then m else PutHdr(m, next, Hdr(m, next).(prev := prev))
  }

  ghost predicate Apart(p: nat, q: nat) {
    p + HDR <= q || q + HDR <= p
  }

  lemma RelinkHdr(m: seq<byte>, next: nat, prev: nat, q: nat)
    requires next + HDR <= |m| && q + HDR <= |m| && prev < TWO32
    requires q == next || Apart(q, next)
    ensures Hdr(Relink(m, next, prev), q) ==
            if q == next && next != MEM_SIZE then Hdr(m, q).(prev := prev) else Hdr(m, q)
  {
    hide Hdr, PutHdr;
    if next != MEM_SIZE {
      if q == next {
        HdrSame(m, next, Hdr(m, next).(prev := prev));
      } else {
        HdrOther(m, next, Hdr(m, next).(prev := prev), q);
      }
    }
  }

  // ----- marking a block used or free

  ghost function Marked(bl: seq<Block>, i: nat, used: bool): seq<Block>
    requires i < |bl|
  {
    bl[i := bl[i].(used := used)]
  }

  ghost function MarkedMem(m: seq<byte>, p: nat, used: bool): seq<byte>
    requires p + HDR <= |m|
  {
    PutHdr(m, p, Hdr(m, p).(used := if used then 1 else 0))
  }

  lemma MarkedRepresents(m: seq<byte>, bl: seq<Block>, i: nat, used: bool)
    requires Tiled(bl) && Represents(m, bl) && i < |bl| - 1
    ensures Tiled(Marked(bl, i, used)) && HeaderAt(m, bl, i)
    ensures Represents(MarkedMem(m, bl[i].start, used), Marked(bl, i, used))
  {
    hide Hdr, PutHdr;
    StartsApart(bl);
    var bl' := Marked(bl, i, used);
    var h := Hdr(m, bl[i].start).(used := if used then 1 else 0);
    assert HeaderAt(m, bl, i);
    forall j | 0 <= j < |bl'| ensures HeaderAt(PutHdr(m, bl[i].start, h), bl', j) {
      assert HeaderAt(m, bl, j);
      if j == i {
        HdrSame(m, bl[i].start, h);
      } else {
        HdrOther(m, bl[i].start, h, bl[j].start);
      }
    }
  }

  // ----- cutting a block in two

  /** Block i keeps what lies below p2 and takes the flag `used`; a free block starts at p2. */
  ghost function Cut(bl: seq<Block>, i: nat, p2: nat, used: bool): seq<Block>
    requires i < |bl|
  {
    bl[..i] + [Block(bl[i].start, used), Block(p2, false)] + bl[i + 1..]
  }

  /** A header h2 at p2, a header h at p, and the block at `next` linked back to b. */
  ghost function Rewritten(m: seq<byte>, p2: nat, h2: Header, p: nat, h: Header, next: nat, b: nat): (m': seq<byte>)
    requires p2 + HDR <= |m| && p + HDR <= |m| && next + HDR <= |m|
    ensures |m'| == |m|
  {
    Relink(PutHdr(PutHdr(m, p2, h2), p, h), next, b)
  }

  lemma RewrittenHdr(m: seq<byte>, p2: nat, h2: Header, p: nat, h: Header, next: nat, b: nat, q: nat)
    requires p2 + HDR <= |m| && p + HDR <= |m| && next + HDR <= |m| && q + HDR <= |m|
    requires b < TWO32 && Fits(h) && Fits(h2)
    requires Apart(p, p2) && Apart(p, next) && Apart(p2, next)
    requires (q == p || Apart(q, p)) && (q == p2 || Apart(q, p2)) && (q == next || Apart(q, next))
    ensures Hdr(Rewritten(m, p2, h2, p, h, next, b), q) ==
            if q == p then h else if q == p2 then h2
            else if q == next && next != MEM_SIZE then Hdr(m, q).(prev := b) else Hdr(m, q)
  {
    hide Hdr, PutHdr, Relink;
    var m1 := PutHdr(m, p2, h2);
    RelinkHdr(PutHdr(m1, p, h), next, b, q);
    if q == p {
      HdrSame(m1, p, h);
    } else {
      HdrOther(m1, p, h, q);
      if q == p2 {
        HdrSame(m, p2, h2);
      } else {
        HdrOther(m, p2, h2, q);
      }
    }
  }

  /** The writes that cut block i at p2. */
  ghost function CutMem(m: seq<byte>, bl: seq<Block>, i: nat, p2: nat, used: bool): seq<byte>
    requires Tiled(bl) && Represents(m, bl) && i < |bl| - 1 && p2 + HDR <= |m|
  {
    assert HeaderAt(m, bl, i) && HeaderAt(m, bl, i + 1);
    var p, next := bl[i].start, bl[i + 1].start;
    Rewritten(m, p2, Header(next, p, 0), p, Header(p2, Hdr(m, p).prev, if used then 1 else 0), next, p2)
  }

  lemma CutTiled(bl: seq<Block>, i: nat, p2: nat, used: bool)
    requires Tiled(bl) && i < |bl| - 1
    requires bl[i].start + HDR + MIN_SIZE <= p2 && p2 + HDR + MIN_SIZE <= bl[i + 1].start
    ensures Tiled(Cut(bl, i, p2, used))
  {
    var bl' := Cut(bl, i, p2, used);
    forall j | 0 <= j < |bl'| - 1 ensures bl'[j].start + HDR + MIN_SIZE <= bl'[j + 1].start {
      if j < i {
        assert bl'[j].start == bl[j].start && bl'[j + 1].start == bl[j + 1].start;
      } else if j > i + 1 {
        assert bl'[j] == bl[j - 1] && bl'[j + 1] == bl[j];
      }
    }
  }

  /** The headers a cut asks for: new ones at i and i + 1, a new prev behind them, the others as before. */
  lemma CutExpected(bl: seq<Block>, i: nat, p2: nat, used: bool, j: nat)
    requires Tiled(bl) && i < |bl| - 1 && j < |bl| + 1
    ensures var bl' := Cut(bl, i, p2, used);
      if j == i then
        && bl'[j].start == bl[i].start
        && Expected(bl', j) == Header(p2, Expected(bl, i).prev, if used then 1 else 0)
      else if j == i + 1 then bl'[j].start == p2 && Expected(bl', j) == Header(bl[i + 1].start, bl[i].start, 0)
      else
        var k := if j < i then j else j - 1;
        && bl'[j].start == bl[k].start
        && Expected(bl', j) == if k == i + 1 && k != |bl| - 1 then Expected(bl, k).(prev := p2) else Expected(bl, k)
  {
    var bl' := Cut(bl, i, p2, used);
    if j < i {
      assert bl'[j] == bl[j] && bl'[j + 1].start == bl[j + 1].start;
    } else if j > i + 1 {
      assert bl'[j] == bl[j - 1];
      assert j > i + 2 ==> bl'[j - 1] == bl[j - 2];
      assert j < |bl| ==> bl'[j + 1] == bl[j];
    } else if j == i + 1 {
      assert bl'[j + 1] == bl[i + 1];
    }
  }

  lemma CutRepresents(m: seq<byte>, bl: seq<Block>, i: nat, p2: nat, used: bool)
    requires Tiled(bl) && Represents(m, bl) && i < |bl| - 1
    requires bl[i].start + HDR + MIN_SIZE <= p2 && p2 + HDR + MIN_SIZE <= bl[i + 1].start <= MEM_SIZE
    ensures Tiled(Cut(bl, i, p2, used)) && Represents(CutMem(m, bl, i, p2, used), Cut(bl, i, p2, used))
  {
    hide Hdr, PutHdr, Rewritten, Expected;
    CutTiled(bl, i, p2, used);
    var bl', p, next := Cut(bl, i, p2, used), bl[i].start, bl[i + 1].start;
    assert HeaderAt(m, bl, i);
    forall j | 0 <= j < |bl'| ensures HeaderAt(CutMem(m, bl, i, p2, used), bl', j) {
      CutExpected(bl, i, p2, used, j);
      var k := if j <= i then j else j - 1;
      assert HeaderAt(m, bl, k);
      Separated(bl, i, k, p2);
      RewrittenHdr(m, p2, Header(next, p, 0), p, Header(p2, Hdr(m, p).prev, if used then 1 else 0), next, p2,
                   bl'[j].start);
    }
  }

  /** Where block k stands relative to block i, the next one, and a place p2 between them. */
  lemma Separated(bl: seq<Block>, i: nat, k: nat, p2: nat)
    requires Tiled(bl) && i < |bl| - 1 && k < |bl|
    requires bl[i].start + HDR + MIN_SIZE <= p2 && p2 + HDR + MIN_SIZE <= bl[i + 1].start
    ensures (k == i || Apart(bl[k].start, bl[i].start)) && (k == i + 1 || Apart(bl[k].start, bl[i + 1].start))
    ensures Apart(bl[k].start, p2) && (bl[k].start == MEM_SIZE <==> k == |bl| - 1)
  {
    StartsApart(bl);
  }

  // ----- joining a block with the free one behind it

  ghost function Joined(bl: seq<Block>, i: nat): seq<Block>
    requires i + 1 < |bl|
  {
    bl[..i + 1] + bl[i + 2..]
  }

  ghost function JoinedMem(m: seq<byte>, bl: seq<Block>, i: nat): (m': seq<byte>)
    requires Tiled(bl) && Represents(m, bl) && i + 2 < |bl|
    ensures |m'| == |m|
  {
    assert HeaderAt(m, bl, i) && HeaderAt(m, bl, i + 2);
    var p, next := bl[i].start, bl[i + 2].start;
    Relink(PutHdr(m, p, Hdr(m, p).(next := next)), next, p)
  }

  lemma JoinedTiled(bl: seq<Block>, i: nat)
    requires Tiled(bl) && i + 2 < |bl|
    ensures Tiled(Joined(bl, i))
  {
    StartsApart(bl);
    var bl' := Joined(bl, i);
    forall j | 0 <= j < |bl'| - 1 ensures bl'[j].start + HDR + MIN_SIZE <= bl'[j + 1].start {
      var k, l := if j <= i then j else j + 1, if j + 1 <= i then j + 1 else j + 2;
      assert bl'[j] == bl[k] && bl'[j + 1] == bl[l] && k < l;
    }
  }

  lemma JoinedExpected(bl: seq<Block>, i: nat, j: nat)
    requires Tiled(bl) && i + 2 < |bl| && j < |bl| - 1
    ensures var bl' := Joined(bl, i);
            var k := if j <= i then j else j + 1;
            && bl'[j] == bl[k]
            && Expected(bl', j) ==
               if j == i then Expected(bl, k).(next := bl[i + 2].start)
               else if j == i + 1 && k != |bl| - 1 then Expected(bl, k).(prev := bl[i].start)
               else Expected(bl, k)
  {
    var bl' := Joined(bl, i);
    if j < i {
      assert bl'[j + 1] == bl[j + 1];
    } else if j > i {
      assert bl'[j] == bl[j + 1];
      assert j > i + 1 ==> bl'[j - 1] == bl[j];
      assert j + 2 < |bl| ==> bl'[j + 1] == bl[j + 2];
    } else {
      assert bl'[j + 1] == bl[i + 2];
    }
  }

  lemma JoinedRepresents(m: seq<byte>, bl: seq<Block>, i: nat)
    requires Tiled(bl) && Represents(m, bl) && i + 2 < |bl|
    ensures Tiled(Joined(bl, i)) && Represents(JoinedMem(m, bl, i), Joined(bl, i))
  {
    hide Hdr, PutHdr, Relink, Expected;
    JoinedTiled(bl, i);
    StartsApart(bl);
    var bl', p, next := Joined(bl, i), bl[i].start, bl[i + 2].start;
    assert HeaderAt(m, bl, i);
    var h := Hdr(m, p).(next := next);
    forall j | 0 <= j < |bl'| ensures HeaderAt(JoinedMem(m, bl, i), bl', j) {
      JoinedExpected(bl, i, j);
      var k := if j <= i then j else j + 1;
      assert HeaderAt(m, bl, k);
      RelinkHdr(PutHdr(m, p, h), next, p, bl[k].start);
      if j == i {
        HdrSame(m, p, h);
      } else {
        HdrOther(m, p, h, bl[k].start);
      }
    }
  }

  // ----- moving the free block behind block i down to p2

  ghost function Moved(bl: seq<Block>, i: nat, p2: nat): seq<Block>
    requires i + 1 < |bl|
  {
    bl[i + 1 := Block(p2, false)]
  }

  ghost function MovedMem(m: seq<byte>, bl: seq<Block>, i: nat, p2: nat): (m': seq<byte>)
    requires Tiled(bl) && Represents(m, bl) && i + 2 < |bl| && p2 + HDR <= |m|
    ensures |m'| == |m|
  {
    assert HeaderAt(m, bl, i) && HeaderAt(m, bl, i + 2);
    var p, next := bl[i].start, bl[i + 2].start;
    Rewritten(m, p2, Header(next, p, 0), p, Hdr(m, p).(next := p2), next, p2)
  }

  lemma MovedRepresents(m: seq<byte>, bl: seq<Block>, i: nat, p2: nat)
    requires Tiled(bl) && Represents(m, bl) && i + 2 < |bl|
    requires bl[i].start + HDR + MIN_SIZE <= p2 <= bl[i + 1].start
    ensures p2 + HDR <= |m|
    ensures Tiled(Moved(bl, i, p2)) && Represents(MovedMem(m, bl, i, p2), Moved(bl, i, p2))
  {
    hide Hdr, PutHdr, Rewritten;
    StartsApart(bl);
    var bl', p, next := Moved(bl, i, p2), bl[i].start, bl[i + 2].start;
    assert HeaderAt(m, bl, i) && HeaderAt(m, bl, i + 2) && bl[i + 1].start + HDR + MIN_SIZE <= next;
    forall j | 0 <= j < |bl'| ensures HeaderAt(MovedMem(m, bl, i, p2), bl', j) {
      assert HeaderAt(m, bl, j);
      RewrittenHdr(m, p2, Header(next, p, 0), p, Hdr(m, p).(next := p2), next, p2, bl'[j].start);
    }
  }
}
