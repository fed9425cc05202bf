/** What the heap operations mean for its users: which areas are live, and that freeing undoes allocating. */
module HeapLaws {
  import opened HeapBlocks
  import opened HeapSpec

  /** The blocks in use, each with the place where the next one starts. */
  ghost function Live(bl: seq<Block>): set<(nat, nat)>
    requires Tiled(bl)
  {
    set k | 0 <= k < |bl| - 1 && bl[k].used :: (bl[k].start, bl[k + 1].start)
  }

  ghost predicate LiveAt(bl: seq<Block>, k: int, a: (nat, nat)) {
    0 <= k < |bl| - 1 && bl[k].used && a == (bl[k].start, bl[k + 1].start)
  }

  /** The area belongs to a block in use other than the i-th. */
  ghost predicate Elsewhere(bl: seq<Block>, i: int, a: (nat, nat)) {
    exists k :: k != i && LiveAt(bl, k, a)
  }

  lemma LiveSplit(bl: seq<Block>, i: nat, a: (nat, nat))
    requires Tiled(bl) && i < |bl|
    ensures a in Live(bl) <==> Elsewhere(bl, i, a) || LiveAt(bl, i, a)
    ensures Elsewhere(bl, i, a) ==> a.0 != bl[i].start
  {
    StartsApart(bl);
    if a in Live(bl) {
      var k :| 0 <= k < |bl| - 1 && bl[k].used && (bl[k].start, bl[k + 1].start) == a;
      assert LiveAt(bl, k, a);
    }
  }

  ghost function Area(bl: seq<Block>, i: nat): (nat, nat)
    requires i < |bl| - 1
  {
    (bl[i].start, bl[i + 1].start)
  }

  /** Block lists that differ only in block i differ only in its area. */
  lemma LiveReplace(bl: seq<Block>, bl': seq<Block>, i: nat)
    requires Tiled(bl) && Tiled(bl') && i < |bl| - 1 && i < |bl'| - 1 && bl'[i].start == bl[i].start
    requires forall a :: Elsewhere(bl, i, a) <==> Elsewhere(bl', i, a)
    ensures Live(bl') == Live(bl) - {Area(bl, i)} + if bl'[i].used then {Area(bl', i)} else {}
  {
    hide Live, Elsewhere;
    forall a ensures a in Live(bl') <==> a in Live(bl) - {Area(bl, i)} + if bl'[i].used then {Area(bl', i)} else {} {
      LiveSplit(bl, i, a);
      LiveSplit(bl', i, a);
    }
  }

  lemma JoinedLive(bl: seq<Block>, i: nat)
    requires Tiled(bl) && i + 2 < |bl| && !bl[i].used && !bl[i + 1].used
    ensures Tiled(Joined(bl, i)) && Live(Joined(bl, i)) == Live(bl)
  {
    hide Live, Elsewhere, Joined;
    JoinedTiled(bl, i);
    JoinedAt(bl, i);
    forall a ensures Elsewhere(bl, i, a) <==> Elsewhere(Joined(bl, i), i, a) {
      JoinedElsewhere(bl, i, a);
    }
    LiveReplace(bl, Joined(bl, i), i);
    LiveSplit(bl, i, Area(bl, i));
  }

  lemma JoinedAt(bl: seq<Block>, i: nat)
    requires i + 2 < |bl|
    ensures var bl' := Joined(bl, i);
            && |bl'| == |bl| - 1
            && (forall k :: 0 <= k <= i ==> bl'[k] == bl[k]) && (forall k :: i < k < |bl'| ==> bl'[k] == bl[k + 1])
  {
  }

  lemma JoinedElsewhere(bl: seq<Block>, i: nat, a: (nat, nat))
    requires i + 2 < |bl| && !bl[i + 1].used
    ensures Elsewhere(bl, i, a) <==> Elsewhere(Joined(bl, i), i, a)
  {
    hide Joined;
    var bl' := Joined(bl, i);
    JoinedAt(bl, i);
    if k :| k != i && LiveAt(bl, k, a) {
      assert LiveAt(bl', if k < i then k else k - 1, a);
    }
    if k :| k != i && LiveAt(bl', k, a) {
      assert LiveAt(bl, if k < i then k else k + 1, a);
    }
  }

  lemma MarkedLive(bl: seq<Block>, i: nat, used: bool)
    requires Tiled(bl) && i < |bl| - 1
    ensures Tiled(Marked(bl, i, used))
    ensures Live(Marked(bl, i, used)) == Live(bl) - {Area(bl, i)} + if used then {Area(bl, i)} else {}
  {
    hide Live;
    var bl' := Marked(bl, i, used);
    forall a ensures Elsewhere(bl, i, a) <==> Elsewhere(bl', i, a) {
      if k :| k != i && LiveAt(bl, k, a) {
        assert LiveAt(bl', k, a);
      }
      if k :| k != i && LiveAt(bl', k, a) {
        assert LiveAt(bl, k, a);
      }
    }
    LiveReplace(bl, bl', i);
  }

  /** mem_free takes away exactly the area of the freed block. */
  lemma ReleasedLive(bl: seq<Block>, i: nat)
    requires Tiled(bl) && NoAdjacentFree(bl) && i < |bl| - 1 && bl[i].used
    ensures Tiled(Released(bl, i)) && Live(Released(bl, i)) == Live(bl) - {Area(bl, i)}
  {
    hide Live, FirstFree, Joined;
    MarkedLive(bl, i, false);
    MarkedHole(bl, i);
    PluggedLive(Marked(bl, i, false), i);
  }

  lemma PluggedLive(bl: seq<Block>, i: nat)
    requires HoleAt(bl, i)
    ensures HoleAt(PluggedForward(bl, i), i)
    ensures var bl' := PluggedBackward(PluggedForward(bl, i), i);
            Tiled(bl') && Live(bl') == Live(bl)
  {
    hide Live, FirstFree, Joined;
    ForwardHole(bl, i);
    if !bl[i + 1].used {
      JoinedLive(bl, i);
    }
    var b2 := PluggedForward(bl, i);
    BackwardHole(b2, i);
    if i != 0 && !b2[i - 1].used {
      JoinedLive(b2, i - 1);
    }
  }

  lemma CutAt(bl: seq<Block>, i: nat, p2: nat, used: bool)
    requires i < |bl|
    ensures var bl' := Cut(bl, i, p2, used);
            && |bl'| == |bl| + 1 && bl'[i] == Block(bl[i].start, used) && bl'[i + 1] == Block(p2, false)
            && (forall k :: 0 <= k < i ==> bl'[k] == bl[k])
            && (forall k :: i + 2 <= k < |bl'| ==> bl'[k] == bl[k - 1])
  {
  }

  lemma CutLive(bl: seq<Block>, i: nat, p2: nat)
    requires Tiled(bl) && i < |bl| - 1 && Tiled(Cut(bl, i, p2, true))
    ensures Live(Cut(bl, i, p2, true)) == Live(bl) - {Area(bl, i)} + {(bl[i].start, p2)}
  {
    hide Live, Cut, Tiled;
    CutAt(bl, i, p2, true);
    var bl' := Cut(bl, i, p2, true);
    forall a ensures Elsewhere(bl, i, a) <==> Elsewhere(bl', i, a) {
      if k :| k != i && LiveAt(bl, k, a) {
        assert LiveAt(bl', if k < i then k else k + 1, a);
      }
      if k :| k != i && LiveAt(bl', k, a) {
        assert LiveAt(bl, if k < i then k else k - 1, a);
      }
    }
    LiveReplace(bl, bl', i);
  }

  lemma MovedLive(bl: seq<Block>, i: nat, p2: nat)
    requires Tiled(bl) && i + 1 < |bl| && bl[i].used && !bl[i + 1].used
    requires bl[i].start + HDR + MIN_SIZE <= p2 <= bl[i + 1].start
    ensures Tiled(Moved(bl, i, p2))
    ensures Live(Moved(bl, i, p2)) == Live(bl) - {Area(bl, i)} + {(bl[i].start, p2)}
  {
    hide Live;
    var bl' := Moved(bl, i, p2);
    forall a ensures Elsewhere(bl, i, a) <==> Elsewhere(bl', i, a) {
      if k :| k != i && LiveAt(bl, k, a) {
        assert LiveAt(bl', k, a);
      }
      if k :| k != i && LiveAt(bl', k, a) {
        assert LiveAt(bl, k, a);
      }
    }
    LiveReplace(bl, bl', i);
  }

  /** One more area is live: that of block i, large enough and apart from all others. */
  ghost predicate TakesArea(bl: seq<Block>, bl': seq<Block>, i: nat, size: nat) {
    && Tiled(bl) && Tiled(bl') && i < |bl'| - 1
    && var a := Area(bl', i);
    && size <= a.1 - (a.0 + HDR) < size + HDR + MIN_SIZE
    && Live(bl') == Live(bl) + {a}
    && (forall b :: b in Live(bl) ==> a.1 <= b.0 || b.1 <= a.0)
  }

  /** mem_malloc adds exactly one area, of at least the size asked for and less than a block more,
      that overlaps no live one. */
  lemma AllocatedLive(bl: seq<Block>, i: nat, size: nat)
    requires Tiled(bl) && i < |bl| - 1 && Suits(bl, i, size) && size >= MIN_SIZE
    ensures TakesArea(bl, Allocated(bl, i, size), i, size) && Area(Allocated(bl, i, size), i).0 == bl[i].start
  {
    hide Live, Elsewhere, Cut;
    AllocatedApart(bl, i, size);
    if UserSize(bl, i) >= size + HDR + MIN_SIZE {
      CutFreeLive(bl, i, bl[i].start + HDR + size);
    } else {
      LiveSplit(bl, i, Area(bl, i));
      MarkedLive(bl, i, true);
    }
  }

  /** A live area ends before the block that is taken, or starts behind it. */
  lemma AllocatedApart(bl: seq<Block>, i: nat, size: nat)
    requires Tiled(bl) && i < |bl| - 1 && Suits(bl, i, size) && size >= MIN_SIZE
    ensures i < |Allocated(bl, i, size)| - 1
    ensures var a := Area(Allocated(bl, i, size), i);
            forall b :: b in Live(bl) ==> a.1 <= b.0 || b.1 <= a.0
  {
    var bl' := Allocated(bl, i, size);
    assert bl'[i].start == bl[i].start && bl'[i + 1].start <= bl[i + 1].start;
    StartsApart(bl);
    forall b | b in Live(bl) ensures bl'[i + 1].start <= b.0 || b.1 <= bl[i].start {
      var k :| 0 <= k < |bl| - 1 && bl[k].used && (bl[k].start, bl[k + 1].start) == b;
      assert k != i;
    }
  }

  lemma CutFreeLive(bl: seq<Block>, i: nat, p2: nat)
    requires Tiled(bl) && i < |bl| - 1 && !bl[i].used
    requires bl[i].start + HDR + MIN_SIZE <= p2 && p2 + HDR + MIN_SIZE <= bl[i + 1].start
    ensures Tiled(Cut(bl, i, p2, true)) && i + 1 < |Cut(bl, i, p2, true)|
    ensures Area(Cut(bl, i, p2, true), i) == (bl[i].start, p2)
    ensures Live(bl) !! {(bl[i].start, p2)} && Live(Cut(bl, i, p2, true)) == Live(bl) + {(bl[i].start, p2)}
  {
    hide Live, Elsewhere, Cut;
    CutAt(bl, i, p2, true);
    CutTiled(bl, i, p2, true);
    CutLive(bl, i, p2);
    LiveSplit(bl, i, Area(bl, i));
    LiveSplit(bl, i, (bl[i].start, p2));
  }

  /** mem_trim shortens exactly the area of its block. */
  lemma TrimmedLive(bl: seq<Block>, i: nat, newSize: nat)
    requires Tiled(bl) && i < |bl| - 1 && bl[i].used && MIN_SIZE <= newSize
    ensures Tiled(Trimmed(bl, i, newSize)) && i < |Trimmed(bl, i, newSize)| - 1
    ensures var a, a' := Area(bl, i), Area(Trimmed(bl, i, newSize), i);
            && a'.0 == a.0 && a'.1 <= a.1 && (newSize <= UserSize(bl, i) ==> a'.0 + HDR + newSize <= a'.1)
            && Live(Trimmed(bl, i, newSize)) == Live(bl) - {a} + {a'}
  {
    hide Live, Elsewhere;
    LiveSplit(bl, i, Area(bl, i));
    var p2 := bl[i].start + HDR + newSize;
    if newSize < UserSize(bl, i) {
      if !bl[i + 1].used {
        MovedLive(bl, i, p2);
      } else if newSize + HDR + MIN_SIZE <= UserSize(bl, i) {
        CutTiled(bl, i, p2, true);
        CutLive(bl, i, p2);
      }
    }
  }

  /** Joining the two parts of a cut free block makes it whole. */
  lemma JoinUndoesCut(bl: seq<Block>, i: nat, p2: nat)
    requires i < |bl| && !bl[i].used
    ensures var b1 := Marked(Cut(bl, i, p2, true), i, false);
            |b1| == |bl| + 1 && b1[i + 1] == Block(p2, false) && Joined(b1, i) == bl
  {
    var b1 := Marked(Cut(bl, i, p2, true), i, false);
    assert forall k :: 0 <= k <= i ==> b1[k] == bl[k];
    assert forall k :: i + 2 <= k < |b1| ==> b1[k] == bl[k - 1];
  }

  /** Freeing what was just allocated gives back the block list as it was. */
  lemma FreeUndoesMalloc(bl: seq<Block>, i: nat, size: nat)
    requires Tiled(bl) && NoAdjacentFree(bl) && i < |bl| - 1 && Suits(bl, i, size) && size >= MIN_SIZE
    ensures var bl' := Allocated(bl, i, size);
            Tiled(bl') && NoAdjacentFree(bl') && i < |bl'| - 1 && Released(bl', i) == bl
  {
    hide FirstFree, Cut, Joined, HoleAt;
    assert i > 0 ==> bl[i - 1].used;
    if UserSize(bl, i) >= size + HDR + MIN_SIZE {
      var p2 := bl[i].start + HDR + size;
      CutTiled(bl, i, p2, true);
      CutNoAdjacentFree(bl, i, p2);
      CutAt(bl, i, p2, true);
      JoinUndoesCut(bl, i, p2);
    } else {
      assert Marked(Marked(bl, i, true), i, false) == bl;
      assert bl[i + 1].used;
    }
  }

  // ----- the live areas decide the layout

  lemma LiveHas(bl: seq<Block>, i: nat)
    requires Tiled(bl) && i < |bl| - 1 && bl[i].used
    ensures Area(bl, i) in Live(bl)
  {
  }

  lemma LiveIndex(bl: seq<Block>, a: (nat, nat)) returns (k: nat)
    requires Tiled(bl) && a in Live(bl)
    ensures k < |bl| - 1 && bl[k].used && a == Area(bl, k)
  {
    k :| 0 <= k < |bl| - 1 && bl[k].used && (bl[k].start, bl[k + 1].start) == a;
  }

  /** Where a used block of one list stands, the other has one with the same end. */
  lemma SameUsed(bl: seq<Block>, bl': seq<Block>, i: nat, j: nat)
    requires Tiled(bl) && Tiled(bl') && Live(bl) <= Live(bl')
    requires i < |bl| - 1 && j < |bl'| - 1 && bl[i].start == bl'[j].start && bl[i].used
    ensures bl'[j].used && bl'[j + 1].start == bl[i + 1].start
  {
    hide Live;
    LiveHas(bl, i);
    var k := LiveIndex(bl', Area(bl, i));
    StartsApart(bl');
    assert k == j;
  }

  /** A free block ends where the other list's free block ends, or later. */
  lemma FreeEnds(bl: seq<Block>, bl': seq<Block>, i: nat)
    requires Tiled(bl) && Tiled(bl') && NoAdjacentFree(bl) && Live(bl) <= Live(bl')
    requires i < |bl| - 1 && i < |bl'| - 1 && bl[i] == bl'[i] && !bl[i].used
    ensures bl[i + 1].start >= bl'[i + 1].start
  {
    hide Live;
    StartsApart(bl');
    if i + 1 < |bl| - 1 {
      LiveHas(bl, i + 1);
      var k := LiveIndex(bl', Area(bl, i + 1));
      assert k > i;
    }
  }

  lemma {:induction false} SamePrefix(bl: seq<Block>, bl': seq<Block>, i: nat)
    requires Tiled(bl) && Tiled(bl') && NoAdjacentFree(bl) && NoAdjacentFree(bl') && Live(bl) == Live(bl')
    requires i < |bl|
    ensures i < |bl'| && bl[i].start == bl'[i].start && (i < |bl| - 1 ==> i < |bl'| - 1 && bl[i] == bl'[i])
  {
    hide Live;
    StartsApart(bl);
    StartsApart(bl');
    if i == 0 {
    } else {
      SamePrefix(bl, bl', i - 1);
      if bl[i - 1].used {
        SameUsed(bl, bl', i - 1, i - 1);
      } else {
        FreeEnds(bl, bl', i - 1);
        FreeEnds(bl', bl, i - 1);
      }
    }
    if i < |bl| - 1 {
      if bl[i].used {
        SameUsed(bl, bl', i, i);
      } else if bl'[i].used {
        SameUsed(bl', bl, i, i);
      }
    }
  }

  /** The live areas decide the whole layout: nothing is left of the order in which blocks were
      allocated and freed. */
  lemma LayoutUnique(bl: seq<Block>, bl': seq<Block>)
    requires Tiled(bl) && Tiled(bl') && NoAdjacentFree(bl) && NoAdjacentFree(bl') && Live(bl) == Live(bl')
    ensures bl == bl'
  {
    hide Live;
    SamePrefix(bl, bl', |bl| - 1);
    SamePrefix(bl', bl, |bl'| - 1);
    forall i | 0 <= i < |bl| - 1 ensures bl[i] == bl'[i] {
      SamePrefix(bl, bl', i);
    }
  }

  /** So freeing everything, in any order, gives the fresh heap back. */
  lemma EmptyIsFresh(bl: seq<Block>)
    requires Tiled(bl) && NoAdjacentFree(bl) && Live(bl) == {}
    ensures bl == [Block(0, false), Block(MEM_SIZE, true)]
  {
    LayoutUnique(bl, [Block(0, false), Block(MEM_SIZE, true)]);
  }
}
