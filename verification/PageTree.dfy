/** The page tables that lib/memory.cpp builds, on values: one top table, one level-3 table for the
    low addresses, and under it one level-2 table per GiB and one level-1 table per 2 MiB. */
module PageTree {
  import opened Machine
  import opened Bits
  import opened PageFlags
  import opened PageWalk
  import opened Remainders

  const MAX_HUGE: nat := 261632
  const FRAME_LIMIT: nat := 0x100_0000_0000

  type Tables = map<nat, seq<nat>>

  /** Each table's 512 entries stand in its page of physical memory. */
  ghost predicate Holds(words: seq<nat>, tables: Tables) {
    forall t :: t in tables ==>
      |tables[t]| == 512 && 512 * t + 512 <= |words| && words[512 * t..512 * t + 512] == tables[t]
  }

  /** An entry for the table in page t. */
  ghost predicate Points(entry: nat, t: nat, user: bool) {
    && Bit(entry, 0) && !Bit(entry, 7) && entry / 0x1000 % FRAME_LIMIT == t && ClearPageFlags(entry) == 0x1000 * t
    && Bit(entry, 1) && (Bit(entry, 2) <==> user)
  }

  /** An entry for a 4 KiB page; one for user memory starts closed to the user and marked as written. */
  ghost predicate Leaf(entry: nat, frame: nat, user: bool) {
    && Bit(entry, 0) && entry / 0x1000 % FRAME_LIMIT == frame
    && Bit(entry, 1) && !Bit(entry, 2) && (user ==> Bit(entry, 9))
  }

  /** PRESENT, WRITABLE, ACCESSED, DIRTY and HUGE. */
  const REMAP_ENTRY: nat := 227

  /** The level-3 table of the remapping: 512 pages of 1 GiB, in order. */
  ghost predicate Remapped(entries: seq<nat>) {
    |entries| == 512 && forall i :: 0 <= i < 512 ==> entries[i] == Or(0x4000_0000 * i, REMAP_ENTRY)
  }

  /** high maps all physical memory; p2s[g] serves GiB g and p1s[h] the h-th 2 MiB, which go to the
      frames of frames[h]; the first `kernel` of these are the kernel's own. */
  datatype Tree = Tree(kernel: nat, p4: nat, high: nat, p3: nat, p2s: seq<nat>, p1s: seq<nat>, frames: seq<nat>)

  ghost predicate Sized(tables: Tables) {
    forall t :: t in tables ==> |tables[t]| == 512
  }

  ghost predicate TopOk(tables: Tables, r: Tree)
    requires Sized(tables)
  {
    && r.p4 in tables && r.p3 in tables && r.high in tables && r.p3 != r.p4 && r.high != r.p4 && r.high != r.p3
    && Points(tables[r.p4][0], r.p3, true) && Points(tables[r.p4][511], r.p4, false)
    && Points(tables[r.p4][510], r.high, false) && Remapped(tables[r.high])
  }

  ghost predicate P3Ok(tables: Tables, r: Tree)
    requires Sized(tables) && r.p3 in tables
  {
    && |r.p2s| <= 511
    && (forall g :: 0 <= g < |r.p2s| ==> r.p2s[g] in tables && Points(tables[r.p3][g], r.p2s[g], true))
    && (forall g :: |r.p2s| <= g < 512 ==> tables[r.p3][g] == 0)
  }

  ghost predicate P2Entry(tables: Tables, r: Tree, h: nat)
    requires Sized(tables) && h < 512 * |r.p2s| && r.p2s[h / 512] in tables
  {
    var e := tables[r.p2s[h / 512]][h % 512];
    if h < |r.p1s| then r.p1s[h] in tables && Points(e, r.p1s[h], h >= r.kernel) else e == 0
  }

  ghost predicate P2Ok(tables: Tables, r: Tree)
    requires Sized(tables) && r.p3 in tables && P3Ok(tables, r)
  {
    && |r.p1s| <= 512 * |r.p2s| <= |r.p1s| + 512
    && (forall h :: 0 <= h < 512 * |r.p2s| ==> P2Entry(tables, r, h))
  }

  ghost predicate P1Ok(tables: Tables, r: Tree)
    requires Sized(tables)
  {
    && |r.frames| == |r.p1s|
    && (forall h :: 0 <= h < |r.p1s| ==> r.p1s[h] in tables && FilledP1(tables[r.p1s[h]], r.frames[h], h >= r.kernel))
  }

  ghost predicate FilledP1(entries: seq<nat>, frame: nat, user: bool) {
    |entries| == 512 && forall j :: 0 <= j < 512 ==> Leaf(entries[j], 512 * frame + j, user)
  }

  /** All the tables are different pages. */
  ghost predicate Apart(r: Tree) {
    && r.p4 !in r.p2s && r.p4 !in r.p1s && r.p3 !in r.p2s && r.p3 !in r.p1s
    && r.high !in r.p2s && r.high !in r.p1s
    && (forall g, h :: 0 <= g < |r.p2s| && 0 <= h < |r.p1s| ==> r.p2s[g] != r.p1s[h])
    && (forall g, g' :: 0 <= g < g' < |r.p2s| ==> r.p2s[g] != r.p2s[g'])
    && (forall h, h' :: 0 <= h < h' < |r.p1s| ==> r.p1s[h] != r.p1s[h'])
  }

  ghost predicate Built(tables: Tables, r: Tree) {
    Sized(tables) && TopOk(tables, r) && P3Ok(tables, r) && P2Ok(tables, r) && P1Ok(tables, r) && Apart(r)
  }

  /** The tables with entry i of table t changed. */
  ghost function With(tables: Tables, t: nat, i: nat, e: nat): Tables
    requires t in tables && i < |tables[t]|
  {
    var entries: seq<nat> := tables[t];
    tables[t := entries[i := e]]
  }

  const ZEROS: seq<nat> := seq(512, _ => 0)

  // ----- entries

  lemma {:induction false} OrNothing(a: nat)
    ensures Or(a, 0) == a
  {
    if a == 0 {
    } else {
      OrNothing(a / 2);
    }
  }

  lemma {:induction false} OrShift(a: nat, b: nat, k: nat)
    ensures Shift(Or(a, b), k) == Or(Shift(a, k), Shift(b, k))
    decreases k
  {
    if k == 0 {
    } else {
      assert Or(a, b) / 2 == Or(a / 2, b / 2);
      OrShift(a / 2, b / 2, k - 1);
    }
  }

  lemma {:induction false} WithoutShift(a: nat, b: nat, k: nat)
    ensures Shift(Without(a, b), k) == Without(Shift(a, k), Shift(b, k))
    decreases k
  {
    if k == 0 {
    } else {
      assert Without(a, b) / 2 == Without(a / 2, b / 2);
      WithoutShift(a / 2, b / 2, k - 1);
    }
  }

  lemma {:induction false} OrLow(t: nat, f: nat, n: nat)
    requires f < Mask(n)
    ensures Or(Mask(n) * t, f) == Mask(n) * t + f
    decreases n
  {
    hide Or;
    if n == 0 {
      OrNothing(t);
      assert Mask(0) * t == t;
    } else {
      OrLow(t, f / 2, n - 1);
      OrLowStep(Mask(n - 1) * t, f);
      assert 2 * (Mask(n - 1) * t) == Mask(n) * t;
    }
  }

  lemma OrLowStep(b: nat, f: nat)
    requires Or(b, f / 2) == b + f / 2
    ensures Or(2 * b, f) == 2 * b + f
  {
    assert 2 * b / 2 == b && 2 * b % 2 == 0;
  }

  lemma TableEntry(t: nat, f: nat)
    requires t < FRAME_LIMIT && f < 512 && Bit(f, 0) && !Bit(f, 7) && Bit(f, 1)
    ensures Or(0x1000 * t, f) == 0x1000 * t + f && Points(0x1000 * t + f, t, Bit(f, 2)) && 0x1000 * t + f > 0
  {
    hide Shift, Mask, Or, ClearPageFlags;
    Powers();
    OrLow(t, f, 12);
    var e := 0x1000 * t + f;
    DivModUnique(0x1000, t, f);
    TruncatedBit(e, 12, 0);
    TruncatedBit(e, 12, 1);
    TruncatedBit(e, 12, 2);
    TruncatedBit(e, 12, 7);
    ClearTableEntry(t, f);
    ZeroBit(0);
  }

  lemma ClearTableEntry(t: nat, f: nat)
    requires t < FRAME_LIMIT && f < 512
    ensures ClearPageFlags(0x1000 * t + f) == 0x1000 * t
  {
    hide Shift, Mask;
    Powers();
    SmallPowers();
    MaskSum(9, 1);
    var a := 0x1000 * t + f;
    ShiftDivides(a * Mask(1), 10);
    DivModUnique(0x400, 8 * t, 2 * f);
  }

  /** PRESENT, WRITABLE, ACCESSED and DIRTY, and with USER. */
  const KERNEL_ENTRY: nat := 99
  const USER_ENTRY: nat := 103

  function KernelLeaf(frame: nat): nat {
    Or(0x1000 * frame, KERNEL_ENTRY)
  }

  /** Flags first, then USER taken out and DUCK_WRITTEN put in. */
  function UserLeaf(frame: nat): nat {
    Or(Without(Or(0x1000 * frame, USER_ENTRY), Mask(USER)), Mask(DUCK_WRITTEN))
  }

  lemma LeafEntry(entry: nat, frame: nat, user: bool)
    requires frame < FRAME_LIMIT && entry == if user then UserLeaf(frame) else KernelLeaf(frame)
    ensures Leaf(entry, frame, user)
  {
    hide Shift, Mask, Or, Without;
    LeafBits(frame);
    LeafHigh(frame);
    ShiftDivides(entry, 12);
    Powers();
  }

  lemma LeafBits(frame: nat)
    ensures Bit(KernelLeaf(frame), 0) && Bit(UserLeaf(frame), 0)
    ensures Bit(KernelLeaf(frame), 1) && Bit(UserLeaf(frame), 1)
    ensures !Bit(KernelLeaf(frame), 2)
    ensures Bit(UserLeaf(frame), 9) && !Bit(UserLeaf(frame), 2)
  {
    var e := Or(0x1000 * frame, USER_ENTRY);
    assert Bit(KERNEL_ENTRY, 0) && Bit(USER_ENTRY, 0) && Bit(KERNEL_ENTRY, 1) && Bit(USER_ENTRY, 1);
    assert !Bit(KERNEL_ENTRY, 2);
    hide Bit, Mask, Or, Without;
    AlignedBit(frame, 2);
    OrBit(0x1000 * frame, KERNEL_ENTRY, 1);
    OrBit(0x1000 * frame, KERNEL_ENTRY, 2);
    OrBit(0x1000 * frame, USER_ENTRY, 1);
    WithoutBit(e, Mask(USER), 1);
    OrBit(Without(e, Mask(USER)), Mask(DUCK_WRITTEN), 1);
    MaskBit(USER, 1);
    OrBit(0x1000 * frame, KERNEL_ENTRY, 0);
    OrBit(0x1000 * frame, USER_ENTRY, 0);
    WithoutBit(e, Mask(USER), 0);
    WithoutBit(e, Mask(USER), USER);
    OrBit(Without(e, Mask(USER)), Mask(DUCK_WRITTEN), 0);
    OrBit(Without(e, Mask(USER)), Mask(DUCK_WRITTEN), USER);
    OrBit(Without(e, Mask(USER)), Mask(DUCK_WRITTEN), DUCK_WRITTEN);
    MaskBit(USER, 0);
    MaskBit(USER, USER);
    MaskBit(DUCK_WRITTEN, USER);
    MaskBit(DUCK_WRITTEN, DUCK_WRITTEN);
  }

  /** The low bits of a page address are zero. */
  lemma AlignedBit(frame: nat, k: nat)
    requires k < 12
    ensures !Bit(0x1000 * frame, k)
  {
    hide Shift, Mask;
    Powers();
    TruncatedBit(0x1000 * frame, 12, k);
    DivModUnique(0x1000, frame, 0);
    ZeroBit(k);
  }

  lemma LeafHigh(frame: nat)
    ensures Shift(KernelLeaf(frame), 12) == Shift(UserLeaf(frame), 12) == frame
  {
    hide Shift, Mask, Or, Without;
    Powers();
    SmallPowers();
    MaskSum(1, 1);
    ShiftDivides(0x1000 * frame, 12);
    ShiftDivides(KERNEL_ENTRY, 12);
    ShiftDivides(USER_ENTRY, 12);
    ShiftDivides(Mask(USER), 12);
    ShiftDivides(Mask(DUCK_WRITTEN), 12);
    DivModUnique(0x1000, frame, 0);
    OrShift(0x1000 * frame, KERNEL_ENTRY, 12);
    OrShift(0x1000 * frame, USER_ENTRY, 12);
    OrNothing(frame);
    WithoutShift(Or(0x1000 * frame, USER_ENTRY), Mask(USER), 12);
    WithoutNothing(frame);
    OrShift(Without(Or(0x1000 * frame, USER_ENTRY), Mask(USER)), Mask(DUCK_WRITTEN), 12);
  }

  /** Writing one table's page keeps all others. */
  lemma HoldsNew(words: seq<nat>, words': seq<nat>, tables: Tables, t: nat, entries: seq<nat>)
    requires Holds(words, tables) && |words'| == |words| && 512 * t + 512 <= |words| && |entries| == 512
    requires forall k :: 0 <= k < |words| && !(512 * t <= k < 512 * t + 512) ==> words'[k] == words[k]
    requires words'[512 * t..512 * t + 512] == entries
    ensures Holds(words', tables[t := entries])
  {
    forall u | u in tables[t := entries] && u != t
      ensures |tables[u]| == 512 && 512 * u + 512 <= |words'| && words'[512 * u..512 * u + 512] == tables[u]
    {
      assert words[512 * u..512 * u + 512] == tables[u];
    }
  }

  // ----- growing the tree

  /** The tables when the top has been linked in this order. */
  ghost function Linked(tables: Tables, r: Tree, e511: nat, e510: nat, remap: seq<nat>, e0: nat, e: nat): Tables
    requires r.p4 in tables && r.p3 in tables && |tables[r.p4]| == |tables[r.p3]| == |remap| == 512
    requires r.high != r.p4
  {
    With(With(With(With(tables, r.p4, 511, e511), r.p4, 510, e510)[r.high := remap], r.p4, 0, e0), r.p3, 0, e)
  }

  /** The top of the tree, from zeroed tables. */
  lemma FirstTree(tables: Tables, r: Tree, e511: nat, e510: nat, remap: seq<nat>, e0: nat, e: nat)
    requires |r.p2s| == 1 && r.p1s == [] == r.frames && |{r.p4, r.high, r.p3, r.p2s[0]}| == 4
    requires r.p4 in tables && r.p3 in tables && r.p2s[0] in tables && Sized(tables)
    requires tables[r.p4] == tables[r.p3] == tables[r.p2s[0]] == ZEROS && Remapped(remap)
    requires Points(e511, r.p4, false) && Points(e510, r.high, false)
    requires Points(e0, r.p3, true) && Points(e, r.p2s[0], true)
    ensures r.high != r.p4 && Built(Linked(tables, r, e511, e510, remap, e0, e), r)
  {
    hide Points;
    FourApart(r.p4, r.high, r.p3, r.p2s[0]);
    var linked := Linked(tables, r, e511, e510, remap, e0, e);
    assert linked[r.p4] == ZEROS[511 := e511][510 := e510][0 := e0];
    assert linked[r.p3] == ZEROS[0 := e] && linked[r.p2s[0]] == ZEROS && linked[r.high] == remap;
  }

  lemma FourApart(a: nat, b: nat, c: nat, d: nat)
    requires |{a, b, c, d}| == 4
    ensures a != b && a != c && a != d && b != c && b != d && c != d
  {
  }

  /** A level-2 table for the next GiB. */
  lemma AddP2(tables: Tables, r: Tree, c: nat, e: nat)
    requires Built(tables, r) && c !in tables && Points(e, c, true) && |r.p1s| == 512 * |r.p2s| && |r.p2s| < 511
    ensures Built(With(tables[c := ZEROS], r.p3, |r.p2s|, e), r.(p2s := r.p2s + [c]))
  {
    hide Points, FilledP1, Remapped;
    var t', r' := With(tables[c := ZEROS], r.p3, |r.p2s|, e), r.(p2s := r.p2s + [c]);
    forall h | 0 <= h < 512 * |r'.p2s| ensures P2Entry(t', r', h) {
      if h < 512 * |r.p2s| {
        assert P2Entry(tables, r, h);
      }
    }
  }

  /** A level-1 table for the next 2 MiB, filled for the given frame. */
  lemma AddP1(tables: Tables, r: Tree, c: nat, e: nat, entries: seq<nat>, frame: nat)
    requires Built(tables, r) && c !in tables && Points(e, c, |r.p1s| >= r.kernel) && |r.p1s| < 512 * |r.p2s|
    requires |entries| == 512 && FilledP1(entries, frame, |r.p1s| >= r.kernel)
    ensures var p2 := r.p2s[|r.p1s| / 512];
            p2 in tables &&
            Built(With(tables, p2, |r.p1s| % 512, e)[c := entries],
                  r.(p1s := r.p1s + [c], frames := r.frames + [frame]))
  {
    hide Points, FilledP1, Remapped;
    var n, p2 := |r.p1s|, r.p2s[|r.p1s| / 512];
    var t', r' := With(tables, p2, n % 512, e)[c := entries], r.(p1s := r.p1s + [c], frames := r.frames + [frame]);
    forall h | 0 <= h < 512 * |r'.p2s| ensures P2Entry(t', r', h) {
      assert P2Entry(tables, r, h);
      SamePlace(h, n);
    }
  }

  lemma SamePlace(h: nat, n: nat)
    ensures h / 512 == n / 512 && h % 512 == n % 512 <==> h == n
  {
  }

  /** Where the address of the next 2 MiB leads. */
  lemma NextPlace(tables: Tables, r: Tree)
    requires Built(tables, r) && |r.p1s| < 511 * 512
    ensures var n, v := |r.p1s|, 0x20_0000 * |r.p1s|;
            && Index(4, v) == 0 && Index(3, v) == n / 512 && Index(2, v) == n % 512 && n <= 512 * |r.p2s|
            && tables[r.p4][0] != 0 && ClearPageFlags(tables[r.p4][0]) == 0x1000 * r.p3
            && (if n == 512 * |r.p2s| then tables[r.p3][n / 512] == 0 && |r.p2s| < 511
                else
                  && tables[r.p3][n / 512] != 0 && ClearPageFlags(tables[r.p3][n / 512]) == 0x1000 * r.p2s[n / 512]
                  && r.p2s[n / 512] in tables && tables[r.p2s[n / 512]][n % 512] == 0)
  {
    hide Bit, ClearPageFlags, FilledP1, Remapped;
    var n := |r.p1s|;
    assert 0x20_0000 * n == Compose(0, 0, n / 512, n % 512, 0, 0);
    Composed(0, 0, n / 512, n % 512, 0, 0);
    ZeroBit(0);
    if n < 512 * |r.p2s| {
      assert P2Entry(tables, r, n);
      assert Points(tables[r.p3][n / 512], r.p2s[n / 512], true);
    }
  }

  lemma TopTables(tables: Tables, r: Tree)
    requires Built(tables, r)
    ensures r.p4 in tables && r.p3 in tables && Sized(tables)
  {
    hide Points, Remapped;
  }

  // ----- what a built tree translates

  lemma HeldFrame(words: seq<nat>, tables: Tables, t: nat, i: nat)
    requires Holds(words, tables) && t in tables && i < 512
    ensures 512 * t + i < |words| && words[512 * t + i] == tables[t][i]
  {
    assert words[512 * t..512 * t + 512][i] == words[512 * t + i];
  }

  lemma StepTo(words: seq<nat>, tables: Tables, t: nat, i: nat, c: nat, user: bool)
    requires Holds(words, tables) && t in tables && i < 512 && Points(tables[t][i], c, user)
    ensures Step(words, t, i) == Some(c)
  {
    hide Bit, ClearPageFlags;
    HeldFrame(words, tables, t, i);
  }

  /** Every address below the last table's end walks to its level-1 table and to its frame. */
  lemma BuiltWalk(words: seq<nat>, tables: Tables, r: Tree, h: nat, j: nat, off: nat)
    requires Holds(words, tables) && Built(tables, r) && h < |r.p1s| && j < 512 && off < 0x1000
    ensures var v := 0x20_0000 * h + 0x1000 * j + off;
            && v < 511 * 0x4000_0000 && Indices(v)[3] == j && Recursive(words, r.p4)
            && Follow(words, r.p4, Indices(v)[..3]) == Some(r.p1s[h])
            && Translate(words, r.p4, v) == Some(0x1000 * (512 * r.frames[h] + j) + off)
  {
    hide Points, Leaf, Step, Index, Bit, Remapped;
    var g, i, v := h / 512, h % 512, 0x20_0000 * h + 0x1000 * j + off;
    assert v == Compose(0, 0, g, i, j, off);
    Composed(0, 0, g, i, j, off);
    assert P2Entry(tables, r, h);
    StepTo(words, tables, r.p4, 511, r.p4, false);
    StepTo(words, tables, r.p4, 0, r.p3, true);
    StepTo(words, tables, r.p3, g, r.p2s[g], true);
    StepTo(words, tables, r.p2s[g], i, r.p1s[h], h >= r.kernel);
    FollowThree(words, r.p4, 0, g, i, r.p3, r.p2s[g], r.p1s[h]);
    assert Indices(v)[..3] == [0, g, i];
    LeafFrame(words, tables, r, h, j);
  }

  /** Whether the entry at depth k of the walk for v has a flag. */
  ghost predicate Allows(words: seq<nat>, p4: nat, v: nat, k: nat, bit: nat)
    requires k < 4
  {
    match Follow(words, p4, Indices(v)[..k])
    case None => false
    case Some(t) => 512 * t + Indices(v)[k] < |words| && Bit(words[512 * t + Indices(v)[k]], bit)
  }

  lemma AllowsAt(words: seq<nat>, tables: Tables, p4: nat, v: nat, k: nat, t: nat, bit: nat)
    requires k < 4 && Holds(words, tables) && t in tables && Follow(words, p4, Indices(v)[..k]) == Some(t)
    ensures |tables[t]| == 512 && (Allows(words, p4, v, k, bit) <==> Bit(tables[t][Indices(v)[k]], bit))
  {
    hide Bit, Index, Follow;
    HeldFrame(words, tables, t, Indices(v)[k]);
  }

  /** Writing is allowed at every level.  The user is let through the upper levels for user memory, kept
      out of the kernel's at level 2, and at the start out of all pages at level 1. */
  lemma BuiltAccess(words: seq<nat>, tables: Tables, r: Tree, h: nat, j: nat, off: nat)
    requires Holds(words, tables) && Built(tables, r) && h < |r.p1s| && j < 512 && off < 0x1000
    ensures var v := 0x20_0000 * h + 0x1000 * j + off;
            && (forall k :: 0 <= k < 4 ==> Allows(words, r.p4, v, k, 1))
            && Allows(words, r.p4, v, 0, 2) && Allows(words, r.p4, v, 1, 2)
            && (Allows(words, r.p4, v, 2, 2) <==> h >= r.kernel) && !Allows(words, r.p4, v, 3, 2)
  {
    hide Step, Index, Bit, Remapped, ClearPageFlags, Allows;
    var g, i, v := h / 512, h % 512, 0x20_0000 * h + 0x1000 * j + off;
    assert v == Compose(0, 0, g, i, j, off);
    Composed(0, 0, g, i, j, off);
    assert P2Entry(tables, r, h);
    assert Points(tables[r.p3][g], r.p2s[g], true) && FilledP1(tables[r.p1s[h]], r.frames[h], h >= r.kernel);
    assert Leaf(tables[r.p1s[h]][j], 512 * r.frames[h] + j, h >= r.kernel);
    StepTo(words, tables, r.p4, 0, r.p3, true);
    StepTo(words, tables, r.p3, g, r.p2s[g], true);
    StepTo(words, tables, r.p2s[g], i, r.p1s[h], h >= r.kernel);
    assert Indices(v) == [0, g, i, j];
    FollowPrefixes(words, r.p4, 0, g, i, r.p3, r.p2s[g], r.p1s[h]);
    assert Indices(v)[..0] == [] && Indices(v)[..1] == [0] && Indices(v)[..2] == [0, g] && Indices(v)[..3] == [0, g, i];
    AccessAt(words, tables, r.p4, v, 0, r.p4);
    AccessAt(words, tables, r.p4, v, 1, r.p3);
    AccessAt(words, tables, r.p4, v, 2, r.p2s[g]);
    AccessAt(words, tables, r.p4, v, 3, r.p1s[h]);
  }

  lemma AccessAt(words: seq<nat>, tables: Tables, p4: nat, v: nat, k: nat, t: nat)
    requires k < 4 && Holds(words, tables) && t in tables && Follow(words, p4, Indices(v)[..k]) == Some(t)
    ensures |tables[t]| == 512 && (Allows(words, p4, v, k, 1) <==> Bit(tables[t][Indices(v)[k]], 1))
    ensures Allows(words, p4, v, k, 2) <==> Bit(tables[t][Indices(v)[k]], 2)
  {
    hide Bit, Index, Follow, Allows;
    AllowsAt(words, tables, p4, v, k, t, 1);
    AllowsAt(words, tables, p4, v, k, t, 2);
  }

  lemma FollowPrefixes(words: seq<nat>, p4: nat, i4: nat, i3: nat, i2: nat, p3: nat, p2: nat, p1: nat)
    requires Step(words, p4, i4) == Some(p3) && Step(words, p3, i3) == Some(p2) && Step(words, p2, i2) == Some(p1)
    ensures Follow(words, p4, []) == Some(p4) && Follow(words, p4, [i4]) == Some(p3)
    ensures Follow(words, p4, [i4, i3]) == Some(p2) && Follow(words, p4, [i4, i3, i2]) == Some(p1)
  {
    hide Step;
    assert [i4][1..] == [] && [i4, i3][1..] == [i3] && [i3][1..] == [];
    assert Follow(words, p3, [i3]) == Follow(words, p2, []);
    FollowThree(words, p4, i4, i3, i2, p3, p2, p1);
  }

  /** The remapped address of a physical one below 512 GiB: 1024 GiB below zero. */
  function Remap(paddr: nat): nat
    requires paddr < 0x80_0000_0000
  {
    TWO64 - 0x100_0000_0000 + paddr
  }

  /** The remapping is the identity: the walk for the remapped address of paddr ends at a 1 GiB page
      that starts where paddr's GiB starts. */
  lemma RemapWalk(words: seq<nat>, tables: Tables, r: Tree, paddr: nat)
    requires Holds(words, tables) && Built(tables, r) && paddr < 0x80_0000_0000
    ensures var v, i := Remap(paddr), paddr / 0x4000_0000;
            && Index(4, v) == 510 && Index(3, v) == i && v % 0x4000_0000 == paddr % 0x4000_0000
            && Step(words, r.p4, 510) == Some(r.high) && 512 * r.high + i < |words|
            && var e := words[512 * r.high + i];
            && Bit(e, 0) && Bit(e, 7) && e / 0x4000_0000 * 0x4000_0000 + v % 0x4000_0000 == paddr
  {
    hide Points, Step, Or, Bit, P3Ok, P2Ok, P1Ok, Apart;
    var i := paddr / 0x4000_0000;
    RemapIndex(paddr);
    StepTo(words, tables, r.p4, 510, r.high, false);
    HeldFrame(words, tables, r.high, i);
    RemapEntry(i);
  }

  lemma RemapIndex(paddr: nat)
    requires paddr < 0x80_0000_0000
    ensures var v := Remap(paddr);
            Index(4, v) == 510 && Index(3, v) == paddr / 0x4000_0000 && v % 0x4000_0000 == paddr % 0x4000_0000
  {
    var v, i, low := Remap(paddr), paddr / 0x4000_0000, paddr % 0x4000_0000;
    assert v == 0x80_0000_0000 * (512 * 0xffff + 510) + paddr;
    IndexOf(0x80_0000_0000, 0xffff, 510, paddr);
    assert v == 0x4000_0000 * (512 * 0x1ff_fffe + i) + low;
    IndexOf(0x4000_0000, 0x1ff_fffe, i, low);
    DivModUnique(0x4000_0000, 512 * 0x1ff_fffe + i, low);
  }

  lemma RemapEntry(i: nat)
    ensures var e := Or(0x4000_0000 * i, REMAP_ENTRY);
            Bit(e, 0) && Bit(e, 7) && e / 0x4000_0000 == i
  {
    assert Bit(REMAP_ENTRY, 0) && Shift(REMAP_ENTRY, 7) == 1 && Bit(REMAP_ENTRY, 7);
    RemapEntryBits(i);
    RemapEntryBase(i);
  }

  lemma RemapEntryBits(i: nat)
    requires Bit(REMAP_ENTRY, 0) && Bit(REMAP_ENTRY, 7)
    ensures Bit(Or(0x4000_0000 * i, REMAP_ENTRY), 0) && Bit(Or(0x4000_0000 * i, REMAP_ENTRY), 7)
  {
    hide Bit, Or;
    OrBit(0x4000_0000 * i, REMAP_ENTRY, 0);
    OrBit(0x4000_0000 * i, REMAP_ENTRY, 7);
  }

  lemma RemapEntryBase(i: nat)
    ensures Or(0x4000_0000 * i, REMAP_ENTRY) / 0x4000_0000 == i
  {
    hide Or, Mask;
    Powers();
    OrLow(i, REMAP_ENTRY, 30);
    DivModUnique(0x4000_0000, i, REMAP_ENTRY);
  }

  lemma LeafFrame(words: seq<nat>, tables: Tables, r: Tree, h: nat, j: nat)
    requires Holds(words, tables) && Sized(tables) && P1Ok(tables, r) && h < |r.p1s| && j < 512
    ensures Frame(words, r.p1s[h], j) == Some(512 * r.frames[h] + j)
  {
    hide Bit;
    HeldFrame(words, tables, r.p1s[h], j);
    assert Leaf(tables[r.p1s[h]][j], 512 * r.frames[h] + j, h >= r.kernel);
  }

  lemma FollowThree(words: seq<nat>, t: nat, a: nat, b: nat, c: nat, t1: nat, t2: nat, t3: nat)
    requires Step(words, t, a) == Some(t1) && Step(words, t1, b) == Some(t2) && Step(words, t2, c) == Some(t3)
    ensures Follow(words, t, [a, b, c]) == Some(t3)
  {
    hide Step;
    assert [a, b, c][1..] == [b, c] && [b, c][1..] == [c] && [c][1..] == [];
    assert Follow(words, t2, [c]) == Follow(words, t3, []);
    assert Follow(words, t1, [b, c]) == Follow(words, t2, [c]);
  }

  /** The address that get_P1 computes leads to the entry that maps the page. */
  lemma EntryOfPage(words: seq<nat>, tables: Tables, r: Tree, h: nat, j: nat, off: nat)
    requires Holds(words, tables) && Built(tables, r) && h < |r.p1s| && j < 512 && off < 0x1000
    ensures var v := 0x20_0000 * h + 0x1000 * j + off;
            Translate(words, r.p4, GetP(1, v)) == Some(0x1000 * r.p1s[h] + 8 * j)
    ensures 512 * r.p1s[h] + j < |words| && Leaf(words[512 * r.p1s[h] + j], 512 * r.frames[h] + j, h >= r.kernel)
  {
    hide Points, Leaf, Step, Index, Bit, Follow, Translate, GetP;
    BuiltWalk(words, tables, r, h, j, off);
    RecursiveAddress(words, r.p4, 1, 0x20_0000 * h + 0x1000 * j + off, r.p1s[h]);
    HeldFrame(words, tables, r.p1s[h], j);
    assert FilledP1(tables[r.p1s[h]], r.frames[h], h >= r.kernel);
  }

  // ----- which frames are used

  /** The kernel maps itself; the user's 2 MiB go to available huge pages from tableBreak on, in
      increasing order. */
  ghost predicate FramesOk(r: Tree, available: seq<bool>, tableBreak: nat, limit: nat) {
    && r.kernel <= |r.frames|
    && (forall h :: 0 <= h < r.kernel ==> r.frames[h] == h)
    && (forall h :: r.kernel <= h < |r.frames| ==>
          tableBreak <= r.frames[h] < limit && r.frames[h] < |available| && available[r.frames[h]])
    && (forall h, h' :: r.kernel <= h < h' < |r.frames| ==> r.frames[h] < r.frames[h'])
  }

  lemma AddressParts(v: nat)
    ensures v == 0x20_0000 * (v / 0x20_0000) + 0x1000 * (v / 0x1000 % 512) + v % 0x1000
    ensures v / 0x1000 == 512 * (v / 0x20_0000) + v / 0x1000 % 512
  {
    Digit(v, 0x1000);
  }

  /** The page of the frame that the tree gives for address v. */
  ghost function FrameFor(r: Tree, v: nat): nat
    requires v / 0x20_0000 < |r.frames|
  {
    512 * r.frames[v / 0x20_0000] + v / 0x1000 % 512
  }

  lemma OneAddress(words: seq<nat>, tables: Tables, r: Tree, v: nat)
    requires Holds(words, tables) && Built(tables, r) && v < 0x20_0000 * |r.p1s|
    ensures v / 0x20_0000 < |r.p1s| == |r.frames|
    ensures Translate(words, r.p4, v) == Some(0x1000 * FrameFor(r, v) + v % 0x1000)
    ensures Translate(words, r.p4, GetP(1, v)) == Some(0x1000 * r.p1s[v / 0x20_0000] + 8 * (v / 0x1000 % 512))
  {
    hide Holds, Translate, Built, GetP, Indices, Recursive, Follow, Leaf;
    FrameCount(tables, r);
    AddressParts(v);
    BuiltWalk(words, tables, r, v / 0x20_0000, v / 0x1000 % 512, v % 0x1000);
    EntryOfPage(words, tables, r, v / 0x20_0000, v / 0x1000 % 512, v % 0x1000);
  }

  lemma FrameCount(tables: Tables, r: Tree)
    requires Built(tables, r)
    ensures |r.frames| == |r.p1s|
  {
  }

  /** Every user address translates, and get_P1 of it reaches the entry that does so.  Two addresses
      of different pages have different frames, none of them below the break of the page tables. */
  lemma UserAddresses(words: seq<nat>, tables: Tables, r: Tree, available: seq<bool>, tableBreak: nat, limit: nat,
                      v: nat, v': nat)
    requires Holds(words, tables) && Built(tables, r) && FramesOk(r, available, tableBreak, limit)
    requires 0x20_0000 * r.kernel <= v < 0x20_0000 * |r.p1s| && 0x20_0000 * r.kernel <= v' < 0x20_0000 * |r.p1s|
    ensures Translate(words, r.p4, v).Some? && Translate(words, r.p4, v').Some?
    ensures Translate(words, r.p4, v).value >= 0x20_0000 * tableBreak
    ensures Translate(words, r.p4, v).value / 0x1000 == Translate(words, r.p4, v').value / 0x1000 <==>
            v / 0x1000 == v' / 0x1000
    ensures Translate(words, r.p4, GetP(1, v)) == Some(0x1000 * r.p1s[v / 0x20_0000] + 8 * (v / 0x1000 % 512))
  {
    hide Holds, Translate, Built, GetP, FrameFor, FramesOk;
    OneAddress(words, tables, r, v);
    OneAddress(words, tables, r, v');
    FramesApart(r, available, tableBreak, limit, v, v');
    DivModUnique(0x1000, FrameFor(r, v), v % 0x1000);
    DivModUnique(0x1000, FrameFor(r, v'), v' % 0x1000);
  }

  /** Different pages of the user have different frames, none of which is a page table. */
  lemma FramesApart(r: Tree, available: seq<bool>, tableBreak: nat, limit: nat, v: nat, v': nat)
    requires FramesOk(r, available, tableBreak, limit)
    requires 0x20_0000 * r.kernel <= v < 0x20_0000 * |r.frames| && 0x20_0000 * r.kernel <= v' < 0x20_0000 * |r.frames|
    ensures v / 0x20_0000 < |r.frames| && v' / 0x20_0000 < |r.frames|
    ensures FrameFor(r, v) == FrameFor(r, v') <==> v / 0x1000 == v' / 0x1000
    ensures FrameFor(r, v) >= 512 * tableBreak
  {
    AddressParts(v);
    AddressParts(v');
    var h, h' := v / 0x20_0000, v' / 0x20_0000;
    assert r.frames[h] == r.frames[h'] <==> h == h';
  }
}
