/** Building the page tables: page_table_alloc to init_page_table_4k of lib/memory.cpp. */
module PageTables {
  import opened Machine
  import opened Bits
  import opened PageFlags
  import opened PageWalk
  import opened PageTree
  import opened PageReserve

  class Builder {
    const words: array<nat>        // physical memory, 512 words to the page
    const available: seq<bool>     // by huge page of 512 pages
    const kernel: nat              // kernel_break in huge pages
    const tableBreak: nat          // page_table_break in huge pages
    var next: nat                  // the page where the search for the next table starts

    ghost var tables: Tables
    ghost var tree: Tree

    ghost predicate InPool(t: nat)
      reads this`next
    {
      kernel * 512 <= t < next && t < 512 * tableBreak && t / 512 < |available| && available[t / 512]
    }

    ghost predicate Ok()
      reads this`next, this`tables, words
    {
      && words.Length == 0x40000 * |available| && |available| <= MAX_HUGE && tableBreak <= |available|
      && kernel * 512 <= next && (next % 512 != 0 ==> Usable(available, next / 512))
      && Holds(words[..], tables) && (forall t :: t in tables ==> InPool(t))
    }

    /** The pages still there for tables. */
    ghost function Left(): nat
      reads this`next
    {
      PoolFrom(available, next, 512 * tableBreak)
    }

    constructor (words: array<nat>, available: seq<bool>, kernel: nat, tableBreak: nat)
      requires words.Length == 0x40000 * |available| && |available| <= MAX_HUGE && tableBreak <= |available|
      ensures Ok() && tables == map[] && Left() == PoolFrom(available, 512 * kernel, 512 * tableBreak)
      ensures this.words == words && this.available == available && this.kernel == kernel
      ensures this.tableBreak == tableBreak
    {
      this.words, this.available, this.kernel, this.tableBreak := words, available, kernel, tableBreak;
      next, tables := kernel * 512, map[];
    }

    /** page_table_alloc: the next page of an available huge page.  It fails, by the assertion on
        page_table_break, exactly when none is left. */
    method Alloc() returns (t: nat, ok: bool)
      requires Ok()
      modifies this`next
      ensures ok <==> old(Left()) > 0
      ensures ok ==> Ok() && t !in tables && InPool(t) && Left() == old(Left()) - 1
    {
      hide Holds;
      while next / 512 < |available| && !available[next / 512]
        invariant Ok() && old(next) <= next && Left() == old(Left())
        decreases 512 * |available| - next
      {
        SkipHuge(available, next, 512 * tableBreak);
        next := next + 512;
      }
      t, next := next, next + 1;
      ok := t / 512 < |available| && next <= 512 * tableBreak;
    }

    method ZeroTable(t: nat)
      requires 512 * t + 512 <= words.Length
      modifies words
      ensures forall k :: 0 <= k < words.Length ==>
                words[k] == if 512 * t <= k < 512 * t + 512 then 0 else old(words[k])
    {
      for i := 0 to 512
        invariant forall k :: 0 <= k < words.Length ==>
                  words[k] == if 512 * t <= k < 512 * t + i then 0 else old(words[k])
      {
        words[512 * t + i] := 0;
      }
    }

    method AllocZeroed() returns (t: nat, ok: bool)
      requires Ok()
      modifies this`next, this`tables, words
      ensures ok <==> old(Left()) > 0
      ensures ok ==> Ok() && t !in old(tables) && InPool(t) && tables == old(tables)[t := ZEROS]
      ensures ok ==> Left() == old(Left()) - 1
    {
      hide PoolFrom;
      t, ok := Alloc();
      if ok {
        ghost var before := words[..];
        ZeroTable(t);
        HoldsNew(before, words[..], tables, t, ZEROS);
        tables := tables[t := ZEROS];
      }
    }

    /** PTE(t, i) = e */
    method SetEntry(t: nat, i: nat, e: nat)
      requires Ok() && t in tables && i < 512
      modifies this`tables, words
      ensures Ok() && i < |old(tables)[t]| && tables == With(old(tables), t, i, e)
    {
      ghost var before, entries := words[..], tables[t];
      words[512 * t + i] := e;
      assert words[512 * t..512 * t + 512] == entries[i := e];
      HoldsNew(before, words[..], tables, t, entries[i := e]);
      tables := With(tables, t, i, e);
    }

    /** The loop over one level-1 table. */
    method WriteLeaves(t: nat, frame: nat, user: bool)
      requires 512 * t + 512 <= words.Length && frame < MAX_HUGE
      modifies words
      ensures forall k :: 0 <= k < words.Length && !(512 * t <= k < 512 * t + 512) ==> words[k] == old(words[k])
      ensures FilledP1(words[512 * t..512 * t + 512], frame, user)
    {
      hide Leaf, KernelLeaf, UserLeaf;
      for j := 0 to 512
        invariant forall k :: 0 <= k < words.Length && !(512 * t <= k < 512 * t + j) ==> words[k] == old(words[k])
        invariant forall k :: 512 * t <= k < 512 * t + j ==> Leaf(words[k], 512 * frame + k - 512 * t, user)
      {
        var e := if user then UserLeaf(512 * frame + j) else KernelLeaf(512 * frame + j);
        LeafEntry(e, 512 * frame + j, user);
        words[512 * t + j] := e;
      }
    }

    /** Maps the 512 pages of one 2 MiB. */
    method FillP1(t: nat, frame: nat, user: bool)
      requires Ok() && t in tables && frame < MAX_HUGE
      modifies this`tables, words
      ensures Ok() && t in tables && |tables[t]| == 512 && tables == old(tables)[t := tables[t]]
      ensures FilledP1(tables[t], frame, user)
    {
      hide FilledP1, InPool;
      ghost var before := words[..];
      WriteLeaves(t, frame, user);
      ghost var entries := words[512 * t..512 * t + 512];
      HoldsNew(before, words[..], tables, t, entries);
      tables := tables[t := entries];
    }

    method WriteRemap(t: nat)
      requires 512 * t + 512 <= words.Length
      modifies words
      ensures forall k :: 0 <= k < words.Length && !(512 * t <= k < 512 * t + 512) ==> words[k] == old(words[k])
      ensures Remapped(words[512 * t..512 * t + 512])
    {
      hide Or;
      for i := 0 to 512
        invariant forall k :: 0 <= k < words.Length && !(512 * t <= k < 512 * t + i) ==> words[k] == old(words[k])
        invariant forall k :: 512 * t <= k < 512 * t + i ==> words[k] == Or(0x4000_0000 * (k - 512 * t), REMAP_ENTRY)
      {
        words[512 * t + i] := Or(0x4000_0000 * i, REMAP_ENTRY);
      }
    }

    /** The 1 GiB pages of the remapping. */
    method FillRemap(t: nat)
      requires Ok() && t in tables
      modifies this`tables, words
      ensures Ok() && t in tables && |tables[t]| == 512 && tables == old(tables)[t := tables[t]] && Remapped(tables[t])
    {
      hide Remapped, InPool;
      ghost var before := words[..];
      WriteRemap(t);
      ghost var entries := words[512 * t..512 * t + 512];
      HoldsNew(before, words[..], tables, t, entries);
      tables := tables[t := entries];
    }

    /** PTE(t, i) = the page of table c with the given flags. */
    method Link(t: nat, i: nat, c: nat, flags: nat) returns (e: nat)
      requires Ok() && t in tables && i < 512 && c < FRAME_LIMIT
      requires flags < 512 && Bit(flags, 0) && Bit(flags, 1) && !Bit(flags, 7)
      modifies this`tables, words
      ensures Ok() && i < |old(tables)[t]| && tables == With(old(tables), t, i, e)
      ensures Points(e, c, Bit(flags, 2)) && e != 0
    {
      hide Points, Or, Bit;
      TableEntry(c, flags);
      e := Or(0x1000 * c, flags);
      SetEntry(t, i, e);
    }

    method AllocTop() returns (p4: nat, high: nat, p3: nat, p2: nat, ok: bool)
      requires Ok() && tables == map[]
      modifies this`next, this`tables, words
      ensures ok <==> old(Left()) >= 4
      ensures ok ==> Ok() && InPool(p4) && InPool(high) && InPool(p3) && InPool(p2) && Left() == old(Left()) - 4
      ensures ok ==> |{p4, high, p3, p2}| == 4 && tables == map[p4 := ZEROS, high := ZEROS, p3 := ZEROS, p2 := ZEROS]
    {
      hide Ok, InPool, PoolFrom;
      high, p3, p2 := 0, 0, 0;
      p4, ok := AllocZeroed();
      if !ok { return; }
      high, ok := AllocZeroed();
      if !ok { return; }
      p3, ok := AllocZeroed();
      if !ok { return; }
      p2, ok := AllocZeroed();
      if !ok { return; }
      AllInPool();
    }

    lemma AllInPool()
      requires Ok()
      ensures forall t :: t in tables ==> InPool(t)
    {
    }

    /** init_empty_kernel_page_table up to the level-2 table of the first GiB. */
    method InitTop() returns (p4: nat, p2: nat, ok: bool)
      requires Ok() && tables == map[]
      modifies this`next, this`tables, this`tree, words
      ensures ok <==> old(Left()) >= TablesFor(0)
      ensures ok ==> Ok() && Built(tables, tree) && Left() == old(Left()) - TablesFor(0)
      ensures ok ==> tree == Tree(kernel, p4, tree.high, tree.p3, [p2], [], [])
    {
      hide Points, Ok, With, Built, InPool, PoolFrom;
      var high, p3;
      p4, high, p3, p2, ok := AllocTop();
      if ok {
        FourApart(p4, high, p3, p2);
        LinkTop(p4, high, p3, p2);
      }
    }

    method LinkTop(p4: nat, high: nat, p3: nat, p2: nat)
      requires Ok() && InPool(p4) && InPool(high) && InPool(p3) && InPool(p2)
      requires |{p4, high, p3, p2}| == 4 && tables == map[p4 := ZEROS, high := ZEROS, p3 := ZEROS, p2 := ZEROS]
      modifies this`tables, this`tree, words
      ensures Ok() && Built(tables, tree) && tree == Tree(kernel, p4, high, p3, [p2], [], [])
    {
      hide Points, Ok, Built, Remapped;
      FlagBits();
      FourApart(p4, high, p3, p2);
      PoolLimit(p4);
      PoolLimit(high);
      PoolLimit(p3);
      PoolLimit(p2);
      ghost var t0 := tables;
      var e511 := Link(p4, 511, p4, KERNEL_ENTRY);
      var e510 := Link(p4, 510, high, KERNEL_ENTRY);
      FillRemap(high);
      ghost var remap := tables[high];
      var e0 := Link(p4, 0, p3, USER_ENTRY);
      var e := Link(p3, 0, p2, USER_ENTRY);
      tree := Tree(kernel, p4, high, p3, [p2], [], []);
      FirstTree(t0, tree, e511, e510, remap, e0, e);
    }

    /** PTE_create, then the page of the table that the entry names. */
    method Create(t: nat, i: nat) returns (c: nat, ok: bool, ghost e: nat)
      requires Ok() && t in tables && i < 512
      modifies this`next, this`tables, words
      ensures |old(tables)[t]| == 512 && (ok ==> Ok())
      ensures ok <==> old(Left()) >= if old(tables)[t][i] == 0 then 1 else 0
      ensures ok ==> Left() == old(Left()) - if old(tables)[t][i] == 0 then 1 else 0
      ensures ok && old(tables)[t][i] != 0 ==> tables == old(tables) && c == ClearPageFlags(old(tables)[t][i]) / 0x1000
      ensures ok && old(tables)[t][i] == 0 ==>
                && c !in old(tables) && t in old(tables) && Points(e, c, true)
                && tables == With(old(tables)[c := ZEROS], t, i, e)
    {
      hide InPool, Points, ClearPageFlags, PoolFrom;
      HeldFrame(words[..], tables, t, i);
      ok, e := true, 0;
      if words[512 * t + i] == 0 {
        c, ok := AllocZeroed();
        if ok {
          PoolLimit(c);
          FlagBits();
          var entry := Link(t, i, c, USER_ENTRY);
          e := entry;
        }
      } else {
        c := ClearPageFlags(words[512 * t + i]) / 0x1000;
      }
    }

    /** The tree is complete for what it maps, and Left() has been paid for it. */
    ghost predicate Grown(total: nat)
      reads this`next, this`tables, this`tree, words
    {
      && Ok() && Built(tables, tree) && |tree.p2s| == P2Count(|tree.p1s|)
      && Left() + TablesFor(|tree.p1s|) == total
    }

    /** The level-2 table for vaddr, new at the start of each GiB. */
    method FindP2(p4: nat, vaddr: nat) returns (p2: nat, ok: bool)
      requires Ok() && Built(tables, tree) && p4 == tree.p4 && vaddr == 0x20_0000 * |tree.p1s| && |tree.p1s| < 511 * 512
      modifies this`next, this`tables, this`tree, words
      ensures ok ==> Ok() && Built(tables, tree) && |tree.p1s| < 512 * |tree.p2s| && p2 == tree.p2s[|tree.p1s| / 512]
      ensures ok ==> tree == old(tree).(p2s := tree.p2s)
      ensures var new_ := if |old(tree).p1s| == 512 * |old(tree).p2s| then 1 else 0;
              (ok <==> old(Left()) >= new_) &&
              (ok ==> |tree.p2s| == |old(tree).p2s| + new_ && Left() == old(Left()) - new_)
    {
      hide Points, Ok, Built, ClearPageFlags, Index, PoolFrom;
      NextPlace(tables, tree);
      TopTables(tables, tree);
      p2 := 0;
      var p3;
      ghost var e;
      p3, ok, e := Create(p4, Index(4, vaddr));
      ghost var t0, n := tables, |tree.p1s|;
      p2, ok, e := Create(p3, Index(3, vaddr));
      if ok && n == 512 * |tree.p2s| {
        AddP2(t0, tree, p2, e);
        tree := tree.(p2s := tree.p2s + [p2]);
      }
    }

    /** One round of the loop of init_page_table_4k. */
    method MapUser(p4: nat, vaddr: nat, frame: nat, ghost total: nat) returns (ok: bool)
      requires Grown(total) && p4 == tree.p4 && vaddr == 0x20_0000 * |tree.p1s| && |tree.p1s| < 511 * 512
      requires tree.kernel <= |tree.p1s| && frame < MAX_HUGE
      modifies this`next, this`tables, this`tree, words
      ensures ok <==> TablesFor(|old(tree).p1s| + 1) <= total
      ensures ok ==> Grown(total) && |tree.p1s| == |old(tree).p1s| + 1
      ensures ok ==> tree == old(tree).(p2s := tree.p2s, p1s := tree.p1s, frames := old(tree).frames + [frame])
    {
      hide Points, Ok, Built, ClearPageFlags, Index, FilledP1, PoolFrom;
      P2Next(|tree.p1s|);
      var p2, p1;
      ghost var e;
      p2, ok := FindP2(p4, vaddr);
      if !ok { return; }
      NextPlace(tables, tree);
      TopTables(tables, tree);
      ghost var t0 := tables;
      p1, ok, e := Create(p2, Index(2, vaddr));
      if !ok { return; }
      FillP1(p1, frame, true);
      AddP1(t0, tree, p1, e, tables[p1], frame);
      assert tables == With(t0, p2, |tree.p1s| % 512, e)[p1 := tables[p1]];
      tree := tree.(p1s := tree.p1s + [p1], frames := tree.frames + [frame]);
    }

    /** The i-th 2 MiB of the kernel, mapped to itself. */
    method MapKernel(p2: nat, i: nat, ghost total: nat) returns (ok: bool)
      requires Grown(total) && tree.p2s == [p2] && i == |tree.p1s| < tree.kernel <= 512
      modifies this`next, this`tables, this`tree, words
      ensures ok <==> TablesFor(i + 1) <= total
      ensures ok ==> Grown(total) && |tree.p1s| == i + 1
      ensures ok ==> tree == old(tree).(p1s := tree.p1s, frames := old(tree).frames + [i])
    {
      hide Points, Ok, Built, InPool, FilledP1, PoolFrom;
      ghost var t0 := tables;
      NextPlace(t0, tree);
      TopTables(t0, tree);
      var p1;
      p1, ok := AllocZeroed();
      if !ok { return; }
      var e := LinkKernel(p2, i, p1);
      FillP1(p1, i, false);
      AddP1(t0, tree, p1, e, tables[p1], i);
      assert tables == With(t0, p2, i, e)[p1 := tables[p1]];
      tree := tree.(p1s := tree.p1s + [p1], frames := tree.frames + [i]);
    }

    method LinkKernel(p2: nat, i: nat, p1: nat) returns (e: nat)
      requires Ok() && p2 in tables && i < 512 && InPool(p1)
      modifies this`tables, words
      ensures Ok() && i < |old(tables)[p2]| && tables == With(old(tables), p2, i, e) && Points(e, p1, false)
    {
      hide Points, Ok, InPool;
      FlagBits();
      PoolLimit(p1);
      e := Link(p2, i, p1, KERNEL_ENTRY);
    }

    /** init_page_table_4k.  The break is where user memory ends.  Not ok is a failed assertion, and that
        happens exactly when the tables do not fit in the pages reserved for them. */
    method Init() returns (p4: nat, vaddrBreak: nat, ok: bool)
      requires Ok() && tables == map[] && kernel <= 512
      modifies this`next, this`tables, this`tree, words
      ensures ok <==> TablesFor(kernel + HugeFrom(available, tableBreak, |available|)) <= old(Left())
      ensures ok ==> Ok() && Built(tables, tree) && tree.p4 == p4 && tree.kernel == kernel
      ensures ok ==> FramesOk(tree, available, tableBreak, |available|) && vaddrBreak == 0x20_0000 * |tree.p1s|
      ensures ok ==> |tree.p1s| == kernel + HugeFrom(available, tableBreak, |available|)
    {
      hide Points, Ok, Built, InPool, PoolFrom, P2Count, TablesFor, HugeFrom;
      ghost var total, need := Left(), kernel + HugeFrom(available, tableBreak, |available|);
      vaddrBreak := 0;
      var p2;
      TablesGrow(0, need);
      NoTables();
      p4, p2, ok := InitTop();
      if !ok { return; }
      for i := 0 to kernel
        invariant Grown(total) && tree.p4 == p4 && tree.p2s == [p2] && tree.kernel == kernel
        invariant |tree.p1s| == |tree.frames| == i && forall h :: 0 <= h < i ==> tree.frames[h] == h
      {
        TablesGrow(i + 1, need);
        ok := MapKernel(p2, i, total);
        if !ok { return; }
      }
      BreakAbove();
      vaddrBreak, ok := MapAvailable(p4, 0x20_0000 * kernel, total);
    }

    method MapAvailable(p4: nat, vaddr: nat, ghost total: nat) returns (vaddrBreak: nat, ok: bool)
      requires Grown(total) && tree.p4 == p4 && tree.kernel == kernel == |tree.p1s| <= tableBreak
      requires vaddr == 0x20_0000 * kernel && FramesOk(tree, available, tableBreak, tableBreak)
      modifies this`next, this`tables, this`tree, words
      ensures ok <==> TablesFor(kernel + HugeFrom(available, tableBreak, |available|)) <= total
      ensures ok ==> Grown(total) && tree.p4 == p4 && tree.kernel == kernel
      ensures ok ==> FramesOk(tree, available, tableBreak, |available|) && vaddrBreak == 0x20_0000 * |tree.p1s|
      ensures ok ==> |tree.p1s| == kernel + HugeFrom(available, tableBreak, |available|)
    {
      hide Points, Ok, Built, InPool, PoolFrom, P2Count, TablesFor;
      PoolShape();
      vaddrBreak, ok := vaddr, true;
      ghost var need := kernel + HugeFrom(available, tableBreak, |available|);
      for i := tableBreak to |available|
        invariant Grown(total) && tree.p4 == p4 && tree.kernel == kernel <= |tree.p1s| <= i
        invariant FramesOk(tree, available, tableBreak, i) && vaddrBreak == 0x20_0000 * |tree.p1s|
        invariant |tree.p1s| + HugeFrom(available, i, |available|) == need
      {
        if available[i] {
          TablesGrow(|tree.p1s| + 1, need);
          ok := MapUser(p4, vaddrBreak, i, total);
          if !ok { return; }
          vaddrBreak := vaddrBreak + 0x20_0000;
        }
      }
      assert HugeFrom(available, |available|, |available|) == 0;
    }

    /** Every user address translates, get_P1 of it reaches the entry that does so, two addresses of
        different pages have different frames, and no frame is a page table. */
    lemma UserPages(v: nat, v': nat)
      requires Ok() && Built(tables, tree) && FramesOk(tree, available, tableBreak, |available|)
      requires 0x20_0000 * tree.kernel <= v < 0x20_0000 * |tree.p1s|
      requires 0x20_0000 * tree.kernel <= v' < 0x20_0000 * |tree.p1s|
      ensures var a, b := Translate(words[..], tree.p4, v), Translate(words[..], tree.p4, v');
              && a.Some? && b.Some? && (a.value / 0x1000 == b.value / 0x1000 <==> v / 0x1000 == v' / 0x1000)
              && a.value / 0x1000 !in tables
      ensures Translate(words[..], tree.p4, GetP(1, v)) ==
              Some(0x1000 * tree.p1s[v / 0x20_0000] + 8 * (v / 0x1000 % 512))
    {
      hide Translate, Built, GetP, FramesOk;
      UserAddresses(words[..], tables, tree, available, tableBreak, |available|, v, v');
    }

    lemma PoolShape()
      requires Ok()
      ensures |available| <= MAX_HUGE && tableBreak <= |available|
    {
    }

    /** The tables lie below the break, so it is above the kernel. */
    lemma BreakAbove()
      requires Ok() && Built(tables, tree)
      ensures kernel < tableBreak && |tree.frames| == |tree.p1s|
    {
      assert InPool(tree.p4);
    }

    lemma PoolLimit(t: nat)
      requires Ok() && InPool(t)
      ensures t < FRAME_LIMIT
    {
    }
  }

  /** init_page_tables: reserve, then build.  It succeeds exactly when the reservation suffices for the
      number of available huge pages and is found among as many huge pages from 0 on. */
  method InitPageTables(words: array<nat>, available: seq<bool>, kernel: nat, n: nat)
    returns (b: Builder, p4: nat, vaddrBreak: nat, ok: bool)
    requires words.Length == 0x40000 * |available| && |available| <= MAX_HUGE && kernel <= 512
    requires n == HugeFrom(available, 0, |available|) <= |available|
    requires forall h :: 0 <= h < kernel ==> !Usable(available, h)
    modifies words
    ensures ok <==> HugeFrom(available, 0, n) >= Reserve(n) && Suffices(n, kernel)
    ensures ok ==>
              && b.Ok() && Built(b.tables, b.tree) && b.tree.p4 == p4 && b.tree.kernel == kernel
              && b.words == words && b.available == available && FramesOk(b.tree, available, b.tableBreak, |available|)
              && vaddrBreak == 0x20_0000 * |b.tree.p1s| == 0x20_0000 * (kernel + n - Reserve(n))
  {
    hide PoolFrom, HugeFrom, Built, TablesFor, Reserve;
    var brk := TableBreak(available, n);
    b := new Builder(words, available, kernel, brk);
    HugeBelow(available, kernel, n, brk);
    p4, vaddrBreak, ok := b.Init();
  }

  /** What TableBreak finds, for the builder. */
  lemma HugeBelow(available: seq<bool>, kernel: nat, n: nat, brk: nat)
    requires n == HugeFrom(available, 0, |available|) && brk <= n <= |available|
    requires forall h :: 0 <= h < kernel ==> !Usable(available, h)
    requires if HugeFrom(available, 0, n) < Reserve(n) then brk == 0 else HugeFrom(available, 0, brk) == Reserve(n)
    ensures var u := HugeFrom(available, brk, |available|);
            TablesFor(kernel + u) <= PoolFrom(available, 512 * kernel, 512 * brk) <==>
            HugeFrom(available, 0, n) >= Reserve(n) && Suffices(n, kernel)
    ensures HugeFrom(available, 0, n) >= Reserve(n) ==> HugeFrom(available, brk, |available|) == n - Reserve(n) >= 0
  {
    hide Reserve, Usable;
    if HugeFrom(available, 0, n) >= Reserve(n) {
      if brk < kernel {
        NoHuge(available, 0, brk);
      }
      ReservedRoom(available, kernel, brk);
      HugeSplit(available, 0, n, |available|);
    }
  }

  lemma FlagBits()
    ensures Bit(KERNEL_ENTRY, 0) && Bit(KERNEL_ENTRY, 1) && !Bit(KERNEL_ENTRY, 2) && !Bit(KERNEL_ENTRY, 7)
    ensures Bit(USER_ENTRY, 0) && Bit(USER_ENTRY, 1) && Bit(USER_ENTRY, 2) && !Bit(USER_ENTRY, 7)
  {
    assert Shift(KERNEL_ENTRY, 7) == 0 && Shift(USER_ENTRY, 7) == 0;
  }

  lemma P2Next(n: nat)
    ensures P2Count(n + 1) == P2Count(n) + if n == 512 * P2Count(n) then 1 else 0
    ensures n <= 512 * P2Count(n)
  {
  }

  lemma NoTables()
    ensures P2Count(0) == 1 && TablesFor(0) == 4
  {
  }
}
