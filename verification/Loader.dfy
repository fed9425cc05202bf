/** load_elf32 and run of lib/elf.cpp: what they do to page flags and contents. */
module Loader {
  import opened Machine
  import opened Bits
  import opened PageFlags
  import opened UserMemory
  import opened LoaderSpec

  datatype Outcome = Rejected | Faulted | Loaded

  /** The lowest address and the highest end of the segments. */
  method Span(segments: seq<Segment>) returns (ok: bool, lo: nat, hi: nat)
    requires segments != []
    ensures ok <==> forall i :: 0 <= i < |segments| ==> |segments[i].data| <= segments[i].memsz
    ensures ok ==> (exists i :: 0 <= i < |segments| && segments[i].vaddr == lo)
    ensures ok ==> (exists i :: 0 <= i < |segments| && segments[i].vaddr + segments[i].memsz == hi)
    ensures ok ==>
              forall i :: 0 <= i < |segments| ==> lo <= segments[i].vaddr && segments[i].vaddr + segments[i].memsz <= hi
  {
    lo, hi := segments[0].vaddr, segments[0].vaddr + segments[0].memsz;
    for i := 0 to |segments|
      invariant forall k :: 0 <= k < i ==> |segments[k].data| <= segments[k].memsz
      invariant exists k :: 0 <= k < |segments| && segments[k].vaddr == lo
      invariant exists k :: 0 <= k < |segments| && segments[k].vaddr + segments[k].memsz == hi
      invariant forall k :: 0 <= k < i ==> lo <= segments[k].vaddr && segments[k].vaddr + segments[k].memsz <= hi
    {
      var s := segments[i];
      if s.memsz < |s.data| {
        return false, lo, hi;
      }
      if s.vaddr < lo {
        lo := s.vaddr;
      }
      if s.vaddr + s.memsz > hi {
        hi := s.vaddr + s.memsz;
      }
    }
    ok := true;
  }

  /** The checks of load_elf32. */
  method Check(segments: seq<Segment>, c: Config, userFirst: nat, userBreak: nat) returns (ok: bool)
    ensures ok <==> Admissible(segments, c, userFirst, userBreak)
  {
    if segments == [] {
      return false;
    }
    var sizes, lo, hi := Span(segments);
    var minPage, maxPage, limit := lo / PAGE_SIZE, PageUp(hi), PageUp(c.memoryLimit);
    ok := sizes && minPage >= userFirst && minPage < maxPage <= userBreak && limit >= maxPage - minPage + 1
      && minPage == START && LayoutOf(c).end <= userBreak && LayoutOf(c).end * PAGE_SIZE <= USERSPACE32;
    if ok {
      forall i | 0 <= i < |segments| ensures SegmentOk(segments[i], c) {
      }
    }
  }

  /** Copies one more chunk. */
  method PutChunk(m: Memory, ghost z: seq<byte>, ghost done: seq<Chunk>, chunk: Chunk)
    requires m.Shape() && m.Tidy() && |z| == m.mem.Length && Fit(done, |z|) && m.mem[..] == Puts(z, done)
    requires chunk.at + |chunk.data| <= m.mem.Length
    modifies m.mem, m.entries
    ensures m.Tidy() && Fit(done + [chunk], |z|) && m.mem[..] == Puts(z, done + [chunk])
    ensures SameAccess(old(m.entries[..]), m.entries[..])
    ensures KeptFrom(old(m.entries[..]), m.entries[..], PageUp(chunk.at + |chunk.data|))
  {
    hide Memory.Tidy, Puts, Put, AccessOf;
    PutsMore(z, done, chunk);
    m.CopyMarked(chunk.at, chunk.data);
  }

  method CopySegments(m: Memory, segments: seq<Segment>, ghost z: seq<byte>, ghost top: nat)
    requires m.Shape() && m.Tidy() && |z| == m.mem.Length && m.mem[..] == z && top * PAGE_SIZE <= m.mem.Length
    requires forall i :: 0 <= i < |segments| ==> segments[i].vaddr + |segments[i].data| <= top * PAGE_SIZE
    modifies m.mem, m.entries
    ensures m.Tidy() && Fit(SegmentChunks(segments), |z|) && m.mem[..] == Puts(z, SegmentChunks(segments))
    ensures SameAccess(old(m.entries[..]), m.entries[..]) && KeptFrom(old(m.entries[..]), m.entries[..], top)
  {
    hide Memory.Tidy, Put, AccessOf;
    for i := 0 to |segments|
      invariant m.Tidy() && Fit(SegmentChunks(segments[..i]), |z|) && m.mem[..] == Puts(z, SegmentChunks(segments[..i]))
      invariant SameAccess(old(m.entries[..]), m.entries[..]) && KeptFrom(old(m.entries[..]), m.entries[..], top)
    {
      var chunk := Chunk(segments[i].vaddr, segments[i].data);
      assert SegmentChunks(segments[..i + 1]) == SegmentChunks(segments[..i]) + [chunk];
      if |chunk.data| != 0 {
        PutChunk(m, z, SegmentChunks(segments[..i]), chunk);
      } else {
        PutsMore(z, SegmentChunks(segments[..i]), chunk);
        PutNothing(m.mem[..], chunk.at);
      }
    }
    assert segments[..|segments|] == segments;
  }

  const KERNEL_FLAGS: seq<nat> := [PRESENT, WRITABLE]
  const USER_WRITABLE: seq<nat> := [PRESENT, USER, WRITABLE, NO_EXECUTE]
  const USER_READONLY: seq<nat> := [PRESENT, USER, NO_EXECUTE]

  /** Hands the region to the program and clears what earlier programs wrote in it. */
  method PrepareRegion(m: Memory, end: nat)
    requires m.Shape() && m.Tidy() && m.userFirst <= START <= end <= m.userBreak
    modifies m.mem, m.entries
    ensures m.Tidy() && m.mem[..] == Zeroed(old(m.mem[..]), START * PAGE_SIZE, end * PAGE_SIZE)
    ensures RegionOpened(old(m.entries[..]), m.entries[..], end, m.userFirst, m.userBreak)
  {
    hide Memory.Tidy, Zeroed, Reset, AccessOf;
    m.ResetFlags(m.userFirst, START, KERNEL_FLAGS);
    m.ResetFlags(START, end, USER_WRITABLE);
    m.ResetFlags(end, m.userBreak, KERNEL_FLAGS);
    forall p | m.userFirst <= p < m.userBreak
      ensures AccessOf(m.entries[p]) == if START <= p < end then READ_WRITE else KERNEL_ONLY
    {
      EntryAccess(old(m.entries[p]), if START <= p < end then USER_WRITABLE else KERNEL_FLAGS);
    }
    m.ClearWritten(START, end);
  }

  /** Input that the program may only read. */
  method CopyReadOnly(m: Memory, first: nat, last: nat, data: seq<byte>, ghost z: seq<byte>, ghost done: seq<Chunk>)
    requires m.Shape() && m.Tidy() && |z| == m.mem.Length && Fit(done, |z|) && m.mem[..] == Puts(z, done)
    requires first <= last <= m.entries.Length && first + PageUp(|data|) == last
    modifies m.mem, m.entries
    ensures m.Tidy() && Fit(done + [Chunk(first * PAGE_SIZE, data)], |z|)
    ensures m.mem[..] == Puts(z, done + [Chunk(first * PAGE_SIZE, data)])
    ensures KeptFrom(old(m.entries[..]), m.entries[..], last)
    ensures forall p :: 0 <= p < m.entries.Length ==>
              AccessOf(m.entries[p]) == if first <= p < last then READ_ONLY else AccessOf(old(m.entries[p]))
  {
    hide Memory.Tidy, Puts, Put, Reset, Fit, AccessOf;
    PutChunk(m, z, done, Chunk(first * PAGE_SIZE, data));
    label copied:
    m.ResetFlags(first, last, USER_READONLY);
    forall p | first <= p < last ensures AccessOf(m.entries[p]) == READ_ONLY {
      EntryAccess(old@copied(m.entries[p]), USER_READONLY);
    }
  }

  method CopyInputs(m: Memory, segments: seq<Segment>, c: Config, ghost z: seq<byte>)
    requires m.Shape() && m.Tidy() && |z| == m.mem.Length && m.mem[..] == z && LayoutOf(c).end <= m.userBreak
    requires forall i :: 0 <= i < |segments| ==> segments[i].vaddr + |segments[i].data| <= LayoutOf(c).end * PAGE_SIZE
    requires c.ob.Given? ==> |c.ob.data| == c.obSize
    modifies m.mem, m.entries
    ensures m.Tidy() && Fit(InputChunks(segments, c), |z|) && m.mem[..] == Puts(z, InputChunks(segments, c))
    ensures InputsClosed(old(m.entries[..]), m.entries[..], c)
  {
    hide Memory.Tidy, Puts, Put, Reset, SegmentChunks, Fit, AccessOf, LayoutOf;
    var l := LayoutOf(c);
    LayoutSizes(c);
    CopySegments(m, segments, z, l.end);
    ghost var done := SegmentChunks(segments);
    CopyReadOnly(m, l.loadBreak, l.stdinBreak, c.stdin, z, done);
    done := done + [Chunk(l.loadBreak * PAGE_SIZE, c.stdin)];
    CopyReadOnly(m, l.stderrBreak, l.ibBreak, c.ib, z, done);
    done := done + [Chunk(l.stderrBreak * PAGE_SIZE, c.ib)];
    if c.ob.Given? {
      PutChunk(m, z, done, Chunk(l.ibBreak * PAGE_SIZE, c.ob.data));
    }
  }

  /** The image of the header behind the region, and the start of the stack. */
  method CopyImageAndStack(m: Memory, l: Layout, image: seq<byte>, stack: seq<byte>, ghost z: seq<byte>,
                           ghost done: seq<Chunk>)
    requires m.Shape() && m.Tidy() && |z| == m.mem.Length && Fit(done, |z|) && m.mem[..] == Puts(z, done)
    requires l.loadBreak <= l.end < m.entries.Length && l.loadBreak > 0 && 0 < |image| <= PAGE_SIZE
    requires |stack| <= PAGE_SIZE
    modifies m.mem, m.entries
    ensures m.Tidy()
    ensures var all := done + [Chunk(l.end * PAGE_SIZE, image)] + [Chunk(l.loadBreak * PAGE_SIZE - |stack|, stack)];
            Fit(all, |z|) && m.mem[..] == Puts(z, all)
    ensures ImageShown(old(m.entries[..]), m.entries[..], l.end)
  {
    hide Memory.Tidy, Puts, Put, Reset, Fit, AccessOf;
    CopyReadOnly(m, l.end, l.end + 1, image, z, done);
    PutChunk(m, z, done + [Chunk(l.end * PAGE_SIZE, image)], Chunk(l.loadBreak * PAGE_SIZE - |stack|, stack));
  }

  /** The flags of one segment. */
  method ProtectSegment(m: Memory, s: Segment)
    requires m.Shape() && m.Tidy() && PageUp(s.vaddr + s.memsz) <= m.entries.Length
    modifies m.entries
    ensures m.Tidy() && KeptFrom(old(m.entries[..]), m.entries[..], PageUp(s.vaddr + s.memsz))
    ensures forall p :: 0 <= p < m.entries.Length ==>
              AccessOf(m.entries[p]) ==
              if Covers(s, p) then Access(true, true, s.writable, s.executable) else AccessOf(old(m.entries[p]))
  {
    hide Memory.Tidy, Reset, Drop, Add, AccessOf;
    var first, last := s.vaddr / PAGE_SIZE, PageUp(s.vaddr + s.memsz);
    m.ResetFlags(first, last, USER_READONLY);
    label closed:
    if s.executable {
      m.DropFlags(first, last, [NO_EXECUTE]);
    }
    label dropped:
    if s.writable {
      m.AddFlags(first, last, [WRITABLE]);
    }
    forall p | first <= p < last ensures AccessOf(m.entries[p]) == Access(true, true, s.writable, s.executable) {
      EntryAccess(old(m.entries[p]), USER_READONLY);
      EntryAccess(old@closed(m.entries[p]), [NO_EXECUTE]);
      EntryAccess(old@dropped(m.entries[p]), [WRITABLE]);
    }
  }

  /** The final flags: each page of a segment as its last segment says, all others as they were, and
      no page of the region dirty. */
  method Protect(m: Memory, segments: seq<Segment>, end: nat)
    requires m.Shape() && m.Tidy() && START <= end <= m.userBreak
    requires forall i :: 0 <= i < |segments| ==> PageUp(segments[i].vaddr + segments[i].memsz) <= end
    modifies m.entries
    ensures m.Tidy() && forall p :: START <= p < end ==> !IsDirty(m.entries[p])
    ensures SegmentsSet(old(m.entries[..]), m.entries[..], segments, end)
  {
    hide Memory.Tidy, Reset, Drop, Add, Bit, AccessOf;
    for i := 0 to |segments|
      invariant m.Tidy() && SegmentsSet(old(m.entries[..]), m.entries[..], segments[..i], end)
    {
      assert segments[..i + 1][..i] == segments[..i];
      ProtectSegment(m, segments[i]);
    }
    assert segments[..|segments|] == segments;
    label flagged:
    m.DropFlags(START, end, [ACCESSED, DIRTY]);
    forall p | START <= p < end
      ensures !IsDirty(m.entries[p]) && AccessOf(m.entries[p]) == AccessOf(old@flagged(m.entries[p]))
    {
      EntryBit(old@flagged(m.entries[p]), [ACCESSED, DIRTY], DIRTY);
      EntryAccess(old@flagged(m.entries[p]), [ACCESSED, DIRTY]);
    }
  }

  /** Nothing at or above the break has changed. */
  ghost predicate BreakRespected(mem: seq<byte>, entries: seq<nat>, mem': seq<byte>, entries': seq<nat>,
                                 userBreak: nat) {
    && |mem| == |mem'| && (forall a :: userBreak * PAGE_SIZE <= a < |mem| ==> mem'[a] == mem[a])
    && KeptFrom(entries, entries', userBreak)
  }

  /** load_elf32: with only the marked pages cleared, memory is as after the slow memset.  image is
      the first page of the file and stack the bytes pushed at the end of the program's memory.  What
      lies above the break is left alone exactly if the region ends below it. */
  method Load(m: Memory, segments: seq<Segment>, c: Config, image: seq<byte>, stack: seq<byte>) returns (r: Outcome)
    requires m.Shape() && m.Tidy() && InputsOk(c, image, stack)
    modifies m.mem, m.entries
    ensures r == Rejected <==> !Admissible(segments, c, m.userFirst, m.userBreak)
    ensures r == Faulted <==> Admissible(segments, c, m.userFirst, m.userBreak) && LayoutOf(c).end == m.entries.Length
    ensures r == Rejected ==> m.mem[..] == old(m.mem[..]) && m.entries[..] == old(m.entries[..])
    ensures m.Tidy()
    ensures r == Loaded ==>
              && Fit(Chunks(segments, c, image, stack), m.mem.Length)
              && m.mem[..] == Eager(old(m.mem[..]), c, Chunks(segments, c, image, stack))
              && (forall p :: START <= p < LayoutOf(c).end ==> !IsDirty(m.entries[p]))
              && (forall p :: m.userFirst <= p < m.userBreak ==> AccessOf(m.entries[p]) == FinalAccess(segments, c, p))
    ensures r == Loaded ==>
              && (forall p :: LayoutOf(c).stdinBreak <= p < LayoutOf(c).stderrBreak ==>
                    p < m.userBreak && AccessOf(m.entries[p]) == Access(true, true, true, false))
              && (forall a :: LayoutOf(c).loadBreak * 4096 <= a < LayoutOf(c).end * 4096 ==>
                    m.mem[a] == InputByte(c, a))
    ensures r == Loaded && LayoutOf(c).end == m.userBreak ==> AccessOf(m.entries[m.userBreak]) == READ_ONLY
    ensures r == Loaded && (forall p :: m.userBreak <= p < m.entries.Length ==> !AccessOf(old(m.entries[p])).user) ==>
              (BreakRespected(old(m.mem[..]), old(m.entries[..]), m.mem[..], m.entries[..], m.userBreak) <==>
               LayoutOf(c).end < m.userBreak)
  {
    hide Memory.Tidy, Puts, Put, Zeroed, InputChunks, Fit, AccessOf, Protected, LayoutOf,
      RegionOpened, InputsClosed, ImageShown, SegmentsSet, Eager, Admissible, InputByte, FinalAccess;
    var ok := Check(segments, c, m.userFirst, m.userBreak);
    if !ok {
      return Rejected;
    }
    AdmissibleBounds(segments, c, m.userFirst, m.userBreak);
    var l := LayoutOf(c);
    ghost var mem0, e0 := m.mem[..], m.entries[..];
    PrepareRegion(m, l.end);
    ghost var z, e1 := m.mem[..], m.entries[..];
    CopyInputs(m, segments, c, z);
    ghost var e2 := m.entries[..];
    if l.end == m.entries.Length {
      return Faulted;
    }
    CopyImageAndStack(m, l, image, stack, z, InputChunks(segments, c));
    ghost var e3 := m.entries[..];
    Protect(m, segments, l.end);
    AccessAfter(e0, e1, e2, e3, m.entries[..], segments, c, m.userFirst, m.userBreak);
    EagerIs(mem0, z, segments, c, image, stack);
    InputsStand(mem0, m.mem[..], segments, c, image, stack, m.userFirst, m.userBreak);
    OutputsOpen(segments, c, m.userFirst, m.userBreak);
    AboveBreak(mem0, e0, m.mem[..], m.entries[..], segments, c, image, stack, m.userFirst, m.userBreak);
    r := Loaded;
  }

  lemma InputsStand(mem: seq<byte>, mem': seq<byte>, segments: seq<Segment>, c: Config, image: seq<byte>,
                    stack: seq<byte>, userFirst: nat, userBreak: nat)
    requires Admissible(segments, c, userFirst, userBreak) && InputsOk(c, image, stack)
    requires LayoutOf(c).end * PAGE_SIZE <= |mem| && Fit(Chunks(segments, c, image, stack), |mem|)
    requires mem' == Eager(mem, c, Chunks(segments, c, image, stack))
    ensures forall a :: LayoutOf(c).loadBreak * 4096 <= a < LayoutOf(c).end * 4096 ==> mem'[a] == InputByte(c, a)
  {
    hide Eager, Chunks, LayoutOf, InputByte, StartByte, Fit;
    forall a | LayoutOf(c).loadBreak * 4096 <= a < LayoutOf(c).end * 4096 ensures mem'[a] == InputByte(c, a) {
      StartDetermined(mem, c, Chunks(segments, c, image, stack), a);
      StartInputs(segments, c, image, stack, a);
    }
  }

  lemma OutputsOpen(segments: seq<Segment>, c: Config, userFirst: nat, userBreak: nat)
    requires Admissible(segments, c, userFirst, userBreak)
    ensures forall p :: LayoutOf(c).stdinBreak <= p < LayoutOf(c).stderrBreak ==>
              userFirst <= p < userBreak && FinalAccess(segments, c, p) == Access(true, true, true, false)
  {
    hide FinalAccess, LayoutOf;
    forall p | LayoutOf(c).stdinBreak <= p < LayoutOf(c).stderrBreak
      ensures userFirst <= p < userBreak && FinalAccess(segments, c, p) == Access(true, true, true, false)
    {
      RegionAccess(segments, c, p);
    }
  }

  lemma AdmissibleBounds(segments: seq<Segment>, c: Config, userFirst: nat, userBreak: nat)
    requires Admissible(segments, c, userFirst, userBreak)
    ensures userFirst <= START < LayoutOf(c).loadBreak <= LayoutOf(c).end <= userBreak
    ensures forall i :: 0 <= i < |segments| ==>
              && segments[i].vaddr + |segments[i].data| <= LayoutOf(c).end * PAGE_SIZE
              && PageUp(segments[i].vaddr + segments[i].memsz) <= LayoutOf(c).end
  {
    StackFits(segments, c, userFirst, userBreak);
    forall i | 0 <= i < |segments|
      ensures segments[i].vaddr + |segments[i].data| <= LayoutOf(c).end * PAGE_SIZE
      ensures PageUp(segments[i].vaddr + segments[i].memsz) <= LayoutOf(c).end
    {
      assert SegmentOk(segments[i], c);
    }
  }

  lemma EagerIs(mem: seq<byte>, z: seq<byte>, segments: seq<Segment>, c: Config, image: seq<byte>, stack: seq<byte>)
    requires InputsOk(c, image, stack) && LayoutOf(c).end * PAGE_SIZE <= |mem|
    requires z == Zeroed(mem, START * PAGE_SIZE, LayoutOf(c).end * PAGE_SIZE)
    requires Fit(Chunks(segments, c, image, stack), |mem|)
    ensures Eager(mem, c, Chunks(segments, c, image, stack)) == Puts(z, Chunks(segments, c, image, stack))
  {
    hide Puts, Chunks, Zeroed;
  }

  lemma AboveBreak(mem: seq<byte>, e0: seq<nat>, mem': seq<byte>, e4: seq<nat>, segments: seq<Segment>, c: Config,
                   image: seq<byte>, stack: seq<byte>, userFirst: nat, userBreak: nat)
    requires Admissible(segments, c, userFirst, userBreak) && InputsOk(c, image, stack)
    requires |e0| == |e4| && LayoutOf(c).end < |e4| && LayoutOf(c).end * PAGE_SIZE <= |mem|
    requires Fit(Chunks(segments, c, image, stack), |mem|) && mem' == Eager(mem, c, Chunks(segments, c, image, stack))
    requires LayoutOf(c).end < userBreak ==> KeptFrom(e0, e4, userBreak)
    requires LayoutOf(c).end == userBreak ==> AccessOf(e4[userBreak]) == Protected(segments, userBreak, READ_ONLY)
    ensures LayoutOf(c).end == userBreak ==> AccessOf(e4[userBreak]) == READ_ONLY
    ensures LayoutOf(c).end < userBreak ==> BreakRespected(mem, e0, mem', e4, userBreak)
    ensures LayoutOf(c).end == userBreak && !AccessOf(e0[userBreak]).user ==>
              !BreakRespected(mem, e0, mem', e4, userBreak)
  {
    hide Eager, Chunks, AccessOf, Fit, Protected, LayoutOf;
    if LayoutOf(c).end < userBreak {
      forall a | userBreak * PAGE_SIZE <= a < |mem| ensures mem'[a] == mem[a] {
        EagerAbove(mem, segments, c, image, stack, a);
      }
    } else {
      ProtectedAbove(segments, c, userBreak, READ_ONLY);
    }
  }

  /** A program whose region ends at the break, with the kernel's 16 MiB below: one page of code, and
      440 pages of memory up to the next huge page. */
  lemma BreakIsReached()
    ensures var segments := [Segment(START * PAGE_SIZE, [], 1, false, true)];
            var c := Config(440 * PAGE_SIZE, [], 0, 0, [], 0, Cleared);
            Admissible(segments, c, 8 * 512, 65 * 512) && LayoutOf(c).end == 65 * 512
  {
    var segments := [Segment(START * PAGE_SIZE, [], 1, false, true)];
    assert segments[0].vaddr / PAGE_SIZE == START && PageUp(segments[0].vaddr + segments[0].memsz) == START + 1;
  }

  lemma StackFits(segments: seq<Segment>, c: Config, userFirst: nat, userBreak: nat)
    requires Admissible(segments, c, userFirst, userBreak)
    ensures LayoutOf(c).loadBreak > START
  {
    var i :| 0 <= i < |segments| && segments[i].vaddr / PAGE_SIZE == START;
    assert SegmentOk(segments[i], c);
  }

  datatype Store = Store(at: nat, value: byte)

  ghost predicate Touched(stores: seq<Store>, p: nat) {
    exists i :: 0 <= i < |stores| && stores[i].at / PAGE_SIZE == p
  }

  /** Memory after the stores of a program. */
  ghost function Stored(mem: seq<byte>, stores: seq<Store>): (r: seq<byte>)
    ensures |r| == |mem|
  {
    if stores == [] then mem
    else
      var s, before := stores[|stores| - 1], Stored(mem, stores[..|stores| - 1]);
      if s.at < |mem| then before[s.at := s.value] else before
  }

  /** The last store to an address decides, and without one the byte stays. */
  lemma {:induction false} StoredByte(mem: seq<byte>, stores: seq<Store>, i: int, a: nat)
    requires a < |mem| && -1 <= i < |stores| && (i >= 0 ==> stores[i].at == a)
    requires forall k :: i < k < |stores| ==> stores[k].at != a
    ensures Stored(mem, stores)[a] == if i < 0 then mem[a] else stores[i].value
    decreases |stores|
  {
    var n := |stores| - 1;
    if n < 0 || i == n {
    } else {
      assert stores[n].at != a;
      StoredByte(mem, stores[..n], i, a);
    }
  }

  /** run: the program's stores, then the marking.  The pages counted are those it stored to. */
  method Run(m: Memory, end: nat, stores: seq<Store>) returns (pages: nat)
    requires m.Shape() && m.Tidy() && START <= end <= m.userBreak
    requires forall p :: START <= p < end ==> !IsDirty(m.entries[p])
    requires forall i :: 0 <= i < |stores| ==> START * PAGE_SIZE <= stores[i].at < end * PAGE_SIZE
    modifies m.mem, m.entries
    ensures m.Tidy() && pages == |set p | START <= p < end && Touched(stores, p)|
    ensures forall p :: START <= p < end ==> (IsDirty(m.entries[p]) <==> Touched(stores, p))
    ensures forall p :: START <= p < end && Touched(stores, p) ==> Written(m.entries[p])
    ensures m.mem[..] == Stored(old(m.mem[..]), stores)
  {
    hide Memory.Tidy, Bit, Add;
    PendingFirst(m, end);
    for i := 0 to |stores|
      invariant m.Pending(START, end) && m.mem[..] == Stored(old(m.mem[..]), stores[..i])
      invariant forall p :: START <= p < end ==> (IsDirty(m.entries[p]) <==> Touched(stores[..i], p))
    {
      ProgramStore(m, end, stores[i]);
      assert stores[..i + 1][..i] == stores[..i];
      forall p | START <= p < end
        ensures Touched(stores[..i + 1], p) <==> Touched(stores[..i], p) || stores[i].at / PAGE_SIZE == p
      {
        TouchedMore(stores, i, p);
      }
    }
    assert stores[..|stores|] == stores;
    m.MarkByDirty(START, end);
    pages := m.CountDirtyPages(START, end);
    assert (set p | START <= p < end && Touched(stores, p)) == set p | START <= p < end && IsDirty(m.entries[p]);
  }

  lemma PendingFirst(m: Memory, end: nat)
    requires m.Shape() && m.Tidy()
    ensures m.Pending(START, end)
  {
  }

  lemma TouchedMore(stores: seq<Store>, i: nat, p: nat)
    requires i < |stores|
    ensures Touched(stores[..i + 1], p) <==> Touched(stores[..i], p) || stores[i].at / PAGE_SIZE == p
  {
    var more, less := stores[..i + 1], stores[..i];
    if Touched(less, p) {
      var k :| 0 <= k < |less| && less[k].at / PAGE_SIZE == p;
      assert more[k] == less[k];
    }
    if Touched(more, p) {
      var k :| 0 <= k < |more| && more[k].at / PAGE_SIZE == p;
      assert k < i ==> less[k] == more[k];
    }
    assert more[i] == stores[i];
  }

  /** A store of the running program: the processor marks the page dirty. */
  method ProgramStore(m: Memory, end: nat, s: Store)
    requires m.Shape() && m.Pending(START, end) && START * PAGE_SIZE <= s.at < end * PAGE_SIZE && end <= m.userBreak
    modifies m.mem, m.entries
    ensures m.Pending(START, end) && m.mem[..] == old(m.mem[..])[s.at := s.value]
    ensures forall p :: 0 <= p < m.entries.Length ==>
              (IsDirty(m.entries[p]) <==> IsDirty(old(m.entries[p])) || p == s.at / PAGE_SIZE)
  {
    hide Bit, Add;
    EntryBit(m.entries[s.at / PAGE_SIZE], [DIRTY], DIRTY);
    m.StoreByte(s.at, s.value);
    forall a | m.userFirst * PAGE_SIZE <= a < m.userBreak * PAGE_SIZE
      ensures m.mem[a] == 0 || Written(m.entries[a / PAGE_SIZE]) ||
              (START <= a / PAGE_SIZE < end && IsDirty(m.entries[a / PAGE_SIZE]))
    {
      if a != s.at {
        assert m.mem[a] == old(m.mem[a]);
        assert old(m.mem[a]) == 0 || Written(old(m.entries[a / PAGE_SIZE])) ||
               (START <= a / PAGE_SIZE < end && IsDirty(old(m.entries[a / PAGE_SIZE])));
      }
    }
  }
}
