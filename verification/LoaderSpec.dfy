/** load_elf32 of lib/elf.cpp on values: where everything goes, and what the memory holds at the start. */
module LoaderSpec {
  import opened Machine
  import opened PageFlags
  import opened UserMemory

  /** The page of the only supported load address, 0x8048000. */
  const START: nat := 0x8048
  const USERSPACE32: nat := 0x1_0000_0000

  /** A loadable program header with its part of the file. */
  datatype Segment = Segment(vaddr: nat, data: seq<byte>, memsz: nat, writable: bool, executable: bool)

  datatype Config = Config(
    memoryLimit: nat,
    stdin: seq<byte>,
    stdoutMax: nat,
    stderrMax: nat,
    ib: seq<byte>,
    obSize: nat,
    ob: OutputBuffer)

  /** The output buffer starts cleared or with given bytes. */
  datatype OutputBuffer = Cleared | Given(data: seq<byte>)

  /** Page numbers. */
  datatype Layout = Layout(loadBreak: nat, stdinBreak: nat, stdoutBreak: nat, stderrBreak: nat, ibBreak: nat, end: nat)

  function LayoutOf(c: Config): (r: Layout)
    ensures START <= r.loadBreak <= r.stdinBreak <= r.stdoutBreak <= r.stderrBreak <= r.ibBreak <= r.end
  {
    var loadBreak := START + PageUp(c.memoryLimit);
    var stdinBreak := loadBreak + PageUp(|c.stdin|);
    var stdoutBreak := stdinBreak + PageUp(c.stdoutMax);
    var stderrBreak := stdoutBreak + PageUp(c.stderrMax);
    var ibBreak := stderrBreak + PageUp(|c.ib|);
    Layout(loadBreak, stdinBreak, stdoutBreak, stderrBreak, ibBreak, ibBreak + PageUp(c.obSize))
  }

  /** The least number of pages that hold so many bytes. */
  ghost predicate Least(pages: int, bytes: nat) {
    bytes <= 4096 * pages && (pages == 0 || 4096 * (pages - 1) < bytes)
  }

  /** Program memory, standard input, standard output, standard error, input buffer and output buffer follow
      one another from 0x8048000 on, each with the least number of pages. */
  lemma LayoutLeast(c: Config)
    ensures var l := LayoutOf(c);
            && Least(l.loadBreak - 0x8048, c.memoryLimit) && Least(l.stdinBreak - l.loadBreak, |c.stdin|)
            && Least(l.stdoutBreak - l.stdinBreak, c.stdoutMax) && Least(l.stderrBreak - l.stdoutBreak, c.stderrMax)
            && Least(l.ibBreak - l.stderrBreak, |c.ib|) && Least(l.end - l.ibBreak, c.obSize)
  {
  }

  lemma LayoutSizes(c: Config)
    ensures var l := LayoutOf(c);
            && START + PageUp(c.memoryLimit) == l.loadBreak && l.loadBreak + PageUp(|c.stdin|) == l.stdinBreak
            && l.stderrBreak + PageUp(|c.ib|) == l.ibBreak && l.ibBreak + PageUp(c.obSize) == l.end
  {
  }

  ghost predicate SegmentOk(s: Segment, c: Config) {
    && |s.data| <= s.memsz && START <= s.vaddr / PAGE_SIZE
    && PageUp(s.vaddr + s.memsz) + 1 <= START + PageUp(c.memoryLimit)
  }

  /** What load_elf32 accepts, the header fields aside: some segment starts in the first page and one
      ends beyond it, all leave a page for the stack, and everything fits below the break. */
  ghost predicate Admissible(segments: seq<Segment>, c: Config, userFirst: nat, userBreak: nat) {
    && (forall i :: 0 <= i < |segments| ==> SegmentOk(segments[i], c))
    && (exists i :: 0 <= i < |segments| && segments[i].vaddr / PAGE_SIZE == START)
    && (exists i :: 0 <= i < |segments| && PageUp(segments[i].vaddr + segments[i].memsz) > START)
    && userFirst <= START && LayoutOf(c).end <= userBreak && LayoutOf(c).end * 4096 <= 0x1_0000_0000
  }

  // ----- what each page may be used for

  const KERNEL_ONLY: Access := Access(true, false, true, true)
  const READ_WRITE: Access := Access(true, true, true, false)
  const READ_ONLY: Access := Access(true, true, false, false)

  ghost predicate Covers(s: Segment, p: nat) {
    s.vaddr / PAGE_SIZE <= p < PageUp(s.vaddr + s.memsz)
  }

  /** The access of page p when the flags of the segments are set in turn. */
  ghost function Protected(segments: seq<Segment>, p: nat, before: Access): Access {
    if segments == [] then before
    else
      var s := segments[|segments| - 1];
      if Covers(s, p) then Access(true, true, s.writable, s.executable)
      else Protected(segments[..|segments| - 1], p, before)
  }

  ghost predicate ReadOnlyInput(c: Config, p: nat) {
    var l := LayoutOf(c);
    l.loadBreak <= p < l.stdinBreak || l.stderrBreak <= p < l.ibBreak
  }

  /** What a loaded program may do with page p: the last segment there decides, then what the page is
      for; all outside is the kernel's. */
  ghost function FinalAccess(segments: seq<Segment>, c: Config, p: nat): Access {
    var l := LayoutOf(c);
    Protected(segments, p,
      if ReadOnlyInput(c, p) || p == l.end then READ_ONLY
      else if START <= p < l.end then READ_WRITE
      else KERNEL_ONLY)
  }

  ghost predicate SameAccess(a: seq<nat>, b: seq<nat>) {
    |a| == |b| && forall p :: 0 <= p < |a| ==> AccessOf(b[p]) == AccessOf(a[p])
  }

  /** The entries from page n on are the same. */
  ghost predicate KeptFrom(a: seq<nat>, b: seq<nat>, n: nat) {
    |a| == |b| && forall p :: n <= p < |a| ==> b[p] == a[p]
  }

  // the four parts of loading, by what they do to the entries

  ghost predicate RegionOpened(a: seq<nat>, b: seq<nat>, end: nat, userFirst: nat, userBreak: nat) {
    && KeptFrom(a, b, userBreak)
    && (forall p :: userFirst <= p < userBreak && p < |a| ==>
          AccessOf(b[p]) == if START <= p < end then READ_WRITE else KERNEL_ONLY)
  }

  ghost predicate InputsClosed(a: seq<nat>, b: seq<nat>, c: Config) {
    && KeptFrom(a, b, LayoutOf(c).end)
    && (forall p :: 0 <= p < |a| ==> AccessOf(b[p]) == if ReadOnlyInput(c, p) then READ_ONLY else AccessOf(a[p]))
  }

  ghost predicate ImageShown(a: seq<nat>, b: seq<nat>, end: nat) {
    && KeptFrom(a, b, end + 1)
    && (forall p :: 0 <= p < |a| ==> AccessOf(b[p]) == if p == end then READ_ONLY else AccessOf(a[p]))
  }

  ghost predicate SegmentsSet(a: seq<nat>, b: seq<nat>, segments: seq<Segment>, end: nat) {
    && KeptFrom(a, b, end)
    && (forall p :: 0 <= p < |a| ==> AccessOf(b[p]) == Protected(segments, p, AccessOf(a[p])))
  }

  lemma AccessAfter(e0: seq<nat>, e1: seq<nat>, e2: seq<nat>, e3: seq<nat>, e4: seq<nat>,
                    segments: seq<Segment>, c: Config, userFirst: nat, userBreak: nat)
    requires RegionOpened(e0, e1, LayoutOf(c).end, userFirst, userBreak) && InputsClosed(e1, e2, c)
    requires ImageShown(e2, e3, LayoutOf(c).end) && SegmentsSet(e3, e4, segments, LayoutOf(c).end)
    requires LayoutOf(c).end <= userBreak
    ensures |e4| == |e0|
    ensures forall p :: userFirst <= p < userBreak && p < |e4| ==> AccessOf(e4[p]) == FinalAccess(segments, c, p)
    ensures LayoutOf(c).end < userBreak ==> KeptFrom(e0, e4, userBreak)
    ensures LayoutOf(c).end == userBreak < |e4| ==> AccessOf(e4[userBreak]) == Protected(segments, userBreak, READ_ONLY)
  {
    hide AccessOf, Protected, LayoutOf;
  }

  /** No segment reaches the end of the region. */
  lemma {:induction false} ProtectedAbove(segments: seq<Segment>, c: Config, p: nat, before: Access)
    requires (forall i :: 0 <= i < |segments| ==> SegmentOk(segments[i], c)) && p >= LayoutOf(c).end
    ensures Protected(segments, p, before) == before
  {
    if segments == [] {
    } else {
      var n := |segments| - 1;
      assert SegmentOk(segments[n], c);
      ProtectedAbove(segments[..n], c, p, before);
    }
  }

  // ----- what is written, and the memory it leaves

  datatype Chunk = Chunk(at: nat, data: seq<byte>)

  ghost predicate Fit(chunks: seq<Chunk>, n: nat) {
    forall i :: 0 <= i < |chunks| ==> chunks[i].at + |chunks[i].data| <= n
  }

  ghost function Puts(s: seq<byte>, chunks: seq<Chunk>): (r: seq<byte>)
    requires Fit(chunks, |s|)
    ensures |r| == |s|
  {
    if chunks == [] then s
    else
      var last := chunks[|chunks| - 1];
      Put(Puts(s, chunks[..|chunks| - 1]), last.at, last.data)
  }

  ghost function SegmentChunks(segments: seq<Segment>): (r: seq<Chunk>)
    ensures |r| == |segments| && forall i :: 0 <= i < |r| ==> r[i] == Chunk(segments[i].vaddr, segments[i].data)
  {
    seq(|segments|, i requires 0 <= i < |segments| => Chunk(segments[i].vaddr, segments[i].data))
  }

  ghost function InputChunks(segments: seq<Segment>, c: Config): seq<Chunk> {
    var l := LayoutOf(c);
    var chunks :=
      SegmentChunks(segments) + [Chunk(l.loadBreak * PAGE_SIZE, c.stdin)] + [Chunk(l.stderrBreak * PAGE_SIZE, c.ib)];
    if c.ob.Given? then chunks + [Chunk(l.ibBreak * PAGE_SIZE, c.ob.data)] else chunks
  }

  /** Segments, input, buffers, header image and stack, in the order in which they are copied. */
  ghost function Chunks(segments: seq<Segment>, c: Config, image: seq<byte>, stack: seq<byte>): seq<Chunk>
    requires |stack| <= PAGE_SIZE
  {
    InputChunks(segments, c) + [Chunk(LayoutOf(c).end * PAGE_SIZE, image)]
    + [Chunk(LayoutOf(c).loadBreak * PAGE_SIZE - |stack|, stack)]
  }

  /** Loading with the slow memset: clear the whole region, then copy. */
  ghost function Eager(mem: seq<byte>, c: Config, chunks: seq<Chunk>): (r: seq<byte>)
    requires LayoutOf(c).end * PAGE_SIZE <= |mem| && Fit(chunks, |mem|)
    ensures |r| == |mem|
  {
    Puts(Zeroed(mem, START * PAGE_SIZE, LayoutOf(c).end * PAGE_SIZE), chunks)
  }

  /** The byte that the chunks leave at an address that was zero. */
  ghost function StartByte(chunks: seq<Chunk>, a: nat): byte {
    if chunks == [] then 0
    else
      var last := chunks[|chunks| - 1];
      if last.at <= a < last.at + |last.data| then last.data[a - last.at] else StartByte(chunks[..|chunks| - 1], a)
  }

  lemma {:induction false} PutsByte(s: seq<byte>, chunks: seq<Chunk>, a: nat)
    requires Fit(chunks, |s|) && a < |s| && s[a] == 0
    ensures Puts(s, chunks)[a] == StartByte(chunks, a)
  {
    if chunks == [] {
    } else {
      PutsByte(s, chunks[..|chunks| - 1], a);
    }
  }

  /** A program's start does not depend on what ran before: each byte of its region comes from this
      load, or is zero. */
  lemma StartDetermined(mem: seq<byte>, c: Config, chunks: seq<Chunk>, a: nat)
    requires LayoutOf(c).end * PAGE_SIZE <= |mem| && Fit(chunks, |mem|)
    requires START * PAGE_SIZE <= a < LayoutOf(c).end * PAGE_SIZE
    ensures Eager(mem, c, chunks)[a] == StartByte(chunks, a)
  {
    PutsByte(Zeroed(mem, START * PAGE_SIZE, LayoutOf(c).end * PAGE_SIZE), chunks, a);
  }

  /** Where no chunk is, the program finds zero. */
  lemma {:induction false} StartZero(chunks: seq<Chunk>, a: nat)
    requires forall i :: 0 <= i < |chunks| ==> !(chunks[i].at <= a < chunks[i].at + |chunks[i].data|)
    ensures StartByte(chunks, a) == 0
  {
    if chunks == [] {
    } else {
      StartZero(chunks[..|chunks| - 1], a);
    }
  }

  ghost predicate Reaches(chunk: Chunk, a: nat) {
    chunk.at <= a < chunk.at + |chunk.data|
  }

  /** The last chunk that reaches an address decides. */
  lemma {:induction false} StartLast(chunks: seq<Chunk>, i: nat, a: nat)
    requires i < |chunks| && Reaches(chunks[i], a)
    requires forall k :: i < k < |chunks| ==> !Reaches(chunks[k], a)
    ensures StartByte(chunks, a) == chunks[i].data[a - chunks[i].at]
  {
    var n := |chunks| - 1;
    if i == n {
    } else {
      assert !Reaches(chunks[n], a);
      StartLast(chunks[..n], i, a);
    }
  }

  /** Bytes that no chunk reaches stay. */
  lemma {:induction false} PutsElsewhere(s: seq<byte>, chunks: seq<Chunk>, a: nat)
    requires Fit(chunks, |s|) && a < |s|
    requires forall i :: 0 <= i < |chunks| ==> !(chunks[i].at <= a < chunks[i].at + |chunks[i].data|)
    ensures Puts(s, chunks)[a] == s[a]
  {
    if chunks == [] {
    } else {
      PutsElsewhere(s, chunks[..|chunks| - 1], a);
    }
  }

  /** Everything lies below the end of the header image. */
  lemma ChunksBelow(segments: seq<Segment>, c: Config, image: seq<byte>, stack: seq<byte>, i: nat)
    requires (forall i :: 0 <= i < |segments| ==> SegmentOk(segments[i], c)) && InputsOk(c, image, stack)
    requires i < |Chunks(segments, c, image, stack)|
    ensures var chunk := Chunks(segments, c, image, stack)[i];
            chunk.at + |chunk.data| <= LayoutOf(c).end * PAGE_SIZE + |image|
  {
    if i < |segments| {
      assert SegmentOk(segments[i], c);
      assert Chunks(segments, c, image, stack)[i] == Chunk(segments[i].vaddr, segments[i].data);
    }
  }

  /** Behind the header image every byte keeps what it was, also within the page of the image. */
  lemma EagerAbove(mem: seq<byte>, segments: seq<Segment>, c: Config, image: seq<byte>, stack: seq<byte>, a: nat)
    requires (forall i :: 0 <= i < |segments| ==> SegmentOk(segments[i], c)) && InputsOk(c, image, stack)
    requires LayoutOf(c).end * PAGE_SIZE <= |mem| && Fit(Chunks(segments, c, image, stack), |mem|)
    requires LayoutOf(c).end * PAGE_SIZE + |image| <= a < |mem|
    ensures Eager(mem, c, Chunks(segments, c, image, stack))[a] == mem[a]
  {
    hide Chunks, Puts, LayoutOf, Fit;
    var chunks := Chunks(segments, c, image, stack);
    forall i | 0 <= i < |chunks| ensures !(chunks[i].at <= a < chunks[i].at + |chunks[i].data|) {
      ChunksBelow(segments, c, image, stack, i);
    }
    PutsElsewhere(Zeroed(mem, START * PAGE_SIZE, LayoutOf(c).end * PAGE_SIZE), chunks, a);
  }

  lemma FitParts(chunks: seq<Chunk>, c: Chunk, d: Chunk, n: nat)
    requires Fit(chunks + [c] + [d], n)
    ensures Fit(chunks, n) && c.at + |c.data| <= n && d.at + |d.data| <= n
  {
    var all := chunks + [c] + [d];
    assert all[|chunks|] == c && all[|chunks| + 1] == d;
    assert forall i :: 0 <= i < |chunks| ==> all[i] == chunks[i];
  }

  /** The page behind the region starts with the header image. */
  lemma EagerImage(mem: seq<byte>, segments: seq<Segment>, c: Config, image: seq<byte>, stack: seq<byte>, a: nat)
    requires InputsOk(c, image, stack)
    requires LayoutOf(c).end * PAGE_SIZE <= |mem| && Fit(Chunks(segments, c, image, stack), |mem|)
    requires LayoutOf(c).end * PAGE_SIZE <= a < LayoutOf(c).end * PAGE_SIZE + |image|
    ensures a < |mem| && Eager(mem, c, Chunks(segments, c, image, stack))[a] == image[a - LayoutOf(c).end * PAGE_SIZE]
  {
    hide InputChunks, LayoutOf, Puts;
    var l, inputs := LayoutOf(c), InputChunks(segments, c);
    var img, stk := Chunk(l.end * PAGE_SIZE, image), Chunk(l.loadBreak * PAGE_SIZE - |stack|, stack);
    var z := Zeroed(mem, START * PAGE_SIZE, l.end * PAGE_SIZE);
    var chunks := inputs + [img] + [stk];
    assert chunks == Chunks(segments, c, image, stack);
    FitParts(inputs, img, stk, |mem|);
    PutsMore(z, inputs, img);
    PutsMore(z, inputs + [img], stk);
  }

  // ----- the start of a program, region by region

  /** Above the program's own memory each byte is that of the region it lies in, or zero. */
  ghost function InputByte(c: Config, a: nat): byte
    requires c.ob.Given? ==> |c.ob.data| == c.obSize
  {
    var l := LayoutOf(c);
    var stdin, ib, ob := l.loadBreak * 4096, l.stderrBreak * 4096, l.ibBreak * 4096;
    if stdin <= a < stdin + |c.stdin| then c.stdin[a - stdin]
    else if ib <= a < ib + |c.ib| then c.ib[a - ib]
    else if c.ob.Given? && ob <= a < ob + c.obSize then c.ob.data[a - ob]
    else 0
  }

  lemma StartMore(chunks: seq<Chunk>, chunk: Chunk, a: nat)
    ensures StartByte(chunks + [chunk], a) ==
            if Reaches(chunk, a) then chunk.data[a - chunk.at] else StartByte(chunks, a)
  {
    var all := chunks + [chunk];
    assert all[..|all| - 1] == chunks;
  }

  /** The image of the header lies behind all regions and the stack before the inputs. */
  lemma StartBefore(segments: seq<Segment>, c: Config, image: seq<byte>, stack: seq<byte>, a: nat)
    requires InputsOk(c, image, stack) && LayoutOf(c).loadBreak * 4096 <= a < LayoutOf(c).end * 4096
    ensures StartByte(Chunks(segments, c, image, stack), a) == StartByte(InputChunks(segments, c), a)
  {
    hide LayoutOf, StartByte, InputChunks;
    var l, inputs := LayoutOf(c), InputChunks(segments, c);
    var img, stk := Chunk(l.end * PAGE_SIZE, image), Chunk(l.loadBreak * PAGE_SIZE - |stack|, stack);
    StartMore(inputs, img, a);
    StartMore(inputs + [img], stk, a);
  }

  lemma NoSegmentByte(segments: seq<Segment>, c: Config, a: nat)
    requires (forall i :: 0 <= i < |segments| ==> SegmentOk(segments[i], c)) && (LayoutOf(c).loadBreak - 1) * 4096 <= a
    ensures StartByte(SegmentChunks(segments), a) == 0
  {
    forall i | 0 <= i < |segments| ensures !Reaches(SegmentChunks(segments)[i], a) {
      assert SegmentOk(segments[i], c);
    }
    StartZero(SegmentChunks(segments), a);
  }

  /** The inputs, and nothing in the pages of standard output and standard error. */
  lemma StartInputs(segments: seq<Segment>, c: Config, image: seq<byte>, stack: seq<byte>, a: nat)
    requires (forall i :: 0 <= i < |segments| ==> SegmentOk(segments[i], c)) && InputsOk(c, image, stack)
    requires LayoutOf(c).loadBreak * 4096 <= a < LayoutOf(c).end * 4096
    ensures StartByte(Chunks(segments, c, image, stack), a) == InputByte(c, a)
    ensures LayoutOf(c).stdinBreak * 4096 <= a < LayoutOf(c).stderrBreak * 4096 ==> InputByte(c, a) == 0
  {
    hide LayoutOf, StartByte, Chunks, SegmentChunks;
    LayoutLeast(c);
    StartBefore(segments, c, image, stack, a);
    NoSegmentByte(segments, c, a);
    var l, chunks := LayoutOf(c), SegmentChunks(segments);
    var stdin, ib := Chunk(l.loadBreak * PAGE_SIZE, c.stdin), Chunk(l.stderrBreak * PAGE_SIZE, c.ib);
    StartMore(chunks, stdin, a);
    StartMore(chunks + [stdin], ib, a);
    if c.ob.Given? {
      StartMore(chunks + [stdin] + [ib], Chunk(l.ibBreak * PAGE_SIZE, c.ob.data), a);
    }
  }

  /** The last page of the program's memory holds the stack at its end and zeros below, and no segment. */
  lemma StartStack(segments: seq<Segment>, c: Config, image: seq<byte>, stack: seq<byte>, a: nat)
    requires (forall i :: 0 <= i < |segments| ==> SegmentOk(segments[i], c)) && InputsOk(c, image, stack)
    requires (LayoutOf(c).loadBreak - 1) * 4096 <= a < LayoutOf(c).loadBreak * 4096
    ensures var top := LayoutOf(c).loadBreak * 4096 - |stack|;
            StartByte(Chunks(segments, c, image, stack), a) == if top <= a then stack[a - top] else 0
    ensures forall i :: 0 <= i < |segments| ==> !Covers(segments[i], LayoutOf(c).loadBreak - 1)
  {
    hide LayoutOf, StartByte, InputChunks;
    LayoutSizes(c);
    forall i | 0 <= i < |segments| ensures !Covers(segments[i], LayoutOf(c).loadBreak - 1) {
      assert SegmentOk(segments[i], c);
    }
    var l, inputs := LayoutOf(c), InputChunks(segments, c);
    var img, stk := Chunk(l.end * PAGE_SIZE, image), Chunk(l.loadBreak * PAGE_SIZE - |stack|, stack);
    StartMore(inputs, img, a);
    StartMore(inputs + [img], stk, a);
    BelowInputs(segments, c, a);
    NoSegmentByte(segments, c, a);
  }

  /** Below the inputs there are the segments alone. */
  lemma BelowInputs(segments: seq<Segment>, c: Config, a: nat)
    requires a < LayoutOf(c).loadBreak * 4096
    ensures StartByte(InputChunks(segments, c), a) == StartByte(SegmentChunks(segments), a)
  {
    hide LayoutOf, StartByte, SegmentChunks;
    var l, chunks := LayoutOf(c), SegmentChunks(segments);
    var stdin, ib := Chunk(l.loadBreak * PAGE_SIZE, c.stdin), Chunk(l.stderrBreak * PAGE_SIZE, c.ib);
    StartMore(chunks, stdin, a);
    StartMore(chunks + [stdin], ib, a);
    if c.ob.Given? {
      StartMore(chunks + [stdin] + [ib], Chunk(l.ibBreak * PAGE_SIZE, c.ob.data), a);
    }
  }

  /** In the memory below the stack page only the segments count, the last one there deciding. */
  lemma StartSegments(segments: seq<Segment>, c: Config, image: seq<byte>, stack: seq<byte>, a: nat)
    requires InputsOk(c, image, stack) && a < (LayoutOf(c).loadBreak - 1) * 4096
    ensures StartByte(Chunks(segments, c, image, stack), a) == StartByte(SegmentChunks(segments), a)
  {
    hide LayoutOf, StartByte, InputChunks;
    var l, inputs := LayoutOf(c), InputChunks(segments, c);
    var img, stk := Chunk(l.end * PAGE_SIZE, image), Chunk(l.loadBreak * PAGE_SIZE - |stack|, stack);
    StartMore(inputs, img, a);
    StartMore(inputs + [img], stk, a);
    BelowInputs(segments, c, a);
  }

  /** What each region may be used for: program memory as its segments say or else writable, the inputs
      read-only, the outputs writable, nothing but segments executable. */
  lemma RegionAccess(segments: seq<Segment>, c: Config, p: nat)
    requires forall i :: 0 <= i < |segments| ==> SegmentOk(segments[i], c)
    ensures var l, access := LayoutOf(c), FinalAccess(segments, c, p);
            && (p < 0x8048 || p > l.end ==> !access.user)
            && (0x8048 <= p < l.loadBreak ==> access == Protected(segments, p, Access(true, true, true, false)))
            && (l.loadBreak <= p < l.stdinBreak ==> access == Access(true, true, false, false))
            && (l.stdinBreak <= p < l.stderrBreak ==> access == Access(true, true, true, false))
            && (l.stderrBreak <= p < l.ibBreak ==> access == Access(true, true, false, false))
            && (l.ibBreak <= p < l.end ==> access == Access(true, true, true, false))
            && (p == l.end ==> access == Access(true, true, false, false))
  {
    hide LayoutOf;
    LayoutSizes(c);
    var l := LayoutOf(c);
    var before := if ReadOnlyInput(c, p) || p == l.end then READ_ONLY
                  else if START <= p < l.end then READ_WRITE
                  else KERNEL_ONLY;
    if p < START || p >= l.loadBreak {
      NoSegment(segments, c, p, before);
    }
  }

  lemma {:induction false} NoSegment(segments: seq<Segment>, c: Config, p: nat, before: Access)
    requires forall i :: 0 <= i < |segments| ==> SegmentOk(segments[i], c)
    requires p < START || p + 1 >= LayoutOf(c).loadBreak
    ensures Protected(segments, p, before) == before
  {
    if segments == [] {
    } else {
      var n := |segments| - 1;
      assert SegmentOk(segments[n], c);
      NoSegment(segments[..n], c, p, before);
    }
  }

  /** The last segment that covers a page decides, and without one the page stays as it is. */
  lemma {:induction false} ProtectedLast(segments: seq<Segment>, p: nat, before: Access, i: int)
    requires -1 <= i < |segments| && (i >= 0 ==> Covers(segments[i], p))
    requires forall k :: i < k < |segments| ==> !Covers(segments[k], p)
    ensures Protected(segments, p, before) ==
            if i < 0 then before else Access(true, true, segments[i].writable, segments[i].executable)
  {
    var n := |segments| - 1;
    if n < 0 || i == n {
    } else {
      assert !Covers(segments[n], p);
      ProtectedLast(segments[..n], p, before, i);
    }
  }

  lemma PutsMore(s: seq<byte>, chunks: seq<Chunk>, chunk: Chunk)
    requires Fit(chunks, |s|) && chunk.at + |chunk.data| <= |s|
    ensures Fit(chunks + [chunk], |s|)
    ensures Puts(s, chunks + [chunk]) == Put(Puts(s, chunks), chunk.at, chunk.data)
  {
    var all := chunks + [chunk];
    assert all[..|all| - 1] == chunks;
  }

  lemma PutNothing(s: seq<byte>, a: nat)
    requires a <= |s|
    ensures Put(s, a, []) == s
  {
  }

  ghost predicate InputsOk(c: Config, image: seq<byte>, stack: seq<byte>) {
    && (c.ob.Given? ==> |c.ob.data| == c.obSize)
    && 0 < |image| <= PAGE_SIZE && 0 < |stack| <= PAGE_SIZE
  }
}
