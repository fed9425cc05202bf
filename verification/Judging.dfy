/** Programs judged one after the other: what each finds in memory when it starts. */
module Judging {
  import opened Machine
  import opened PageFlags
  import opened UserMemory
  import opened LoaderSpec
  import opened Loader

  /** One program to be judged, and the stores it will make. */
  datatype Job = Job(segments: seq<Segment>, config: Config, image: seq<byte>, stack: seq<byte>, stores: seq<Store>)

  ghost predicate JobOk(j: Job) {
    && InputsOk(j.config, j.image, j.stack)
    && (forall i :: 0 <= i < |j.stores| ==> START * PAGE_SIZE <= j.stores[i].at < LayoutOf(j.config).end * PAGE_SIZE)
  }

  ghost function ChunksOf(j: Job): seq<Chunk>
    requires JobOk(j)
  {
    Chunks(j.segments, j.config, j.image, j.stack)
  }

  /** A job whose region and image page lie in a memory of n bytes. */
  ghost predicate Placed(j: Job, n: nat) {
    && JobOk(j) && (forall i :: 0 <= i < |j.segments| ==> SegmentOk(j.segments[i], j.config))
    && (LayoutOf(j.config).end + 1) * PAGE_SIZE <= n && Fit(ChunksOf(j), n)
  }

  lemma PlacedWhere(j: Job, n: nat)
    requires JobOk(j) && (forall i :: 0 <= i < |j.segments| ==> SegmentOk(j.segments[i], j.config))
    requires (LayoutOf(j.config).end + 1) * PAGE_SIZE <= n
    ensures Placed(j, n)
  {
    hide Chunks, LayoutOf;
    forall i | 0 <= i < |ChunksOf(j)| ensures ChunksOf(j)[i].at + |ChunksOf(j)[i].data| <= n {
      ChunksBelow(j.segments, j.config, j.image, j.stack, i);
    }
  }

  // ----- what a program can read

  /** A loaded program can read its region and the page of its header image, and nothing else. */
  lemma ReadableIff(segments: seq<Segment>, c: Config, p: nat)
    requires forall i :: 0 <= i < |segments| ==> SegmentOk(segments[i], c)
    ensures var access := FinalAccess(segments, c, p);
            access.present && (access.user <==> START <= p <= LayoutOf(c).end)
  {
    hide LayoutOf;
    LayoutSizes(c);
    var l := LayoutOf(c);
    var before := if ReadOnlyInput(c, p) || p == l.end then READ_ONLY
                  else if START <= p < l.end then READ_WRITE
                  else KERNEL_ONLY;
    ProtectedUser(segments, c, p, before);
  }

  lemma {:induction false} ProtectedUser(segments: seq<Segment>, c: Config, p: nat, before: Access)
    requires forall i :: 0 <= i < |segments| ==> SegmentOk(segments[i], c)
    requires before.present && (before.user <==> START <= p <= LayoutOf(c).end)
    ensures var access := Protected(segments, p, before);
            access.present && (access.user <==> START <= p <= LayoutOf(c).end)
  {
    if segments == [] {
    } else {
      var n := |segments| - 1;
      assert SegmentOk(segments[n], c);
      ProtectedUser(segments[..n], c, p, before);
    }
  }

  /** All that a job can read when it starts, if it is loaded into mem. */
  ghost function View(mem: seq<byte>, j: Job): (r: seq<byte>)
    requires Placed(j, |mem|)
    ensures |r| == (LayoutOf(j.config).end + 1 - START) * PAGE_SIZE
  {
    Eager(mem, j.config, ChunksOf(j))[START * PAGE_SIZE..(LayoutOf(j.config).end + 1) * PAGE_SIZE]
  }

  /** The region a job starts with, from that job alone. */
  ghost function StartRegion(j: Job): seq<byte>
    requires JobOk(j)
  {
    seq((LayoutOf(j.config).end - START) * PAGE_SIZE,
        k requires 0 <= k => StartByte(ChunksOf(j), START * PAGE_SIZE + k))
  }

  /** What is left in the page of the header image behind the image. */
  ghost function Remains(mem: seq<byte>, j: Job): seq<byte>
    requires Placed(j, |mem|)
  {
    var end := LayoutOf(j.config).end;
    mem[end * PAGE_SIZE + |j.image|..(end + 1) * PAGE_SIZE]
  }

  /** A job finds its own segments, inputs and zeros, the image of its header, and behind that what
      the memory held before. */
  lemma ViewParts(mem: seq<byte>, j: Job)
    requires Placed(j, |mem|)
    ensures View(mem, j) == StartRegion(j) + j.image + Remains(mem, j)
  {
    hide Eager, ChunksOf, StartByte, Fit, LayoutOf;
    var parts, end := StartRegion(j) + j.image + Remains(mem, j), LayoutOf(j.config).end;
    assert |View(mem, j)| == |parts| == (end + 1 - START) * PAGE_SIZE;
    forall k | 0 <= k < |parts| ensures View(mem, j)[k] == parts[k] {
      ViewByte(mem, j, START * PAGE_SIZE + k);
    }
  }

  lemma ViewByte(mem: seq<byte>, j: Job, a: nat)
    requires Placed(j, |mem|) && START * PAGE_SIZE <= a < (LayoutOf(j.config).end + 1) * PAGE_SIZE
    ensures var end := LayoutOf(j.config).end * PAGE_SIZE;
            View(mem, j)[a - START * PAGE_SIZE] ==
            if a < end then StartByte(ChunksOf(j), a) else if a < end + |j.image| then j.image[a - end] else mem[a]
  {
    hide Eager, Chunks, StartByte, Fit, LayoutOf;
    var end := LayoutOf(j.config).end * PAGE_SIZE;
    if a < end {
      StartDetermined(mem, j.config, ChunksOf(j), a);
    } else if a < end + |j.image| {
      EagerImage(mem, j.segments, j.config, j.image, j.stack, a);
    } else {
      EagerAbove(mem, j.segments, j.config, j.image, j.stack, a);
    }
  }

  /** What a job can read at its start depends on that job alone exactly if its header image fills a
      page: the file has at least 4096 bytes. */
  lemma StartAloneIff(j: Job, n: nat)
    requires Placed(j, n)
    ensures (forall m1: seq<byte>, m2: seq<byte> :: |m1| == |m2| == n ==> View(m1, j) == View(m2, j)) <==>
            |j.image| == PAGE_SIZE
  {
    hide View, StartRegion, Fit;
    if |j.image| == PAGE_SIZE {
      forall m1: seq<byte>, m2: seq<byte> | |m1| == |m2| == n ensures View(m1, j) == View(m2, j) {
        ViewParts(m1, j);
        ViewParts(m2, j);
        assert Remains(m1, j) == Remains(m2, j) == [];
      }
    } else {
      var m1, m2 := seq(n, _ => 0 as byte), seq(n, _ => 1 as byte);
      var a := (LayoutOf(j.config).end + 1) * PAGE_SIZE - 1;
      ViewByte(m1, j, a);
      ViewByte(m2, j, a);
      assert View(m1, j)[a - START * PAGE_SIZE] != View(m2, j)[a - START * PAGE_SIZE];
    }
  }

  // ----- runs of programs

  /** How a job leaves the memory. */
  ghost predicate Leaves(j: Job, outcome: Outcome, mem: seq<byte>, mem': seq<byte>) {
    match outcome
    case Rejected => mem' == mem
    case Faulted => |mem'| == |mem|
    case Loaded => Placed(j, |mem|) && mem' == Stored(Eager(mem, j.config, ChunksOf(j)), j.stores)
  }

  /** What job j finds at its start in a memory: all of it its own if the image fills a page. */
  ghost predicate Finds(j: Job, mem: seq<byte>, region: seq<byte>) {
    && Placed(j, |mem|) && region == StartRegion(j) + j.image + Remains(mem, j)
    && (|j.image| == PAGE_SIZE ==> region == StartRegion(j) + j.image)
  }

  lemma FindsView(j: Job, mem: seq<byte>)
    requires Placed(j, |mem|)
    ensures Finds(j, mem, View(mem, j))
  {
    hide View, StartRegion, Fit;
    ViewParts(mem, j);
    if |j.image| == PAGE_SIZE {
      assert Remains(mem, j) == [];
    }
  }

  /** Loads one job and, if that succeeds, runs it.  region is what it can read at the start. */
  method JudgeOne(m: Memory, j: Job) returns (r: Outcome, region: seq<byte>)
    requires m.Shape() && m.Tidy() && JobOk(j)
    modifies m.mem, m.entries
    ensures m.Tidy() && Leaves(j, r, old(m.mem[..]), m.mem[..])
    ensures r == Rejected <==> !Admissible(j.segments, j.config, m.userFirst, m.userBreak)
    ensures r == Loaded ==> Finds(j, old(m.mem[..]), region)
  {
    hide Memory.Tidy, Fit, Eager, Chunks, StartByte, Admissible, Stored, LayoutOf, Finds;
    region := [];
    ghost var before := m.mem[..];
    r := Load(m, j.segments, j.config, j.image, j.stack);
    if r == Loaded {
      var end := LayoutOf(j.config).end;
      LoadedFits(j, m.userFirst, m.userBreak);
      PlacedWhere(j, m.mem.Length);
      region := m.mem[START * PAGE_SIZE..(end + 1) * PAGE_SIZE];
      FindsView(j, before);
      var _ := Run(m, end, j.stores);
    }
  }

  lemma LoadedFits(j: Job, userFirst: nat, userBreak: nat)
    requires Admissible(j.segments, j.config, userFirst, userBreak)
    ensures START <= LayoutOf(j.config).end <= userBreak
    ensures forall i :: 0 <= i < |j.segments| ==> SegmentOk(j.segments[i], j.config)
  {
  }

  /** Over any sequence of jobs each program can read what its own load put there, zeros, and, behind
      the image of its header, what the run before it left in that page: nothing if the image is a page. */
  method Judge(m: Memory, jobs: seq<Job>)
    returns (outcomes: seq<Outcome>, regions: seq<seq<byte>>, ghost mems: seq<seq<byte>>)
    requires m.Shape() && m.Tidy() && forall k :: 0 <= k < |jobs| ==> JobOk(jobs[k])
    modifies m.mem, m.entries
    ensures m.Tidy() && |regions| == |outcomes| == |jobs| && |mems| == |jobs| + 1
    ensures mems[0] == old(m.mem[..]) && mems[|jobs|] == m.mem[..]
    ensures forall k :: 0 <= k < |jobs| ==> Leaves(jobs[k], outcomes[k], mems[k], mems[k + 1])
    ensures forall k :: 0 <= k < |jobs| && outcomes[k] == Loaded ==> Finds(jobs[k], mems[k], regions[k])
  {
    hide Memory.Tidy, JobOk, Leaves, Finds;
    outcomes, regions, mems := [], [], [m.mem[..]];
    for i := 0 to |jobs|
      invariant m.Tidy() && |regions| == |outcomes| == i && |mems| == i + 1
      invariant mems[0] == old(m.mem[..]) && mems[i] == m.mem[..]
      invariant forall k :: 0 <= k < i ==> Leaves(jobs[k], outcomes[k], mems[k], mems[k + 1])
      invariant forall k :: 0 <= k < i && outcomes[k] == Loaded ==> Finds(jobs[k], mems[k], regions[k])
    {
      var r, region := JudgeOne(m, jobs[i]);
      outcomes, regions, mems := outcomes + [r], regions + [region], mems + [m.mem[..]];
    }
  }

  // ----- a store of one program that the next can read

  const CODE: seq<Segment> := [Segment(START * PAGE_SIZE, [], 1, false, true)]

  /** A program with three pages of memory that stores one byte. */
  ghost function Storing(image: seq<byte>, at: nat, value: byte): Job {
    Job(CODE, Config(3 * PAGE_SIZE, [], 0, 0, [], 0, Cleared), image, [0], [Store(at, value)])
  }

  /** A program with two pages of memory. */
  ghost function Reading(image: seq<byte>): Job {
    Job(CODE, Config(2 * PAGE_SIZE, [], 0, 0, [], 0, Cleared), image, [0], [])
  }

  /** Both are accepted, with the kernel's 16 MiB below and any break from 0x8200000 on, and the first may
      store into its third page. */
  lemma BothAccepted(image: seq<byte>, at: nat, value: byte, userBreak: nat, n: nat)
    requires 0 < |image| <= PAGE_SIZE && 65 * 512 <= userBreak && n >= 65 * 512 * PAGE_SIZE
    requires START * PAGE_SIZE <= at < (START + 3) * PAGE_SIZE
    ensures var first, second := Storing(image, at, value), Reading(image);
            && Admissible(first.segments, first.config, 8 * 512, userBreak) && Placed(first, n)
            && Admissible(second.segments, second.config, 8 * 512, userBreak) && Placed(second, n)
            && FinalAccess(first.segments, first.config, START + 2) == READ_WRITE
            && LayoutOf(second.config).end == START + 2
  {
    hide Chunks, Fit, Protected;
    var first, second := Storing(image, at, value), Reading(image);
    assert CODE[0].vaddr / PAGE_SIZE == START && PageUp(CODE[0].vaddr + CODE[0].memsz) == START + 1;
    assert SegmentOk(CODE[0], first.config) && SegmentOk(CODE[0], second.config);
    NotCode(START + 2, READ_WRITE);
    PlacedWhere(first, n);
    PlacedWhere(second, n);
  }

  /** The third page of the first program becomes the image page of the second, which reads there what
      the first has stored, whatever that is. */
  lemma EarlierStoreShows(mem: seq<byte>, image1: seq<byte>, image2: seq<byte>, at: nat, value: byte)
    requires 0 < |image1| <= PAGE_SIZE && 0 < |image2| && |mem| >= 65 * 512 * PAGE_SIZE
    requires (START + 2) * PAGE_SIZE + |image2| <= at < (START + 3) * PAGE_SIZE
    ensures var first, second := Storing(image1, at, value), Reading(image2);
            && Placed(first, |mem|) && Placed(second, |mem|)
            && var mem' := Stored(Eager(mem, first.config, ChunksOf(first)), first.stores);
            View(mem', second)[at - START * PAGE_SIZE] == value
  {
    hide Eager, Chunks, View, Fit, Admissible, FinalAccess, LayoutOf, Stored;
    BothAccepted(image1, at, value, 65 * 512, |mem|);
    BothAccepted(image2, at, value, 65 * 512, |mem|);
    var first, second := Storing(image1, at, value), Reading(image2);
    var z := Eager(mem, first.config, ChunksOf(first));
    OneStore(z, at, value);
    ViewByte(z[at := value], second, at);
  }

  lemma NotCode(p: nat, before: Access)
    requires p > START
    ensures Protected(CODE, p, before) == before
  {
    assert CODE[..0] == [];
    assert PageUp(CODE[0].vaddr + CODE[0].memsz) == START + 1;
  }

  lemma OneStore(mem: seq<byte>, at: nat, value: byte)
    requires at < |mem|
    ensures Stored(mem, [Store(at, value)]) == mem[at := value]
  {
    assert [Store(at, value)][..0] == [];
  }
}
