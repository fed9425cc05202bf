/** Whole runs of stores and loads: what a load returns, and where the pages are. */
module CacheRuns {
  import opened Machine
  import opened PagePool
  import opened DigestIndex
  import opened CacheSpec
  import opened DuckCaching

  datatype Op = StoreOp(digest: Digest, src: seq<byte>, now: nat) | LoadOp(digest: Digest, len: nat, now: nat)

  /** What came back: success, and the bytes of a load. */
  datatype Reply = Reply(ok: bool, dst: seq<byte>)

  ghost predicate StoresWith(s: State, d: Digest, src: seq<byte>, now: nat, ok: bool, s': State) {
    exists gone :: StoreStep(s, d, src, now, ok, gone, s')
  }

  ghost predicate Step(s: State, op: Op, r: Reply, s': State) {
    match op
    case StoreOp(d, src, now) => StoresWith(s, d, src, now, r.ok, s')
    case LoadOp(d, len, now) => LoadStep(s, d, len, now, r.ok, r.dst, s')
  }

  ghost predicate Run(states: seq<State>, ops: seq<Op>, replies: seq<Reply>) {
    && |states| == |ops| + 1 && |replies| == |ops|
    && (forall i :: 0 <= i < |ops| ==> Step(states[i], ops[i], replies[i], states[i + 1]))
  }

  /** Operation j stored `bytes` under d where there was no such entry, and the entry has been there since. */
  ghost predicate CreatedBy(states: seq<State>, ops: seq<Op>, replies: seq<Reply>, j: nat, n: nat, d: Digest,
                            bytes: seq<byte>) {
    && j < n <= |ops| && |states| == |ops| + 1 && |replies| == |ops|
    && ops[j].StoreOp? && ops[j].digest == d && ops[j].src == bytes && replies[j].ok
    && d !in states[j].entries
    && (forall k :: j < k <= n ==> d in states[k].entries && states[k].entries[d].bytes == bytes)
  }

  /** The bytes of an entry only ever come from the store that created it. */
  lemma StepKeepsBytes(s: State, op: Op, r: Reply, s': State, d: Digest)
    requires Step(s, op, r, s') && d in s'.entries
    ensures if d in s.entries then s'.entries[d].bytes == s.entries[d].bytes
            else op.StoreOp? && op.digest == d && r.ok && s'.entries[d].bytes == op.src
  {
    if op.StoreOp? {
      var gone :| StoreStep(s, op.digest, op.src, op.now, r.ok, gone, s');
      hide Evicts;
    }
  }

  lemma {:induction false} EntryHasCreator(states: seq<State>, ops: seq<Op>, replies: seq<Reply>, n: nat,
                                           d: Digest) returns (j: nat)
    requires Run(states, ops, replies) && Initial(states[0])
    requires n <= |ops| && d in states[n].entries
    ensures CreatedBy(states, ops, replies, j, n, d, states[n].entries[d].bytes)
    decreases n
  {
    hide Step;
    if n == 0 {
      assert false;
    } else {
      assert Step(states[n - 1], ops[n - 1], replies[n - 1], states[n]);
      StepKeepsBytes(states[n - 1], ops[n - 1], replies[n - 1], states[n], d);
      if d in states[n - 1].entries {
        j := EntryHasCreator(states, ops, replies, n - 1, d);
      } else {
        j := n - 1;
      }
    }
  }

  /** Every successful load returns exactly the bytes of the store that created the entry, whatever
      was stored, evicted and reused in between. */
  lemma LoadReturnsStored(states: seq<State>, ops: seq<Op>, replies: seq<Reply>, n: nat) returns (j: nat)
    requires Run(states, ops, replies) && Initial(states[0])
    requires n < |ops| && ops[n].LoadOp? && replies[n].ok
    ensures |replies[n].dst| == ops[n].len
    ensures CreatedBy(states, ops, replies, j, n, ops[n].digest, replies[n].dst)
  {
    assert Step(states[n], ops[n], replies[n], states[n + 1]);
    j := EntryHasCreator(states, ops, replies, n, ops[n].digest);
  }

  // ----- page accounting

  /** The pages that the entries occupy. */
  ghost function Used(entries: map<Digest, Entry>): nat
    decreases entries.Keys
  {
    if entries.Keys == {} then 0
    else
      var d :| d in entries;
      PagesFor(|entries[d].bytes|) + Used(entries - {d})
  }

  lemma {:induction false} UsedWithout(entries: map<Digest, Entry>, d: Digest)
    requires d in entries
    ensures Used(entries) == PagesFor(|entries[d].bytes|) + Used(entries - {d})
    decreases entries.Keys
  {
    var e :| e in entries && Used(entries) == PagesFor(|entries[e].bytes|) + Used(entries - {e});
    if e == d {
    } else {
      UsedWithout(entries - {e}, d);
      UsedWithout(entries - {d}, e);
      assert entries - {e} - {d} == entries - {d} - {e};
    }
  }

  lemma {:induction false} UsedWithoutAll(entries: map<Digest, Entry>, gone: seq<Digest>)
    requires Distinct(gone) && forall i :: 0 <= i < |gone| ==> gone[i] in entries
    ensures Used(entries) == PagesOf(entries, gone) + Used(entries - Keys(gone))
  {
    if gone == [] {
      assert entries - Keys(gone) == entries;
    } else {
      var n := |gone| - 1;
      UsedWithoutAll(entries, gone[..n]);
      assert gone[n] !in gone[..n];
      UsedWithout(entries - Keys(gone[..n]), gone[n]);
      assert entries - Keys(gone[..n]) - {gone[n]} == entries - Keys(gone);
    }
  }

  /** No page is lost or counted twice: free pages and the pages of the entries add up. */
  ghost predicate Conserved(s: State) {
    s.freePages + Used(s.entries) == s.totalPages
  }

  lemma StoreConserves(s: State, d: Digest, src: seq<byte>, now: nat, ok: bool, gone: seq<Digest>, s': State)
    requires StoreStep(s, d, src, now, ok, gone, s') && Conserved(s)
    ensures Conserved(s')
  {
    if d !in s.entries && ok {
      UsedWithoutAll(s.entries, gone);
      var left := s.entries - Keys(gone);
      UsedWithout(s'.entries, d);
      assert s'.entries - {d} == left;
    }
  }

  lemma LoadConserves(s: State, d: Digest, len: nat, now: nat, ok: bool, dst: seq<byte>, s': State)
    requires LoadStep(s, d, len, now, ok, dst, s') && Conserved(s)
    ensures Conserved(s')
  {
    if ok {
      UsedWithout(s.entries, d);
      UsedWithout(s'.entries, d);
      assert s'.entries - {d} == s.entries - {d};
    }
  }

  lemma {:induction false} RunConserves(states: seq<State>, ops: seq<Op>, replies: seq<Reply>, n: nat)
    requires Run(states, ops, replies) && Initial(states[0]) && n <= |ops|
    ensures Conserved(states[n]) && states[n].totalPages == states[0].totalPages
  {
    if n == 0 {
    } else {
      RunConserves(states, ops, replies, n - 1);
      var s, op, r, s' := states[n - 1], ops[n - 1], replies[n - 1], states[n];
      assert Step(s, op, r, s');
      if op.StoreOp? {
        var gone :| StoreStep(s, op.digest, op.src, op.now, r.ok, gone, s');
        StoreConserves(s, op.digest, op.src, op.now, r.ok, gone, s');
      } else {
        LoadConserves(s, op.digest, op.len, op.now, r.ok, r.dst, s');
      }
    }
  }

  /** A run is extended by one step. */
  lemma RunNext(states: seq<State>, ops: seq<Op>, replies: seq<Reply>, op: Op, r: Reply, s: State)
    requires Run(states, ops, replies) && Step(states[|ops|], op, r, s)
    ensures Run(states + [s], ops + [op], replies + [r])
  {
    hide Step;
    var all := states + [s];
    forall i | 0 <= i < |ops| + 1 ensures Step(all[i], (ops + [op])[i], (replies + [r])[i], all[i + 1]) {
      assert i < |ops| ==> Step(states[i], ops[i], replies[i], states[i + 1]);
    }
  }

  /** The cache object behaves as a run of the specification, for every sequence of operations. */
  method Serve(cache: DuckCache, ops: seq<Op>) returns (replies: seq<Reply>, ghost states: seq<State>)
    requires cache.Valid()
    requires forall i :: 0 <= i < |ops| ==> ops[i].now > 0
    requires forall i :: 0 <= i < |ops| && ops[i].StoreOp? ==> |ops[i].src| + PAGE_CONTENT <= TWO64
    modifies cache, cache.objHash, cache.objDigest, cache.objMeta, cache.sortIds, cache.pageNext, cache.pageData
    ensures cache.Valid() && Run(states, ops, replies)
    ensures states[0] == old(cache.View()) && states[|ops|] == cache.View()
  {
    hide Step, StoresWith, LoadStep;
    replies, states := [], [cache.View()];
    var i := 0;
    while i < |ops|
      invariant 0 <= i <= |ops| && cache.Valid()
      invariant Run(states, ops[..i], replies)
      invariant states[0] == old(cache.View()) && states[i] == cache.View()
    {
      var r := ServeOne(cache, ops[i]);
      RunNext(states, ops[..i], replies, ops[i], r, cache.View());
      replies := replies + [r];
      states := states + [cache.View()];
      assert ops[..i + 1] == ops[..i] + [ops[i]];
      i := i + 1;
    }
    assert ops[..i] == ops;
  }

  method ServeOne(cache: DuckCache, op: Op) returns (r: Reply)
    requires cache.Valid() && op.now > 0
    requires op.StoreOp? ==> |op.src| + PAGE_CONTENT <= TWO64
    modifies cache, cache.objHash, cache.objDigest, cache.objMeta, cache.sortIds, cache.pageNext, cache.pageData
    ensures cache.Valid() && Step(old(cache.View()), op, r, cache.View())
  {
    match op
    case StoreOp(d, src, now) =>
      var ok;
      ghost var gone;
      ok, gone := cache.Store(d, src, now);
      r := Reply(ok, []);
      assert StoresWith(old(cache.View()), d, src, now, ok, cache.View());
    case LoadOp(d, len, now) =>
      var ok, dst := cache.Load(d, len, now);
      r := Reply(ok, dst);
  }
}
