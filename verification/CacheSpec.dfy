/** What DuckCache promises, without pages or arrays: a bounded map from digests to bytes that
    makes room by dropping least recently used entries. */
module CacheSpec {
  import opened Machine
  import opened PagePool
  import opened DigestIndex

  datatype Entry = Entry(bytes: seq<byte>, lastUsed: nat)

  datatype State = State(entries: map<Digest, Entry>, freePages: nat, totalPages: nat, maxObjects: nat)

  /** The pages given back when the entries of `gone` are dropped. */
  ghost function PagesOf(entries: map<Digest, Entry>, gone: seq<Digest>): nat {
    if gone == [] then 0
    else
      var d := gone[|gone| - 1];
      PagesOf(entries, gone[..|gone| - 1]) + if d in entries then PagesFor(|entries[d].bytes|) else 0
  }

  ghost function Keys(gone: seq<Digest>): set<Digest> {
    set d | d in gone
  }

  /** Dropping `gone` leaves `need` pages and one object slot. */
  ghost predicate Room(s: State, gone: seq<Digest>, need: nat) {
    && need <= s.freePages + PagesOf(s.entries, gone)
    && |s.entries| + 1 <= s.maxObjects + |gone|
  }

  /** `gone` starts some order of the entries from least to most recently used. */
  ghost predicate LruPrefix(s: State, gone: seq<Digest>) {
    && Distinct(gone)
    && (forall i :: 0 <= i < |gone| ==> gone[i] in s.entries)
    && (forall i, j :: 0 <= i < j < |gone| ==> s.entries[gone[i]].lastUsed <= s.entries[gone[j]].lastUsed)
    && (forall i, d :: 0 <= i < |gone| && d in s.entries && d !in gone ==>
                         s.entries[gone[i]].lastUsed <= s.entries[d].lastUsed)
  }

  /** `gone` is the shortest prefix of a least-recently-used order that makes room. */
  ghost predicate Evicts(s: State, gone: seq<Digest>, need: nat) {
    && LruPrefix(s, gone)
    && Room(s, gone, need)
    && (forall k :: 0 <= k < |gone| ==> !Room(s, gone[..k], need))
  }

  ghost predicate StoreStep(s: State, d: Digest, src: seq<byte>, now: nat, ok: bool, gone: seq<Digest>, s': State) {
    if d in s.entries then
      ok && gone == [] && s' == s
    else if PagesFor(|src|) > s.totalPages then
      !ok && gone == [] && s' == s
    else
      && ok
      && Evicts(s, gone, PagesFor(|src|))
      && s'.entries == (s.entries - Keys(gone))[d := Entry(src, now)]
      && s'.freePages == s.freePages + PagesOf(s.entries, gone) - PagesFor(|src|)
      && s'.totalPages == s.totalPages && s'.maxObjects == s.maxObjects
  }

  ghost predicate LoadStep(s: State, d: Digest, len: nat, now: nat, ok: bool, dst: seq<byte>, s': State) {
    if d in s.entries && |s.entries[d].bytes| == len then
      ok && dst == s.entries[d].bytes && s' == s.(entries := s.entries[d := Entry(dst, now)])
    else
      !ok && s' == s
  }

  ghost predicate Initial(s: State) {
    s.entries == map[] && s.freePages == s.totalPages && s.maxObjects >= 1
  }
}
