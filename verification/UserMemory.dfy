/** The mapped memory and the flag setters of lib/memory.cpp.

    Virtual memory below the break is one range of bytes, each page with its level-1 entry.  Every
    write, by the kernel or by the program, makes the processor set DIRTY in the page's entry. */
module UserMemory {
  import opened Machine
  import opened Bits
  import opened PageFlags

  predicate Written(entry: nat) {
    Bit(entry, DUCK_WRITTEN)
  }

  predicate IsDirty(entry: nat) {
    Bit(entry, DIRTY)
  }

  /** data written over s at address a. */
  ghost function Put(s: seq<byte>, a: nat, data: seq<byte>): (r: seq<byte>)
    requires a + |data| <= |s|
    ensures |r| == |s| && forall i :: 0 <= i < |s| ==> r[i] == if a <= i < a + |data| then data[i - a] else s[i]
  {
    s[..a] + data + s[a + |data|..]
  }

  /** The bytes from lo to hi set to zero: the slow memset. */
  ghost function Zeroed(s: seq<byte>, lo: nat, hi: nat): (r: seq<byte>)
    requires lo <= hi <= |s|
    ensures |r| == |s| && forall i :: 0 <= i < |s| ==> r[i] == if lo <= i < hi then 0 else s[i]
  {
    s[..lo] + seq(hi - lo, _ => 0) + s[hi..]
  }

  function PageUp(a: nat): nat {
    (a + PAGE_SIZE - 1) / PAGE_SIZE
  }

  class Memory {
    const mem: array<byte>
    const entries: array<nat>
    const userFirst: nat
    const userBreak: nat

    ghost predicate Shape()
      reads this
    {
      mem.Length == entries.Length * PAGE_SIZE && userFirst <= userBreak <= entries.Length
    }

    /** A byte of a user page that is not marked is zero. */
    ghost predicate Tidy()
      requires Shape()
      reads this, mem, entries
    {
      forall a :: userFirst * PAGE_SIZE <= a < userBreak * PAGE_SIZE ==> mem[a] == 0 || Written(entries[a / PAGE_SIZE])
    }

    constructor (pages: nat, userFirst: nat, userBreak: nat, contents: seq<byte>)
      requires userFirst <= userBreak <= pages && |contents| == pages * PAGE_SIZE
      ensures Shape() && Tidy() && this.userFirst == userFirst && this.userBreak == userBreak && fresh(mem)
      ensures fresh(entries)
      ensures mem[..] == contents
    {
      this.userFirst, this.userBreak := userFirst, userBreak;
      mem := new byte[pages * PAGE_SIZE](i requires 0 <= i < pages * PAGE_SIZE => contents[i]);
      entries := new nat[pages](p requires 0 <= p < pages => Flags([PRESENT, WRITABLE, ACCESSED, DIRTY, DUCK_WRITTEN]));
      FlagsBit([PRESENT, WRITABLE, ACCESSED, DIRTY, DUCK_WRITTEN], DUCK_WRITTEN);
      new;
      hide Bit, Flags;
      assert mem[..] == contents;
    }

    /** set_page_flags_*: the same bits for all pages, DUCK_WRITTEN kept and DIRTY gone. */
    method ResetFlags(first: nat, last: nat, bits: seq<nat>)
      requires Shape() && first <= last <= entries.Length && DIRTY !in bits && DUCK_WRITTEN !in bits
      modifies entries
      ensures forall p :: 0 <= p < entries.Length ==>
                entries[p] == if first <= p < last then Reset(old(entries[p]), bits) else old(entries[p])
      ensures old(Tidy()) ==> Tidy()
    {
      hide Bit, Reset;
      for p := first to last
        invariant forall q :: 0 <= q < entries.Length ==>
                  entries[q] == if first <= q < p then Reset(old(entries[q]), bits) else old(entries[q])
        invariant forall q :: 0 <= q < entries.Length ==> Written(entries[q]) == Written(old(entries[q]))
      {
        EntryBit(entries[p], bits, DUCK_WRITTEN);
        entries[p] := Reset(entries[p], bits);
      }
    }

    method AddFlags(first: nat, last: nat, bits: seq<nat>)
      requires Shape() && first <= last <= entries.Length
      modifies entries
      ensures forall p :: 0 <= p < entries.Length ==>
                entries[p] == if first <= p < last then Add(old(entries[p]), bits) else old(entries[p])
      ensures old(Tidy()) ==> Tidy()
    {
      hide Bit, Add;
      for p := first to last
        invariant forall q :: 0 <= q < entries.Length ==>
                  entries[q] == if first <= q < p then Add(old(entries[q]), bits) else old(entries[q])
        invariant forall q :: 0 <= q < entries.Length ==> Written(old(entries[q])) ==> Written(entries[q])
      {
        EntryBit(entries[p], bits, DUCK_WRITTEN);
        entries[p] := Add(entries[p], bits);
      }
    }

    method DropFlags(first: nat, last: nat, bits: seq<nat>)
      requires Shape() && first <= last <= entries.Length && DUCK_WRITTEN !in bits
      modifies entries
      ensures forall p :: 0 <= p < entries.Length ==>
                entries[p] == if first <= p < last then Drop(old(entries[p]), bits) else old(entries[p])
      ensures old(Tidy()) ==> Tidy()
    {
      hide Bit, Drop;
      for p := first to last
        invariant forall q :: 0 <= q < entries.Length ==>
                  entries[q] == if first <= q < p then Drop(old(entries[q]), bits) else old(entries[q])
        invariant forall q :: 0 <= q < entries.Length ==> Written(entries[q]) == Written(old(entries[q]))
      {
        EntryBit(entries[p], bits, DUCK_WRITTEN);
        entries[p] := Drop(entries[p], bits);
      }
    }

    /** memcpy of the kernel, and what it does to DIRTY. */
    method Copy(a: nat, data: seq<byte>)
      requires Shape() && a + |data| <= mem.Length
      modifies mem, entries
      ensures mem[..] == Put(old(mem[..]), a, data)
      ensures forall p :: 0 <= p < entries.Length ==>
                Written(entries[p]) == Written(old(entries[p])) && AccessOf(entries[p]) == AccessOf(old(entries[p]))
      ensures forall p :: 0 <= p < a / PAGE_SIZE || PageUp(a + |data|) <= p < entries.Length ==>
                entries[p] == old(entries[p])
    {
      hide Bit, Add, Put, AccessOf;
      for i := 0 to |data|
        invariant forall b :: 0 <= b < mem.Length ==> mem[b] == if a <= b < a + i then data[b - a] else old(mem[b])
        invariant forall p :: 0 <= p < entries.Length ==>
                    Written(entries[p]) == Written(old(entries[p])) && AccessOf(entries[p]) == AccessOf(old(entries[p]))
        invariant forall p :: 0 <= p < a / PAGE_SIZE || PageUp(a + |data|) <= p < entries.Length ==>
                  entries[p] == old(entries[p])
      {
        assert a / PAGE_SIZE <= (a + i) / PAGE_SIZE < PageUp(a + |data|);
        StoreByte(a + i, data[i]);
      }
    }

    method StoreByte(a: nat, value: byte)
      requires Shape() && a < mem.Length
      modifies mem, entries
      ensures mem[..] == old(mem[..])[a := value]
      ensures forall p :: 0 <= p < entries.Length ==>
                entries[p] == if p == a / PAGE_SIZE then Add(old(entries[p]), [DIRTY]) else old(entries[p])
      ensures forall p :: 0 <= p < entries.Length ==>
                Written(entries[p]) == Written(old(entries[p])) && AccessOf(entries[p]) == AccessOf(old(entries[p]))
    {
      hide Bit, Add, AccessOf;
      EntryBit(entries[a / PAGE_SIZE], [DIRTY], DUCK_WRITTEN);
      EntryAccess(entries[a / PAGE_SIZE], [DIRTY]);
      mem[a] := value;
      entries[a / PAGE_SIZE] := Add(entries[a / PAGE_SIZE], [DIRTY]);
    }

    /** memcpy followed by set_duck_written of the pages it touched. */
    method CopyMarked(a: nat, data: seq<byte>)
      requires Shape() && a + |data| <= mem.Length && Tidy()
      modifies mem, entries
      ensures Tidy() && mem[..] == Put(old(mem[..]), a, data)
      ensures forall p :: 0 <= p < entries.Length ==> AccessOf(entries[p]) == AccessOf(old(entries[p]))
      ensures forall p :: 0 <= p < a / PAGE_SIZE || PageUp(a + |data|) <= p < entries.Length ==>
                entries[p] == old(entries[p])
      ensures forall p :: a / PAGE_SIZE <= p < PageUp(a + |data|) ==> Written(entries[p])
    {
      hide Bit, Add, Put, AccessOf;
      Copy(a, data);
      label copied:
      AddFlags(a / PAGE_SIZE, PageUp(a + |data|), [DUCK_WRITTEN]);
      forall p | 0 <= p < entries.Length ensures AccessOf(entries[p]) == AccessOf(old@copied(entries[p])) {
        EntryAccess(old@copied(entries[p]), [DUCK_WRITTEN]);
      }
      forall p | a / PAGE_SIZE <= p < PageUp(a + |data|) ensures Written(entries[p]) {
        EntryBit(old@copied(entries[p]), [DUCK_WRITTEN], DUCK_WRITTEN);
      }
      forall b | userFirst * PAGE_SIZE <= b < userBreak * PAGE_SIZE
        ensures mem[b] == 0 || Written(entries[b / PAGE_SIZE])
      {
        if a <= b < a + |data| {
          assert a / PAGE_SIZE <= b / PAGE_SIZE < PageUp(a + |data|);
        } else {
          assert mem[b] == old(mem[b]);
          EntryBit(old@copied(entries[b / PAGE_SIZE]), [DUCK_WRITTEN], DUCK_WRITTEN);
        }
      }
    }

    method ZeroPage(p: nat)
      requires Shape() && p < entries.Length
      modifies mem
      ensures mem[..] == Zeroed(old(mem[..]), p * PAGE_SIZE, p * PAGE_SIZE + PAGE_SIZE)
    {
      hide Zeroed;
      for i := 0 to PAGE_SIZE
        invariant forall b :: 0 <= b < mem.Length ==>
                  mem[b] == if p * PAGE_SIZE <= b < p * PAGE_SIZE + i then 0 else old(mem[b])
      {
        mem[p * PAGE_SIZE + i] := 0;
      }
    }

    /** clear_duck_written_pages.  It clears only marked pages, and that is the slow memset. */
    method ClearWritten(first: nat, last: nat)
      requires Shape() && userFirst <= first <= last <= userBreak && Tidy()
      modifies mem, entries
      ensures Tidy() && mem[..] == Zeroed(old(mem[..]), first * PAGE_SIZE, last * PAGE_SIZE)
      ensures forall p :: 0 <= p < entries.Length ==> AccessOf(entries[p]) == AccessOf(old(entries[p]))
      ensures forall p :: 0 <= p < first || last <= p < entries.Length ==> entries[p] == old(entries[p])
      ensures forall p :: first <= p < last ==>
                !Written(entries[p]) && (Written(old(entries[p])) ==> !IsDirty(entries[p]))
    {
      hide Bit, Drop, Zeroed, AccessOf;
      for p := first to last
        invariant forall b :: 0 <= b < mem.Length ==>
                  mem[b] == if first * PAGE_SIZE <= b < p * PAGE_SIZE then 0 else old(mem[b])
        invariant forall q :: 0 <= q < first || p <= q < entries.Length ==> entries[q] == old(entries[q])
        invariant forall q :: 0 <= q < entries.Length ==> AccessOf(entries[q]) == AccessOf(old(entries[q]))
        invariant forall q :: first <= q < p ==>
                  !Written(entries[q]) && (Written(old(entries[q])) ==> !IsDirty(entries[q]))
      {
        if Written(entries[p]) {
          ZeroPage(p);
          EntryAccess(entries[p], [DIRTY, DUCK_WRITTEN]);
          EntryBit(entries[p], [DIRTY, DUCK_WRITTEN], DIRTY);
          EntryBit(entries[p], [DIRTY, DUCK_WRITTEN], DUCK_WRITTEN);
          entries[p] := Drop(entries[p], [DIRTY, DUCK_WRITTEN]);
        }
        forall b | p * PAGE_SIZE <= b < p * PAGE_SIZE + PAGE_SIZE ensures mem[b] == 0 {
          assert b / PAGE_SIZE == p;
        }
      }
      forall b | userFirst * PAGE_SIZE <= b < userBreak * PAGE_SIZE
        ensures mem[b] == 0 || Written(entries[b / PAGE_SIZE])
      {
        if !(first * PAGE_SIZE <= b < last * PAGE_SIZE) {
          assert mem[b] == old(mem[b]) && entries[b / PAGE_SIZE] == old(entries[b / PAGE_SIZE]);
        }
      }
    }

    /** What is not zero is marked, or dirty and in the given pages. */
    ghost predicate Pending(first: nat, last: nat)
      requires Shape()
      reads this, mem, entries
    {
      forall a :: userFirst * PAGE_SIZE <= a < userBreak * PAGE_SIZE ==>
        || mem[a] == 0 || Written(entries[a / PAGE_SIZE])
        || (first <= a / PAGE_SIZE < last && IsDirty(entries[a / PAGE_SIZE]))
    }

    /** set_duck_written_by_dirty. */
    method MarkByDirty(first: nat, last: nat)
      requires Shape() && first <= last <= entries.Length && Pending(first, last)
      modifies entries
      ensures Tidy()
      ensures forall p :: 0 <= p < entries.Length ==> IsDirty(entries[p]) == IsDirty(old(entries[p]))
      ensures forall p :: 0 <= p < entries.Length ==>
                (Written(entries[p]) <==> Written(old(entries[p])) || (first <= p < last && IsDirty(old(entries[p]))))
    {
      hide Bit, Add;
      for p := first to last
        invariant forall q :: 0 <= q < first || p <= q < entries.Length ==> entries[q] == old(entries[q])
        invariant forall q :: 0 <= q < entries.Length ==> IsDirty(entries[q]) == IsDirty(old(entries[q]))
        invariant forall q :: 0 <= q < entries.Length ==>
                  (Written(entries[q]) <==> Written(old(entries[q])) || (first <= q < p && IsDirty(old(entries[q]))))
      {
        if IsDirty(entries[p]) {
          EntryBit(entries[p], [DUCK_WRITTEN], DUCK_WRITTEN);
          EntryBit(entries[p], [DUCK_WRITTEN], DIRTY);
          entries[p] := Add(entries[p], [DUCK_WRITTEN]);
        }
      }
    }

    method CountDirtyPages(first: nat, last: nat) returns (n: nat)
      requires Shape() && first <= last <= entries.Length
      ensures n == |set p | first <= p < last && IsDirty(entries[p])|
    {
      hide IsDirty;
      n := 0;
      for p := first to last
        invariant n == |set q | first <= q < p && IsDirty(entries[q])|
      {
        ghost var before := set q | first <= q < p && IsDirty(entries[q]);
        ghost var after := set q | first <= q < p + 1 && IsDirty(entries[q]);
        assert after == if IsDirty(entries[p]) then before + {p} else before;
        if IsDirty(entries[p]) {
          n := n + 1;
        }
      }
    }
  }
}
