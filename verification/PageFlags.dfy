/** Page-table entries of lib/memory.cpp: 64-bit words with flag bits around a frame address. */
module PageFlags {
  import opened Bits
  import opened Remainders

  // bit numbers
  const PRESENT: nat := 0
  const WRITABLE: nat := 1
  const USER: nat := 2
  const ACCESSED: nat := 5
  const DIRTY: nat := 6
  const DUCK_WRITTEN: nat := 9
  const NO_EXECUTE: nat := 63

  lemma {:induction false} ShiftedBit(w: nat, n: nat, k: nat)
    ensures Bit(Shift(w, n), k) <==> Bit(w, n + k)
  {
    if n == 0 {
    } else {
      ShiftedBit(w / 2, n - 1, k);
    }
  }

  lemma {:induction false} ScaledBit(w: nat, n: nat, k: nat)
    ensures Bit(w * Mask(n), k) <==> k >= n && Bit(w, k - n)
    decreases n
  {
    if n == 0 {
    } else {
      var m := w * Mask(n - 1);
      assert w * Mask(n) == 2 * m;
      if k != 0 {
        ScaledBit(w, n - 1, k - 1);
        assert 2 * m / 2 == m;
      }
    }
  }

  lemma {:induction false} TruncatedBit(w: nat, n: nat, k: nat)
    ensures Bit(w % Mask(n), k) <==> k < n && Bit(w, k)
    decreases n
  {
    if n == 0 {
      ZeroBit(k);
    } else {
      HalfMod(w, Mask(n - 1));
      if k != 0 {
        TruncatedBit(w / 2, n - 1, k - 1);
      }
    }
  }

  /** The flags as the processor and the kernel have them. */
  lemma FlagValues()
    ensures Flags([PRESENT]) == 0x1 && Flags([WRITABLE]) == 0x2 && Flags([USER]) == 0x4
    ensures Flags([ACCESSED]) == 0x20 && Flags([DIRTY]) == 0x40 && Flags([DUCK_WRITTEN]) == 0x200
    ensures Flags([NO_EXECUTE]) == 0x8000_0000_0000_0000
  {
    OneFlag(PRESENT);
    OneFlag(WRITABLE);
    OneFlag(USER);
    OneFlag(ACCESSED);
    OneFlag(DIRTY);
    OneFlag(DUCK_WRITTEN);
    OneFlag(NO_EXECUTE);
    TopFlag();
  }

  lemma SevenMask()
    ensures Mask(7) == 0x80
  {
  }

  lemma TopFlag()
    ensures Mask(NO_EXECUTE) == 0x8000_0000_0000_0000
  {
    hide Mask;
    SevenMask();
    MaskSum(7, 7);
    MaskSum(14, 7);
    MaskSum(21, 21);
    MaskSum(42, 21);
  }

  lemma OneFlag(k: nat)
    ensures Flags([k]) == Mask(k)
  {
    assert [k][..0] == [];
    OrZero(Mask(k));
  }

  lemma {:induction false} OrZero(a: nat)
    ensures Or(0, a) == a
  {
    if a == 0 {
    } else {
      OrZero(a / 2);
    }
  }


  /** clear_page_flags: two shifts in 64 bits and one back. */
  function ClearPageFlags(a: nat): nat {
    Shift(a * Mask(1) % Mask(64), 10) * Mask(9) % Mask(64)
  }

  /** It clears bits 0 to 8 and bit 63 and keeps all others, so the three bits left to the system stay. */
  lemma ClearPageFlagsBit(a: nat, k: nat)
    ensures Bit(ClearPageFlags(a), k) <==> 9 <= k < 63 && Bit(a, k)
  {
    hide Bit, Mask, Shift;
    var x := a * Mask(1) % Mask(64);
    TruncatedBit(Shift(x, 10) * Mask(9), 64, k);
    ScaledBit(Shift(x, 10), 9, k);
    if k >= 9 {
      ShiftedBit(x, 10, k - 9);
      TruncatedBit(a * Mask(1), 64, k + 1);
      ScaledBit(a, 1, k + 1);
    }
  }

  /** The word with exactly the given bits. */
  function Flags(bits: seq<nat>): nat {
    if bits == [] then 0 else Or(Flags(bits[..|bits| - 1]), Mask(bits[|bits| - 1]))
  }

  lemma {:induction false} FlagsBit(bits: seq<nat>, k: nat)
    ensures Bit(Flags(bits), k) <==> k in bits
  {
    if bits == [] {
      ZeroBit(k);
    } else {
      var n := |bits| - 1;
      assert bits == bits[..n] + [bits[n]];
      OrBit(Flags(bits[..n]), Mask(bits[n]), k);
      FlagsBit(bits[..n], k);
      MaskBit(bits[n], k);
    }
  }

  function Reset(entry: nat, bits: seq<nat>): nat {
    Or(ClearPageFlags(entry), Flags(bits))
  }

  function Add(entry: nat, bits: seq<nat>): nat {
    Or(entry, Flags(bits))
  }

  function Drop(entry: nat, bits: seq<nat>): nat {
    Without(entry, Flags(bits))
  }

  lemma EntryBit(entry: nat, bits: seq<nat>, k: nat)
    ensures Bit(Reset(entry, bits), k) <==> (9 <= k < 63 && Bit(entry, k)) || k in bits
    ensures Bit(Add(entry, bits), k) <==> Bit(entry, k) || k in bits
    ensures Bit(Drop(entry, bits), k) <==> Bit(entry, k) && k !in bits
  {
    hide Bit, Flags, ClearPageFlags;
    FlagsBit(bits, k);
    ClearPageFlagsBit(entry, k);
    OrBit(ClearPageFlags(entry), Flags(bits), k);
    OrBit(entry, Flags(bits), k);
    WithoutBit(entry, Flags(bits), k);
  }

  /** What an entry allows. */
  datatype Access = Access(present: bool, user: bool, writable: bool, executable: bool)

  ghost function AccessOf(entry: nat): Access {
    Access(Bit(entry, PRESENT), Bit(entry, USER), Bit(entry, WRITABLE), !Bit(entry, NO_EXECUTE))
  }

  /** Reset decides the access, and the bits that are kept for accounting do not matter for it. */
  lemma EntryAccess(entry: nat, bits: seq<nat>)
    ensures AccessOf(Reset(entry, bits)) ==
            Access(PRESENT in bits, USER in bits, WRITABLE in bits, NO_EXECUTE !in bits)
    ensures bits == [WRITABLE] ==> AccessOf(Add(entry, bits)) == AccessOf(entry).(writable := true)
    ensures bits == [NO_EXECUTE] ==> AccessOf(Drop(entry, bits)) == AccessOf(entry).(executable := true)
    ensures (forall k :: k in bits ==> k == ACCESSED || k == DIRTY || k == DUCK_WRITTEN) ==>
              AccessOf(Add(entry, bits)) == AccessOf(Drop(entry, bits)) == AccessOf(entry)
  {
    hide Bit, Reset, Add, Drop;
    EntryBit(entry, bits, PRESENT);
    EntryBit(entry, bits, USER);
    EntryBit(entry, bits, WRITABLE);
    EntryBit(entry, bits, NO_EXECUTE);
  }
}
