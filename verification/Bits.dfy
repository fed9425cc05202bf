/** Bitwise operations of unsigned words, on natural numbers. */
module Bits {
  /** w >> k */
  function Shift(w: nat, k: nat): nat {
    if k == 0 then w else Shift(w / 2, k - 1)
  }

  /** Bit k of w. */
  predicate Bit(w: nat, k: nat) {
    Shift(w, k) % 2 == 1
  }

  lemma {:induction false} ShiftMore(w: nat, k: nat)
    ensures Shift(w, k + 1) == Shift(w, k) / 2
  {
    if k == 0 {
    } else {
      ShiftMore(w / 2, k - 1);
    }
  }

  function Low(b: bool): (r: nat)
    ensures r < 2
  {
    if b then 1 else 0
  }

  /** a | b */
  function Or(a: nat, b: nat): nat
    decreases a + b
  {
    if a == 0 && b == 0 then 0 else Low(a % 2 == 1 || b % 2 == 1) + 2 * Or(a / 2, b / 2)
  }

  /** a & ~b */
  function Without(a: nat, b: nat): nat {
    if a == 0 then 0 else Low(a % 2 == 1 && b % 2 == 0) + 2 * Without(a / 2, b / 2)
  }

  /** a ^ b */
  function Xor(a: nat, b: nat): nat
    decreases a + b
  {
    if a == 0 && b == 0 then 0 else Low((a % 2 == 1) != (b % 2 == 1)) + 2 * Xor(a / 2, b / 2)
  }

  /** 1 << k */
  function Mask(k: nat): (r: nat)
    ensures r > 0
  {
    if k == 0 then 1 else 2 * Mask(k - 1)
  }

  /** The bits of a word are its lowest one and those of its half. */
  lemma BitsOfHalf(b: bool, h: nat, k: nat)
    ensures Bit(Low(b) + 2 * h, 0) == b && Bit(Low(b) + 2 * h, k + 1) == Bit(h, k)
  {
    assert (Low(b) + 2 * h) / 2 == h && (Low(b) + 2 * h) % 2 == Low(b);
  }

  lemma HalfBit(w: nat, k: nat)
    ensures Bit(w, 0) == (w % 2 == 1) && Bit(w, k + 1) == Bit(w / 2, k)
  {
  }

  lemma {:induction false} ZeroBit(k: nat)
    ensures !Bit(0, k)
  {
    if k == 0 {
    } else {
      ZeroBit(k - 1);
    }
  }

  lemma {:induction false} OrBit(a: nat, b: nat, k: nat)
    ensures Bit(Or(a, b), k) <==> Bit(a, k) || Bit(b, k)
    decreases k
  {
    hide Bit;
    if a == 0 && b == 0 {
      ZeroBit(k);
    } else {
      var p := if k == 0 then 0 else k - 1;
      HalfBit(a, p);
      HalfBit(b, p);
      BitsOfHalf(a % 2 == 1 || b % 2 == 1, Or(a / 2, b / 2), p);
      if k != 0 {
        OrBit(a / 2, b / 2, p);
      }
    }
  }

  lemma {:induction false} WithoutBit(a: nat, b: nat, k: nat)
    ensures Bit(Without(a, b), k) <==> Bit(a, k) && !Bit(b, k)
    decreases k
  {
    hide Bit;
    if a == 0 {
      ZeroBit(k);
    } else {
      var p := if k == 0 then 0 else k - 1;
      HalfBit(a, p);
      HalfBit(b, p);
      BitsOfHalf(a % 2 == 1 && b % 2 == 0, Without(a / 2, b / 2), p);
      if k != 0 {
        WithoutBit(a / 2, b / 2, p);
      }
    }
  }

  lemma {:induction false} MaskBit(k: nat, j: nat)
    ensures Bit(Mask(k), j) <==> j == k
  {
    if k == 0 {
      if j != 0 {
        ZeroBit(j - 1);
      }
    } else if j != 0 {
      MaskBit(k - 1, j - 1);
    }
  }

  /** The lowest set bit. */
  ghost predicate LowestBit(w: nat, k: nat) {
    Bit(w, k) && forall j :: 0 <= j < k ==> !Bit(w, j)
  }

  /** get_lower_bit_index. */
  method LowerBitIndex(w: nat) returns (k: nat)
    requires w != 0
    ensures LowestBit(w, k)
  {
    k := 0;
    while Shift(w, k) % 2 == 0
      invariant Shift(w, k) > 0 && forall j :: 0 <= j < k ==> !Bit(w, j)
      decreases Shift(w, k)
    {
      ShiftMore(w, k);
      k := k + 1;
    }
  }

  lemma {:induction false} XorZero(a: nat, b: nat)
    ensures Xor(a, b) == 0 <==> a == b
    decreases a + b
  {
    if a == 0 && b == 0 {
    } else {
      XorZero(a / 2, b / 2);
    }
  }

  lemma {:induction false} XorShift(a: nat, b: nat, k: nat)
    ensures Shift(Xor(a, b), k) == Xor(Shift(a, k), Shift(b, k))
    decreases k
  {
    if k == 0 {
    } else {
      assert Xor(a, b) / 2 == Xor(a / 2, b / 2);
      XorShift(a / 2, b / 2, k - 1);
    }
  }

  lemma {:induction false} MaskSum(a: nat, b: nat)
    ensures Mask(a + b) == Mask(a) * Mask(b)
  {
    if a == 0 {
      assert 1 * Mask(b) == Mask(b);
    } else {
      MaskSum(a - 1, b);
      assert 2 * (Mask(a - 1) * Mask(b)) == 2 * Mask(a - 1) * Mask(b);
    }
  }
}
