/** Four-level address translation (section 4.5 of the Intel SDM, volume 3A) and the recursively
    mapped addresses of lib/memory.cpp. */
module PageWalk {
  import opened Machine
  import opened Bits
  import opened Remainders


  /** The index into the table of level k, 4 at the top. */
  function Index(k: nat, vaddr: nat): (r: nat)
    requires 1 <= k <= 4
    ensures r < 512
  {
    var shift := match k { case 1 => 0x1000 case 2 => 0x20_0000 case 3 => 0x4000_0000 case _ => 0x80_0000_0000 };
    vaddr / shift % 512
  }

  function Indices(vaddr: nat): (r: seq<nat>)
    ensures |r| == 4
  {
    [Index(4, vaddr), Index(3, vaddr), Index(2, vaddr), Index(1, vaddr)]
  }

  /** The page that entry i of the table in page t points to, if that entry is present. */
  function Frame(words: seq<nat>, t: nat, i: nat): Option<nat> {
    if 512 * t + i < |words| && Bit(words[512 * t + i], 0)
    then Some(words[512 * t + i] / 0x1000 % 0x100_0000_0000) else None
  }

  /** The table that entry i of the table in page t points to: present and not a huge page. */
  function Step(words: seq<nat>, t: nat, i: nat): Option<nat> {
    if 512 * t + i < |words| && !Bit(words[512 * t + i], 7) then Frame(words, t, i) else None
  }

  /** The table reached from table t. */
  function Follow(words: seq<nat>, t: nat, indices: seq<nat>): Option<nat>
    decreases |indices|
  {
    if indices == [] then Some(t)
    else
      match Step(words, t, indices[0])
      case None => None
      case Some(t') => Follow(words, t', indices[1..])
  }

  /** The physical address of a virtual one that a 4 KiB page maps. */
  function Translate(words: seq<nat>, p4: nat, vaddr: nat): Option<nat> {
    match Follow(words, p4, Indices(vaddr)[..3])
    case None => None
    case Some(t) =>
      match Frame(words, t, Index(1, vaddr))
      case None => None
      case Some(frame) => Some(0x1000 * frame + vaddr % 0x1000)
  }

  // ----- the address expressions

  lemma {:induction false} OrOnes(a: nat, n: nat, w: nat)
    requires n <= w && a < Mask(w)
    ensures Mask(n) <= Mask(w) && Or(a, Mask(w) - Mask(n)) == Mask(w) - Mask(n) + a % Mask(n)
    decreases w
  {
    hide Or;
    if w == 0 {
      OrEven(0, 0);
    } else if n == 0 {
      OrOnes(a / 2, 0, w - 1);
      OrAllOnes(a, Mask(w - 1));
    } else {
      OrOnes(a / 2, n - 1, w - 1);
      OrStep(a, Mask(w - 1), Mask(n - 1));
    }
  }

  lemma OrAllOnes(a: nat, b: nat)
    requires b > 0 && Or(a / 2, b - 1) == b - 1 + a / 2 % 1
    ensures Or(a, 2 * b - 1) == 2 * b - 1 && a % 1 == 0
  {
    assert (2 * b - 1) / 2 == b - 1 && (2 * b - 1) % 2 == 1;
  }

  lemma OrEven(a: nat, c: nat)
    ensures Or(a, 2 * c) == a % 2 + 2 * Or(a / 2, c) && Or(0, 0) == 0
  {
    assert 2 * c / 2 == c && 2 * c % 2 == 0;
  }

  lemma OrStep(a: nat, b: nat, m: nat)
    requires 0 < m <= b && Or(a / 2, b - m) == b - m + a / 2 % m
    ensures Or(a, 2 * b - 2 * m) == 2 * b - 2 * m + a % (2 * m)
  {
    hide Or;
    HalfMod(a, m);
    OrEven(a, b - m);
    assert 2 * (b - m) == 2 * b - 2 * m;
  }

  lemma {:induction false} WithoutOnes(a: nat, n: nat)
    ensures Without(a, Mask(n) - 1) == a - a % Mask(n)
    decreases n
  {
    hide Without;
    if n == 0 {
      WithoutNothing(a);
      assert a % 1 == 0;
    } else {
      WithoutOnes(a / 2, n - 1);
      WithoutStep(a, Mask(n - 1));
    }
  }

  lemma WithoutStep(a: nat, m: nat)
    requires m > 0 && Without(a / 2, m - 1) == a / 2 - a / 2 % m
    ensures Without(a, 2 * m - 1) == a - a % (2 * m)
  {
    HalfMod(a, m);
    if a != 0 {
      assert (2 * m - 1) / 2 == m - 1 && (2 * m - 1) % 2 == 1;
      assert Without(a, 2 * m - 1) == 2 * Without(a / 2, m - 1);
    }
  }

  lemma {:induction false} WithoutNothing(a: nat)
    ensures Without(a, 0) == a
  {
    if a == 0 {
    } else {
      WithoutNothing(a / 2);
    }
  }

  lemma {:induction false} ShiftDivides(v: nat, k: nat)
    ensures Shift(v, k) == v / Mask(k)
    decreases k
  {
    if k == 0 {
      assert v / 1 == v;
    } else {
      ShiftDivides(v / 2, k - 1);
      HalfDiv(v, Mask(k - 1));
    }
  }

  lemma HalfDiv(a: nat, m: nat)
    requires m > 0
    ensures a / (2 * m) == a / 2 / m
  {
    var q, r := a / 2 / m, a / 2 % m;
    assert a / 2 == m * q + r && a == 2 * (m * q + r) + a % 2;
    assert 2 * (m * q) == 2 * m * q;
    DivModUnique(2 * m, q, 2 * r + a % 2);
  }

  lemma Powers()
    ensures Mask(3) == 8 && Mask(9) == 512 && Mask(12) == 0x1000 && Mask(18) == 0x4_0000 && Mask(21) == 0x20_0000
    ensures Mask(27) == 0x800_0000 && Mask(30) == 0x4000_0000 && Mask(36) == 0x10_0000_0000
    ensures Mask(39) == 0x80_0000_0000
    ensures Mask(64) == TWO64
  {
    SmallPowers();
    hide Mask;
    MaskSum(3, 3);
    MaskSum(6, 3);
    MaskSum(9, 3);
    MaskSum(9, 9);
    MaskSum(12, 9);
    MaskSum(18, 9);
    MaskSum(27, 3);
    MaskSum(27, 9);
    MaskSum(30, 9);
    MaskSum(36, 27);
    MaskSum(63, 1);
  }

  lemma SmallPowers()
    ensures Mask(1) == 2 && Mask(3) == 8
  {
    assert Mask(2) == 4;
  }

  /** get_P1 to get_P4: ((vaddr >> 9k) & -8) | -(1 << (48 - 9k)). */
  function GetP(k: nat, vaddr: nat): nat
    requires 1 <= k <= 4
  {
    Or(Without(Shift(vaddr, 9 * k), 7), TWO64 - [0x80_0000_0000, 0x4000_0000, 0x20_0000, 0x1000][k - 1])
  }

  /** An address from its bits above 47, its four indices and its offset. */
  function Compose(hi: nat, a4: nat, a3: nat, a2: nat, a1: nat, off: nat): nat {
    0x1_0000_0000_0000 * hi + 0x80_0000_0000 * a4 + 0x4000_0000 * a3 + 0x20_0000 * a2 + 0x1000 * a1 + off
  }

  lemma IndexOf(unit: nat, q: nat, a: nat, low: nat)
    requires low < unit && a < 512
    ensures (unit * (512 * q + a) + low) / unit % 512 == a
  {
    DivModUnique(unit, 512 * q + a, low);
    DivModUnique(512, q, a);
  }

  lemma Composed(hi: nat, a4: nat, a3: nat, a2: nat, a1: nat, off: nat)
    requires a4 < 512 && a3 < 512 && a2 < 512 && a1 < 512 && off < 0x1000
    ensures Indices(Compose(hi, a4, a3, a2, a1, off)) == [a4, a3, a2, a1]
    ensures Compose(hi, a4, a3, a2, a1, off) % 0x1000 == off
  {
    var q3 := 512 * hi + a4;
    var q2 := 512 * q3 + a3;
    var q1 := 512 * q2 + a2;
    IndexOf(0x80_0000_0000, hi, a4, 0x4000_0000 * a3 + 0x20_0000 * a2 + 0x1000 * a1 + off);
    IndexOf(0x4000_0000, q3, a3, 0x20_0000 * a2 + 0x1000 * a1 + off);
    IndexOf(0x20_0000, q2, a2, 0x1000 * a1 + off);
    IndexOf(0x1000, q1, a1, off);
    DivModUnique(0x1000, 512 * q1 + a1, off);
    assert Compose(hi, a4, a3, a2, a1, off) ==
           0x80_0000_0000 * (512 * hi + a4) + (0x4000_0000 * a3 + 0x20_0000 * a2 + 0x1000 * a1 + off);
  }

  lemma Digit(v: nat, unit: nat)
    requires unit > 0
    ensures v / unit == 512 * (v / (512 * unit)) + v / unit % 512
  {
    DigitParts(unit, v / unit / 512, v / unit % 512, v % unit, v);
  }

  lemma DigitProduct(unit: nat, q: nat, a: nat)
    requires a < 512
    ensures unit * (512 * q + a) == 512 * unit * q + unit * a && unit * a <= unit * 511
  {
    assert unit * (512 * q + a) == unit * (512 * q) + unit * a;
    assert unit * (511 - a) >= 0;
  }

  lemma DigitParts(unit: nat, q: nat, a: nat, r: nat, v: nat)
    requires r < unit && a < 512 && v == unit * (512 * q + a) + r
    ensures v / (512 * unit) == q
  {
    DigitProduct(unit, q, a);
    DivModUnique(512 * unit, q, unit * a + r);
  }

  lemma Decompose(v: nat)
    ensures v == Compose(v / 0x1_0000_0000_0000, Index(4, v), Index(3, v), Index(2, v), Index(1, v), v % 0x1000)
  {
    Digit(v, 0x1000);
    Digit(v, 0x20_0000);
    Digit(v, 0x4000_0000);
    Digit(v, 0x80_0000_0000);
  }

  lemma LowThree(v: nat, unit: nat)
    requires unit > 0
    ensures v / unit - v / unit % 8 == 8 * (v / (8 * unit))
  {
    EighthParts(unit, v / unit / 8, v / unit % 8, v % unit, v);
  }

  lemma EighthParts(unit: nat, q: nat, a: nat, r: nat, v: nat)
    requires r < unit && a < 8 && v == unit * (8 * q + a) + r
    ensures v / (8 * unit) == q
  {
    assert unit * (8 * q + a) == 8 * unit * q + unit * a;
    assert unit * a <= unit * 7;
    DivModUnique(8 * unit, q, unit * a + r);
  }

  lemma DivideDown(v: nat, m: nat)
    requires m > 0
    ensures v / m <= v
  {
    var q := v / m;
    assert v == m * q + v % m;
    Times(m, q);
  }

  lemma Times(m: nat, q: int)
    requires m > 0 && q >= 0
    ensures q <= m * q
  {
  }

  /** n is 9 * k and m is 48 - n. */
  lemma GetPValue(v: nat, n: nat, m: nat)
    requires v < TWO64 && m <= 64 && Mask(m) <= Mask(64)
    ensures Or(Without(Shift(v, n), 7), Mask(64) - Mask(m)) == Mask(64) - Mask(m) + 8 * (v / (8 * Mask(n))) % Mask(m)
  {
    hide Shift, Without, Or, Mask;
    Powers();
    ShiftDivides(v, n);
    WithoutOnes(Shift(v, n), 3);
    LowThree(v, Mask(n));
    DivideDown(v, Mask(n));
    OrOnes(Without(Shift(v, n), 7), m, 64);
  }

  /** The recursive address of level k holds k times the last index, then the leading indices of
      vaddr, then eight times the next index as the offset. */
  lemma GetPAddress(k: nat, v: nat)
    requires 1 <= k <= 4 && v < TWO64
    ensures var a := Indices(v);
            GetP(k, v) == match k {
              case 1 => Compose(0xffff, 511, a[0], a[1], a[2], 8 * a[3])
              case 2 => Compose(0xffff, 511, 511, a[0], a[1], 8 * a[2])
              case 3 => Compose(0xffff, 511, 511, 511, a[0], 8 * a[1])
              case _ => Compose(0xffff, 511, 511, 511, 511, 8 * a[0])
            }
  {
    hide Shift, Without, Or, Mask, Index;
    Powers();
    Decompose(v);
    GetPValue(v, 9 * k, 48 - 9 * k);
    GetPParts(k, v, v / 0x1_0000_0000_0000, Index(4, v), Index(3, v), Index(2, v), Index(1, v), v % 0x1000);
  }

  lemma GetPParts(k: nat, v: nat, hi: nat, a4: nat, a3: nat, a2: nat, a1: nat, off: nat)
    requires 1 <= k <= 4 && v == Compose(hi, a4, a3, a2, a1, off)
    requires a4 < 512 && a3 < 512 && a2 < 512 && a1 < 512 && off < 0x1000
    ensures match k {
              case 1 => 8 * (v / 0x1000) % 0x80_0000_0000 == 0x4000_0000 * a4 + 0x20_0000 * a3 + 0x1000 * a2 + 8 * a1
              case 2 => 8 * (v / 0x20_0000) % 0x4000_0000 == 0x20_0000 * a4 + 0x1000 * a3 + 8 * a2
              case 3 => 8 * (v / 0x4000_0000) % 0x20_0000 == 0x1000 * a4 + 8 * a3
              case _ => 8 * (v / 0x80_0000_0000) % 0x1000 == 8 * a4
            }
  {
    var q3 := 512 * hi + a4;
    var q2 := 512 * q3 + a3;
    var q1 := 512 * q2 + a2;
    match k
    case 1 =>
      Eightfold(v, 0x1000, 512 * q1 + a1, off,
                0x80_0000_0000, hi, 0x4000_0000 * a4 + 0x20_0000 * a3 + 0x1000 * a2 + 8 * a1);
    case 2 =>
      Eightfold(v, 0x20_0000, q1, 0x1000 * a1 + off, 0x4000_0000, hi, 0x20_0000 * a4 + 0x1000 * a3 + 8 * a2);
    case 3 =>
      Eightfold(v, 0x4000_0000, q2, 0x20_0000 * a2 + 0x1000 * a1 + off, 0x20_0000, hi, 0x1000 * a4 + 8 * a3);
    case _ =>
      Eightfold(v, 0x80_0000_0000, q3, 0x4000_0000 * a3 + 0x20_0000 * a2 + 0x1000 * a1 + off, 0x1000, hi, 8 * a4);
  }

  lemma Eightfold(v: nat, unit: nat, q: nat, low: nat, m: nat, hi: nat, rest: nat)
    requires low < unit && v == unit * q + low && rest < m && 8 * q == m * hi + rest
    ensures 8 * (v / unit) % m == rest
  {
    DivModUnique(unit, q, low);
    DivModUnique(m, hi, rest);
  }

  // ----- the theorem

  /** The last entry of the top table points to the top table. */
  ghost predicate Recursive(words: seq<nat>, p4: nat) {
    Step(words, p4, 511) == Some(p4)
  }

  /** Walking from the top at the address that get_P1 computes ends at the level-1 entry of vaddr,
      and in the same way for the entries of the other levels. */
  lemma RecursiveAddress(words: seq<nat>, p4: nat, k: nat, v: nat, t: nat)
    requires Recursive(words, p4) && 1 <= k <= 4 && v < TWO64
    requires Follow(words, p4, Indices(v)[..4 - k]) == Some(t)
    ensures Translate(words, p4, GetP(k, v)) == Some(0x1000 * t + 8 * Indices(v)[4 - k])
  {
    hide Step, Frame, Index, GetP;
    GetPAddress(k, v);
    var a, x := Indices(v), GetP(k, v);
    match k
    case 1 =>
      Composed(0xffff, 511, a[0], a[1], a[2], 8 * a[3]);
      assert a[..3] == a[..2] + [a[2]] && Indices(x)[..3] == [511] + a[..2];
      FollowLast(words, p4, a[..2], a[2], t);
      FollowTop(words, p4, a[..2]);
    case 2 =>
      Composed(0xffff, 511, 511, a[0], a[1], 8 * a[2]);
      assert a[..2] == a[..1] + [a[1]] && Indices(x)[..3] == [511] + ([511] + a[..1]);
      FollowLast(words, p4, a[..1], a[1], t);
      FollowTop(words, p4, a[..1]);
      FollowTop(words, p4, [511] + a[..1]);
    case 3 =>
      Composed(0xffff, 511, 511, 511, a[0], 8 * a[1]);
      FollowLast(words, p4, [], a[0], t);
      assert a[..1] == [] + [a[0]] && Indices(x)[..3] == [511] + ([511] + ([511] + []));
      FollowTop(words, p4, []);
      FollowTop(words, p4, [511] + []);
      FollowTop(words, p4, [511] + ([511] + []));
    case _ =>
      Composed(0xffff, 511, 511, 511, 511, 8 * a[0]);
      FollowLast(words, p4, [], 511, p4);
      assert a[..0] == [] && Indices(x)[..3] == [511] + ([511] + ([511] + []));
      FollowTop(words, p4, []);
      FollowTop(words, p4, [511] + []);
      FollowTop(words, p4, [511] + ([511] + []));
  }

  lemma FollowTop(words: seq<nat>, p4: nat, indices: seq<nat>)
    requires Recursive(words, p4)
    ensures Follow(words, p4, [511] + indices) == Follow(words, p4, indices)
  {
    assert ([511] + indices)[1..] == indices;
  }

  /** The last step of a walk reads one present entry. */
  lemma {:induction false} FollowLast(words: seq<nat>, t: nat, indices: seq<nat>, i: nat, end: nat)
    requires Follow(words, t, indices + [i]) == Some(end)
    ensures Follow(words, t, indices).Some? && Frame(words, Follow(words, t, indices).value, i) == Some(end)
    decreases |indices|
  {
    var all := indices + [i];
    if indices == [] {
      assert all == [i] && all[1..] == [];
    } else {
      assert all[0] == indices[0] && all[1..] == indices[1..] + [i];
      FollowLast(words, Step(words, t, indices[0]).value, indices[1..], i, end);
    }
  }
}
