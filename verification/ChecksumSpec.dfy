/** The Internet checksum (sections 1 and 2 of RFC 1071): the one's complement sum of 16-bit words,
    here by its arithmetic. */
module ChecksumSpec {
  import opened Machine

  /** The sum of the little-endian words of the data, an odd last byte standing alone. */
  ghost function Sum(data: seq<byte>): nat {
    if data == [] then 0
    else Sum(data[..|data| - 1]) + data[|data| - 1] as nat * (if (|data| - 1) % 2 == 0 then 1 else 256)
  }

  /** The same with the two bytes of every word exchanged. */
  ghost function SwappedSum(data: seq<byte>): nat {
    if data == [] then 0
    else SwappedSum(data[..|data| - 1]) + data[|data| - 1] as nat * (if (|data| - 1) % 2 == 0 then 256 else 1)
  }

  /** The 16-bit one's complement value of a sum: its remainder by 65535, zero only for zero. */
  ghost function Canon(x: nat): (c: nat)
    ensures c <= 0xffff && (c == 0 <==> x == 0)
    ensures x <= 0xffff ==> c == x
  {
    if x == 0 then 0 else (x - 1) % 0xffff + 1
  }

  ghost function Checksum(data: seq<byte>): nat {
    Canon(Sum(data))
  }

  // ----- FOLD_U32T and SWAP_BYTES_IN_WORD

  function Fold(u: nat): nat {
    u / TWO16 + u % TWO16
  }

  function Swap(w: nat): (r: nat)
    requires w < TWO16
    ensures r < TWO16
  {
    w % 256 * 256 + w / 256
  }

  lemma CanonUnique(x: nat, c: nat, k: nat)
    requires x == c + 0xffff * k && c <= 0xffff && (c == 0 ==> k == 0)
    ensures Canon(x) == c
  {
    if c > 0 {
      assert x - 1 == c - 1 + 0xffff * k;
    }
  }

  lemma CanonMultiple(x: nat) returns (k: nat)
    ensures x == Canon(x) + 0xffff * k && (x == 0 ==> k == 0)
  {
    k := if x == 0 then 0 else (x - 1) / 0xffff;
  }

  /** Adding a multiple of 65535 to a positive sum does not change its value. */
  lemma CanonShift(x: nat, k: nat)
    requires x > 0 || k == 0
    ensures Canon(x + 0xffff * k) == Canon(x)
  {
    var q := CanonMultiple(x);
    CanonUnique(x + 0xffff * k, Canon(x), q + k);
  }

  lemma FoldCanon(u: nat)
    ensures Canon(Fold(u)) == Canon(u) && (Fold(u) == 0 <==> u == 0)
    ensures u < TWO32 ==> Fold(u) <= 0x1_fffe
    ensures u <= 0x1_fffe ==> Fold(u) == Canon(u)
  {
    var a, b := u / TWO16, u % TWO16;
    assert u == a + b + 0xffff * a;
    CanonShift(a + b, a);
    if u <= 0x1_fffe {
      assert a <= 1;
      CanonUnique(u, a + b, a);
    }
  }

  lemma FoldTwice(u: nat)
    requires u < TWO32
    ensures Fold(Fold(u)) == Canon(u)
  {
    FoldCanon(u);
    FoldCanon(Fold(u));
  }

  /** Losing the carries out of 32 bits changes the value, short of 65535 of them. */
  lemma WrapLoses(total: nat)
    requires total / TWO32 < 0xffff
    ensures Canon(total % TWO32) == Canon(total) <==> total < TWO32
  {
    var k, w := total / TWO32, total % TWO32;
    assert total == w + k + 0xffff * (0x1_0001 * k);
    if k > 0 {
      hide Canon;
      CanonShift(w + k, 0x1_0001 * k);
      CanonDiffers(w, k);
    }
  }

  lemma CanonDiffers(w: nat, k: nat)
    requires 0 < k < 0xffff
    ensures Canon(w + k) != Canon(w)
  {
    var q := CanonMultiple(w);
    var c := Canon(w);
    if c + k <= 0xffff {
      CanonUnique(w + k, c + k, q);
    } else {
      CanonUnique(w + k, c + k - 0xffff, q + 1);
    }
  }

  lemma CanonAdd(x: nat, y: nat)
    ensures Canon(Canon(x) + y) == Canon(x + y)
  {
    var k := CanonMultiple(x);
    CanonShift(Canon(x) + y, k);
  }

  lemma CanonAddBoth(x: nat, y: nat)
    ensures Canon(Canon(x) + Canon(y)) == Canon(x + y)
  {
    CanonAdd(x, Canon(y));
    CanonAdd(y, x);
  }

  /** Exchanging the bytes of the value is multiplying the sum by 256. */
  lemma SwapCanon(x: nat)
    ensures Swap(Canon(x)) == Canon(256 * x)
  {
    var c := Canon(x);
    var k := CanonMultiple(x);
    assert 256 * c == Swap(c) + 0xffff * (c / 256);
    CanonUnique(256 * x, Swap(c), c / 256 + 256 * k);
  }

  lemma SwapTwice(w: nat)
    requires w < TWO16
    ensures Swap(Swap(w)) == w
  {
    var h, l := w / 256, w % 256;
    assert (256 * l + h) / 256 == l && (256 * l + h) % 256 == h;
  }

  // ----- the two sums

  lemma {:induction false} SwappedIsTimes256(data: seq<byte>) returns (k: nat)
    ensures 256 * Sum(data) == SwappedSum(data) + 0xffff * k
    ensures Sum(data) == 0 <==> SwappedSum(data) == 0
    ensures SwappedSum(data) == 0 ==> k == 0
  {
    if data == [] {
      k := 0;
    } else {
      var n := |data| - 1;
      k := SwappedIsTimes256(data[..n]);
      if n % 2 == 1 {
        k := k + data[n] as nat;
      }
    }
  }

  lemma SwappedCanon(data: seq<byte>)
    ensures Canon(SwappedSum(data)) == Canon(256 * Sum(data))
    ensures Canon(256 * SwappedSum(data)) == Canon(Sum(data))
  {
    var k := SwappedIsTimes256(data);
    CanonShift(SwappedSum(data), k);
    SwapCanon(Sum(data));
    SwapTwice(Canon(Sum(data)));
    SwapCanon(SwappedSum(data));
  }

  lemma {:induction false} SumConcat(a: seq<byte>, b: seq<byte>)
    ensures Sum(a + b) == Sum(a) + if |a| % 2 == 0 then Sum(b) else SwappedSum(b)
    decreases |b|
  {
    if b == [] {
      assert a + b == a;
    } else {
      var n := |b| - 1;
      SumConcat(a, b[..n]);
      SumLast(a, b);
      Parity(|a|, n);
    }
  }

  lemma SumLast(a: seq<byte>, b: seq<byte>)
    requires b != []
    ensures var n := |b| - 1;
            Sum(a + b) == Sum(a + b[..n]) + b[n] as nat * (if (|a| + n) % 2 == 0 then 1 else 256)
  {
    hide Sum;
    var n := |b| - 1;
    assert (a + b)[..|a + b| - 1] == a + b[..n] && (a + b)[|a + b| - 1] == b[n];
    SumUnfold(a + b);
  }

  lemma SumUnfold(s: seq<byte>)
    requires s != []
    ensures var n := |s| - 1;
            Sum(s) == Sum(s[..n]) + s[n] as nat * (if n % 2 == 0 then 1 else 256)
  {
  }

  lemma Parity(m: nat, n: nat)
    ensures (m + n) % 2 == if m % 2 == 0 then n % 2 else 1 - n % 2
  {
  }

  lemma {:induction false} SumBound(data: seq<byte>)
    ensures Sum(data) <= 0xffff * ((|data| + 1) / 2)
    ensures SwappedSum(data) <= 0xffff * ((|data| + 1) / 2)
    ensures |data| % 2 == 1 ==>
              Sum(data) <= 0xffff * (|data| / 2) + 255 && SwappedSum(data) <= 0xffff * (|data| / 2) + 255 * 256
    decreases |data|
  {
    if data == [] {
    } else {
      var n := |data| - 1;
      SumBound(data[..n]);
    }
  }

  ghost function AllOnes(n: nat): (r: seq<byte>)
    ensures |r| == n
  {
    seq(n, _ => 0xff)
  }

  /** The largest sums there are. */
  lemma {:induction false} AllOnesSum(n: nat)
    ensures Sum(AllOnes(n)) == 0xffff * (n / 2) + 255 * (n % 2)
    ensures SwappedSum(AllOnes(n)) == 0xffff * (n / 2) + 255 * 256 * (n % 2)
  {
    if n == 0 {
    } else {
      AllOnesSum(n - 1);
      assert AllOnes(n)[..n - 1] == AllOnes(n - 1);
    }
  }

  /** A field that holds the complement of the checksum taken with the field zero brings the sum to
      all ones: what a receiver tests. */
  lemma ComplementVerifies(data: seq<byte>, f: nat)
    requires f % 2 == 0 && f + 2 <= |data| && data[f] == data[f + 1] == 0
    ensures var c := 0xffff - Checksum(data);
            Checksum(data[f := (c % 256) as byte][f + 1 := (c / 256) as byte]) == 0xffff
  {
    hide Sum, SwappedSum, Canon;
    var c := 0xffff - Checksum(data);
    var field := [(c % 256) as byte, (c / 256) as byte];
    var data' := data[f := (c % 256) as byte][f + 1 := (c / 256) as byte];
    var a, z := data[..f], data[f + 2..];
    assert data == a + ([0, 0] + z) && data' == a + (field + z);
    PairSum(0, 0);
    PairSum((c % 256) as byte, (c / 256) as byte);
    SumConcat(a, [0, 0] + z);
    SumConcat([0, 0], z);
    SumConcat(a, field + z);
    SumConcat(field, z);
    assert Sum(data') == Sum(data) + c;
    var k := CanonMultiple(Sum(data));
    CanonUnique(Sum(data) + c, 0xffff, k);
  }

  lemma PairSum(x: byte, y: byte)
    ensures Sum([x, y]) == x as nat + 256 * y as nat
  {
    assert [x, y][..1] == [x] && [x][..0] == [];
    assert Sum([x]) == Sum([x][..0]) + x as nat;
    assert Sum([x, y]) == Sum([x, y][..1]) + y as nat * 256;
  }
}
