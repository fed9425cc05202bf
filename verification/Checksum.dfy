/** The checksum routines of core/inet_chksum.c and ducknet/lib/utils.cpp, on a little-endian host.
    Data comes with the address it stands at, which decides how versions 2 and 3 read it. */
module Checksums {
  import opened Machine
  import opened ChecksumSpec
  import opened Remainders

  /** The largest length of a buffer, an int. */
  const MAX_LEN: nat := 0x7fff_ffff

  /** The largest length of which every sum fits in 32 bits. */
  const EXACT_LEN: nat := 0x2_0002

  function Word(data: seq<byte>, i: nat): (w: nat)
    requires i + 2 <= |data|
    ensures w <= 0xffff
  {
    data[i] as nat + 256 * data[i + 1] as nat
  }

  lemma SumWord(data: seq<byte>, i: nat)
    requires i % 2 == 0 && i + 2 <= |data|
    ensures Sum(data[..i + 2]) == Sum(data[..i]) + Word(data, i)
    ensures SwappedSum(data[..i + 2]) == SwappedSum(data[..i]) + 256 * data[i] as nat + data[i + 1] as nat
  {
    assert data[..i + 2][..i + 1] == data[..i + 1] && data[..i + 1][..i] == data[..i];
  }

  lemma SumByte(data: seq<byte>, i: nat)
    requires i % 2 == 0 && i + 1 == |data|
    ensures Sum(data) == Sum(data[..i]) + data[i] as nat
    ensures SwappedSum(data) == SwappedSum(data[..i]) + 256 * data[i] as nat
  {
  }

  /** No sum over at most 0x20002 bytes leaves 32 bits, wherever the data starts. */
  lemma NoOverflow(data: seq<byte>)
    requires |data| <= EXACT_LEN
    ensures Sum(data) < TWO32 && SwappedSum(data) < TWO32
  {
    SumBound(data);
  }

  /** And for every greater length some do: bytes of 0xff. */
  lemma OverflowIff(n: nat)
    ensures (forall data: seq<byte> :: |data| == n ==> Sum(data) < TWO32) <==> n <= EXACT_LEN
    ensures (forall data: seq<byte> :: |data| == n ==> SwappedSum(data) < TWO32) <==> n <= EXACT_LEN
  {
    hide Sum, SwappedSum;
    if n <= EXACT_LEN {
      forall data: seq<byte> | |data| == n ensures Sum(data) < TWO32 && SwappedSum(data) < TWO32 {
        NoOverflow(data);
      }
    } else {
      AllOnesSum(n);
      assert |AllOnes(n)| == n;
    }
  }

  /** For buffers of any length that an int can hold, fewer than 65535 carries are lost. */
  lemma FewCarries(data: seq<byte>)
    requires |data| <= MAX_LEN
    ensures Sum(data) / TWO32 < 0xffff && SwappedSum(data) / TWO32 < 0xffff
  {
    hide Sum, SwappedSum;
    SumBound(data);
  }

  /** Adding in a 32-bit accumulator. */
  lemma WrappedAdd(total: nat, w: nat)
    ensures (total % TWO32 + w) % TWO32 == (total + w) % TWO32
  {
    ModAdd(total % TWO32, w, TWO32);
    ModAdd(total, w, TWO32);
  }

  /** lwip_standard_chksum, version 1: big-endian words, result byte-swapped by htons.  It is the
      checksum exactly when the accumulator does not overflow, as up to 0x20002 bytes. */
  method Chksum1(data: seq<byte>) returns (r: nat)
    requires |data| <= MAX_LEN
    ensures r == Checksum(data) <==> SwappedSum(data) < TWO32
    ensures |data| <= EXACT_LEN ==> r == Checksum(data)
  {
    hide Sum, SwappedSum, Canon;
    EmptySums(data);
    var acc := 0;
    var i := 0;
    while |data| - i > 1
      invariant 0 <= i <= |data| && i % 2 == 0
      invariant acc == SwappedSum(data[..i]) % TWO32
    {
      SumWord(data, i);
      WrappedAdd(SwappedSum(data[..i]), 256 * data[i] as nat + data[i + 1] as nat);
      acc := (acc + (data[i] as nat * 256 + data[i + 1] as nat)) % TWO32;
      i := i + 2;
    }
    if |data| - i > 0 {
      SumByte(data, i);
      WrappedAdd(SwappedSum(data[..i]), 256 * data[i] as nat);
      acc := (acc + data[i] as nat * 256) % TWO32;
    } else {
      assert data[..i] == data;
    }
    acc := FoldCarries(acc);
    Exact1(data);
    r := Swap(acc);
  }

  /** The fold that version 1 repeats only if needed. */
  method FoldCarries(sum: nat) returns (acc: nat)
    requires sum < TWO32
    ensures acc == Canon(sum)
  {
    hide Canon;
    FoldCanon(sum);
    FoldCanon(Fold(sum));
    acc := Fold(sum);
    if acc >= TWO16 {
      acc := Fold(acc);
    }
  }

  lemma Exact1(data: seq<byte>)
    requires |data| <= MAX_LEN
    ensures Swap(Canon(SwappedSum(data) % TWO32)) == Checksum(data) <==> SwappedSum(data) < TWO32
    ensures |data| <= EXACT_LEN ==> SwappedSum(data) < TWO32
  {
    hide Sum, SwappedSum, Canon;
    if |data| <= EXACT_LEN {
      NoOverflow(data);
    }
    FewCarries(data);
    WrapLoses(SwappedSum(data));
    SwappedCanon(data);
    SwapCanon(SwappedSum(data));
    SwapTwice(Canon(SwappedSum(data)));
    SwapTwice(Canon(SwappedSum(data) % TWO32));
  }

  lemma EmptySums(data: seq<byte>)
    ensures Sum(data[..0]) == 0 && SwappedSum(data[..0]) == 0
  {
  }

  /** The words of rest, added up; what the odd byte at the end contributes is left out. */
  method AddWords(rest: seq<byte>, sum0: nat) returns (sum: nat, i: nat)
    requires sum0 < TWO32
    ensures i <= |rest| < i + 2 && i % 2 == 0
    ensures sum == (sum0 + Sum(rest[..i])) % TWO32
  {
    hide Sum, SwappedSum;
    EmptySums(rest);
    sum, i := sum0, 0;
    while |rest| - i > 1
      invariant 0 <= i <= |rest| && i % 2 == 0
      invariant sum == (sum0 + Sum(rest[..i])) % TWO32
    {
      SumWord(rest, i);
      WrappedAdd(sum0 + Sum(rest[..i]), Word(rest, i));
      sum := (sum + Word(rest, i)) % TWO32;
      i := i + 2;
    }
  }

  /** For data starting at an odd address: the first byte goes to the high half of a word of its own. */
  lemma OddStart(data: seq<byte>)
    requires data != []
    ensures SwappedSum(data) == 256 * data[0] as nat + Sum(data[1..])
  {
    hide Sum, SwappedSum;
    assert data == [data[0]] + data[1..];
    SwappedConcatOdd([data[0]], data[1..]);
    SumByte([data[0]], 0);
    EmptySums([data[0]]);
  }

  lemma SwappedLast(a: seq<byte>, b: seq<byte>)
    requires b != []
    ensures var n := |b| - 1;
            SwappedSum(a + b) == SwappedSum(a + b[..n]) + b[n] as nat * (if (|a| + n) % 2 == 0 then 256 else 1)
  {
    hide SwappedSum;
    var n := |b| - 1;
    assert (a + b)[..|a + b| - 1] == a + b[..n] && (a + b)[|a + b| - 1] == b[n];
    SwappedUnfold(a + b);
  }

  lemma SwappedUnfold(s: seq<byte>)
    requires s != []
    ensures var n := |s| - 1;
            SwappedSum(s) == SwappedSum(s[..n]) + s[n] as nat * (if n % 2 == 0 then 256 else 1)
  {
  }

  lemma {:induction false} SwappedConcatOdd(a: seq<byte>, b: seq<byte>)
    requires |a| % 2 == 1
    ensures SwappedSum(a + b) == SwappedSum(a) + Sum(b)
    decreases |b|
  {
    hide SwappedSum, Sum;
    if b == [] {
      assert a + b == a && b[..0] == b;
      EmptySums(b);
    } else {
      var n := |b| - 1;
      SwappedConcatOdd(a, b[..n]);
      SwappedLast(a, b);
      SumUnfold(b);
      Parity(|a|, n);
    }
  }

  /** The sum that version 2 accumulates, by the parity of the address. */
  ghost function Accumulated(data: seq<byte>, odd: bool): nat {
    if odd then SwappedSum(data) else Sum(data)
  }

  /** lwip_standard_chksum, version 2: the checksum exactly when the accumulator does not overflow. */
  method Chksum2(data: seq<byte>, addr: nat) returns (r: nat)
    requires |data| <= MAX_LEN
    ensures r == Checksum(data) <==> Accumulated(data, addr % 2 == 1) < TWO32
    ensures |data| <= EXACT_LEN ==> r == Checksum(data)
  {
    hide Sum, SwappedSum, Canon;
    var odd := addr % 2 == 1;
    var t0, t1 := 0, 0;
    var rest := data;
    if odd && |data| > 0 {
      OddStart(data);
      t1 := data[0] as nat;
      rest := data[1..];
    } else if data == [] {
      EmptySums(data);
      assert data[..0] == data;
    }
    var sum, i := AddWords(rest, 0);
    if |rest| - i > 0 {
      SumByte(rest, i);
      t0 := rest[i] as nat;
    } else {
      assert rest[..i] == rest;
    }
    WrappedAdd(Sum(rest[..i]), t0 + 256 * t1);
    sum := (sum + (t0 + 256 * t1)) % TWO32;
    r := Finish(data, sum, odd);
    Exact2(data, odd);
  }

  lemma Exact2(data: seq<byte>, odd: bool)
    requires |data| <= MAX_LEN
    ensures var c := Canon(Accumulated(data, odd) % TWO32);
            (if odd then Swap(c) else c) == Checksum(data) <==> Accumulated(data, odd) < TWO32
    ensures |data| <= EXACT_LEN ==> Accumulated(data, odd) < TWO32
  {
    hide Sum, SwappedSum, Canon;
    if odd {
      Exact1(data);
    } else {
      if |data| <= EXACT_LEN {
        NoOverflow(data);
      }
      FewCarries(data);
      WrapLoses(Sum(data));
    }
  }

  /** The last steps of versions 2 and 3: fold twice, and swap for an odd address. */
  method Finish(data: seq<byte>, sum: nat, odd: bool) returns (r: nat)
    requires sum < TWO32
    ensures r == if odd then Swap(Canon(sum)) else Canon(sum)
    ensures Canon(sum) == Canon(Accumulated(data, odd)) ==> r == Checksum(data)
  {
    hide Sum, SwappedSum, Canon;
    FoldTwice(sum);
    r := Fold(Fold(sum));
    if odd {
      SwappedCanon(data);
      SwapCanon(SwappedSum(data));
      r := Swap(r);
    }
  }

  lemma CarryBack(sum: nat, w: nat)
    requires sum < TWO32 && w < TWO32
    ensures var tmp := (sum + w) % TWO32;
            if tmp < sum then tmp + 1 < TWO32 && Canon(tmp + 1) == Canon(sum + w) else tmp == sum + w
  {
    hide Canon;
    if sum + w >= TWO32 {
      assert sum + w == (sum + w - TWO32 + 1) + 0xffff * 0x1_0001;
      CanonShift(sum + w - TWO32 + 1, 0x1_0001);
    }
  }

  /** A 32-bit addition with the carry added back. */
  function AddCarry(sum: nat, w: nat): (r: nat)
    requires sum < TWO32 && w < TWO32
    ensures r < TWO32 && Canon(r) == Canon(sum + w)
  {
    CarryBack(sum, w);
    var tmp := (sum + w) % TWO32;
    if tmp < sum then tmp + 1 else tmp
  }

  function Long(data: seq<byte>, i: nat): (w: nat)
    requires i + 4 <= |data|
    ensures w < TWO32
  {
    Word(data, i) + TWO16 * Word(data, i + 2)
  }

  /** A 32-bit word counts as its two halves. */
  lemma AddLong(data: seq<byte>, i: nat, sum: nat)
    requires i % 2 == 0 && i + 4 <= |data| && sum < TWO32 && Canon(sum) == Canon(Sum(data[..i]))
    ensures Canon(AddCarry(sum, Long(data, i))) == Canon(Sum(data[..i + 4]))
  {
    hide Sum, SwappedSum, Canon, AddCarry, Word;
    var lo, hi, s := Word(data, i), Word(data, i + 2), Sum(data[..i]);
    SumWord(data, i);
    SumWord(data, i + 2);
    CanonAdd(sum, Long(data, i));
    CanonAdd(s, Long(data, i));
    assert s + Long(data, i) == s + lo + hi + 0xffff * hi;
    CanonShift(s + lo + hi, hi);
  }

  /** The unrolled loop of version 3.  rest stands at address ps: every 32-bit read is aligned. */
  method AddLongs(rest: seq<byte>, ghost ps: nat, start: nat, sum0: nat) returns (sum: nat, i: nat)
    requires |rest| - start > 7 ==> (ps + start) % 4 == 0
    requires start <= |rest| && start % 2 == 0 && sum0 < TWO32 && Canon(sum0) == Canon(Sum(rest[..start]))
    ensures start <= i <= |rest| < i + 8 && i % 2 == 0
    ensures sum < TWO32 && Canon(sum) == Canon(Sum(rest[..i]))
  {
    hide Sum, SwappedSum, Canon, AddCarry, Long;
    sum, i := sum0, start;
    while |rest| - i > 7
      invariant start <= i <= |rest| && i % 2 == 0
      invariant sum < TWO32 && Canon(sum) == Canon(Sum(rest[..i]))
      invariant |rest| - i > 7 ==> (ps + i) % 4 == 0
    {
      AddLong(rest, i, sum);
      var tmp := AddCarry(sum, Long(rest, i));
      AddLong(rest, i + 4, tmp);
      sum := AddCarry(tmp, Long(rest, i + 4));
      i := i + 8;
    }
  }

  /** At an even address two bytes lead to an aligned one, unless it is. */
  lemma EvenStart(addr: nat)
    ensures var ps := if addr % 2 == 1 then addr + 1 else addr;
            ps % 4 != 0 ==> (ps + 2) % 4 == 0
  {
  }

  /** lwip_standard_chksum, version 3. */
  method Chksum3(data: seq<byte>, addr: nat) returns (r: nat)
    ensures r == Checksum(data)
  {
    hide Sum, SwappedSum, Canon;
    var odd := addr % 2 == 1;
    var t1 := 0;
    var rest, ps := data, addr;
    if odd && |data| > 0 {
      OddStart(data);
      t1 := data[0] as nat;
      rest, ps := data[1..], addr + 1;
    } else if data == [] {
      EmptySums(data);
      assert data[..0] == data;
    }
    EmptySums(rest);
    var sum, i := 0, 0;
    EvenStart(addr);
    if ps % 4 != 0 && |rest| > 1 {
      SumWord(rest, 0);
      sum, i := Word(rest, 0), 2;
    }
    sum, i := AddLongs(rest, ps, i, sum);
    sum := AddTail(rest, i, sum, t1);
    CanonAdd(Sum(rest), 256 * t1);
    r := Finish(data, sum, odd);
  }

  /** What version 3 adds after its unrolled loop: the words left over and the end bytes. */
  method AddTail(rest: seq<byte>, i: nat, sum0: nat, t1: nat) returns (sum: nat)
    requires i <= |rest| < i + 8 && i % 2 == 0 && t1 < 256
    requires sum0 < TWO32 && Canon(sum0) == Canon(Sum(rest[..i]))
    ensures sum < TWO32 && Canon(sum) == Canon(Sum(rest) + 256 * t1)
  {
    hide Sum, SwappedSum, Canon;
    var tail, t0, j := rest[i..], 0, 0;
    sum, j := FoldAndAdd(tail, sum0);
    if |tail| - j > 0 {
      SumByte(tail, j);
      t0 := tail[j] as nat;
    } else {
      assert tail[..j] == tail;
    }
    sum := (sum + (t0 + 256 * t1)) % TWO32;
    TailSum(rest, i, sum0, t1);
  }

  /** Room is made in the upper bits, so the few words left cannot overflow. */
  method FoldAndAdd(tail: seq<byte>, sum0: nat) returns (sum: nat, j: nat)
    requires |tail| < 8 && sum0 < TWO32
    ensures j <= |tail| < j + 2 && j % 2 == 0 && sum == Fold(sum0) + Sum(tail[..j]) <= 0x1_fffe + 0x3_fffc
  {
    hide Sum, SwappedSum, Canon;
    FoldCanon(sum0);
    sum, j := AddWords(tail, Fold(sum0));
    SumBound(tail[..j]);
  }

  lemma TailSum(rest: seq<byte>, i: nat, sum0: nat, t1: nat)
    requires i <= |rest| && i % 2 == 0 && sum0 < TWO32 && Canon(sum0) == Canon(Sum(rest[..i]))
    ensures Canon(Fold(sum0) + Sum(rest[i..]) + 256 * t1) == Canon(Sum(rest) + 256 * t1)
  {
    hide Sum, SwappedSum, Canon, Fold;
    var tail := rest[i..];
    assert rest == rest[..i] + tail;
    SumConcat(rest[..i], tail);
    FoldCanon(sum0);
    CanonAdd(Fold(sum0), Sum(tail) + 256 * t1);
    CanonAdd(Sum(rest[..i]), Sum(tail) + 256 * t1);
  }

  // ----- chains of buffers

  datatype Pbuf = Pbuf(payload: seq<byte>, addr: nat)

  ghost predicate Chain(p: seq<Pbuf>) {
    forall i :: 0 <= i < |p| ==> |p[i].payload| <= 0xffff
  }

  /** The bytes of the buffers, one behind the other. */
  ghost function Concat(p: seq<Pbuf>): seq<byte> {
    if p == [] then [] else Concat(p[..|p| - 1]) + p[|p| - 1].payload
  }

  lemma ConcatNext(p: seq<Pbuf>, i: nat)
    requires i < |p|
    ensures Concat(p[..i + 1]) == Concat(p[..i]) + p[i].payload
  {
    assert p[..i + 1][..i] == p[..i];
  }

  /** The value of a sum, with the bytes exchanged after an odd number of them. */
  ghost function Turned(total: nat, swapped: bool): nat {
    Canon(if swapped then 256 * total else total)
  }

  /** Adding the next buffer to the accumulator, which is turned when an odd number of bytes came before. */
  lemma AddBuffer(a: seq<byte>, b: seq<byte>, acc0: nat)
    ensures Canon(Turned(acc0 + Sum(a), |a| % 2 == 1) + Checksum(b)) == Turned(acc0 + Sum(a + b), |a| % 2 == 1)
  {
    hide Sum, SwappedSum, Canon;
    SumConcat(a, b);
    var s := acc0 + Sum(a);
    if |a| % 2 == 0 {
      CanonAddBoth(s, Sum(b));
    } else {
      CanonAddBoth(256 * s, Sum(b));
      SwappedCanon(b);
      CanonAddBoth(256 * s, 256 * SwappedSum(b));
    }
  }

  /** The loop of inet_chksum_pbuf and inet_cksum_pseudo_base: the accumulator stays below 0x10000
      at every byte swap, and in the end is the value for the concatenated bytes. */
  method SumChain(p: seq<Pbuf>, acc0: nat) returns (acc: nat)
    requires Chain(p) && acc0 <= 0xffff
    ensures acc == Canon(acc0 + Sum(Concat(p)))
  {
    hide Sum, SwappedSum, Canon, Concat;
    acc := acc0;
    var swapped := false;
    ConcatEmpty(p);
    CanonSmall(acc0);
    var i := 0;
    while i < |p|
      invariant 0 <= i <= |p| && acc <= 0xffff
      invariant swapped == (|Concat(p[..i])| % 2 == 1)
      invariant acc == Turned(acc0 + Sum(Concat(p[..i])), swapped)
    {
      var q := p[i];
      ghost var total := acc0 + Sum(Concat(p[..i + 1]));
      ConcatNext(p, i);
      AddBuffer(Concat(p[..i]), q.payload, acc0);
      var c := Chksum2(q.payload, q.addr);
      acc := acc + c;
      FoldCanon(acc);
      acc := Fold(acc);
      if |q.payload| % 2 != 0 {
        TurnOver(total, swapped);
        swapped := !swapped;
        acc := Swap(acc);
      }
      i := i + 1;
    }
    assert p[..i] == p;
    if swapped {
      TurnOver(acc0 + Sum(Concat(p)), swapped);
      acc := Swap(acc);
    }
  }

  lemma CanonSmall(x: nat)
    requires x <= 0xffff
    ensures Canon(x) == x
  {
  }

  lemma ConcatEmpty(p: seq<Pbuf>)
    ensures Concat(p[..0]) == [] && Sum([]) == 0
  {
  }

  /** Swapping the value turns it over. */
  lemma TurnOver(total: nat, swapped: bool)
    ensures Swap(Turned(total, swapped)) == Turned(total, !swapped)
  {
    hide Canon;
    SwapCanon(total);
    SwapTwice(Canon(total));
  }

  /** inet_chksum_pbuf. */
  method ChksumPbuf(p: seq<Pbuf>) returns (r: nat)
    requires Chain(p)
    ensures r == 0xffff - Checksum(Concat(p))
  {
    hide Concat, Sum;
    var acc := SumChain(p, 0);
    r := 0xffff - acc;
  }

  /** The last four bytes of the pseudo header, in network order: zero, protocol and length. */
  ghost function PseudoTail(proto: nat, protoLen: nat): (r: seq<byte>)
    requires proto <= 0xff && protoLen <= 0xffff
    ensures |r| == 4
  {
    [0, proto as byte, (protoLen / 256) as byte, (protoLen % 256) as byte]
  }

  lemma PseudoSum(proto: nat, protoLen: nat, data: seq<byte>)
    requires proto <= 0xff && protoLen <= 0xffff
    ensures Sum(PseudoTail(proto, protoLen) + data) == Sum(data) + Swap(proto) + Swap(protoLen)
  {
    hide Sum;
    var head := PseudoTail(proto, protoLen);
    SumConcat(head, data);
    SumWord(head, 0);
    SumWord(head, 2);
    assert head[..4] == head;
    EmptySums(head);
  }

  /** inet_cksum_pseudo_base: the chain together with what the pseudo header adds. */
  method ChksumPseudo(p: seq<Pbuf>, proto: nat, protoLen: nat, acc0: nat) returns (r: nat)
    requires Chain(p) && acc0 <= 0xffff && proto <= 0xff && protoLen <= 0xffff
    ensures r == 0xffff - Canon(acc0 + Sum(PseudoTail(proto, protoLen) + Concat(p)))
  {
    hide Concat, Sum, Canon;
    PseudoSum(proto, protoLen, Concat(p));
    var acc := SumChain(p, acc0);
    CanonAdd(acc0 + Sum(Concat(p)), Swap(proto) + Swap(protoLen));
    acc := acc + Swap(proto) + Swap(protoLen);
    FoldTwice(acc);
    r := 0xffff - Fold(Fold(acc));
  }

  /** ducknet_checksum: folds what a 32-bit sum holds until nothing is left above 16 bits. */
  method DucknetChecksum(data: seq<byte>, start: nat) returns (r: nat)
    requires start < TWO32
    ensures r == 0xffff - Canon((start + Sum(data)) % TWO32)
    ensures start == 0 && |data| <= EXACT_LEN ==> r == 0xffff - Checksum(data)
  {
    hide Sum, SwappedSum, Canon;
    var sum, i := AddWords(data, 0);
    if |data| - i > 0 {
      SumByte(data, i);
      WrappedAdd(Sum(data[..i]), data[i] as nat);
      sum := (sum + data[i] as nat) % TWO32;
    } else {
      assert data[..i] == data;
    }
    WrappedAdd(Sum(data), start);
    sum := (start + sum) % TWO32;
    while sum / TWO16 != 0
      invariant 0 <= sum < TWO32 && Canon(sum) == Canon((start + Sum(data)) % TWO32)
      decreases sum
    {
      FoldCanon(sum);
      sum := Fold(sum);
    }
    CanonSmall(sum);
    if |data| <= EXACT_LEN {
      NoOverflow(data);
    }
    r := 0xffff - sum;
  }
}
