/** Block headers in the byte array of the lwIP heap (core/mem.c): struct mem is two 32-bit
    little-endian indices and a flag byte, padded to twelve bytes. */
module HeapHeaders {
  import opened Machine


  datatype Header = Header(next: nat, prev: nat, used: nat)

  ghost predicate Fits(h: Header) {
    h.next < TWO32 && h.prev < TWO32 && h.used < 256
  }

  function Byte(v: nat): byte {
    (v % 256) as byte
  }

  function Enc32(v: nat): (r: seq<byte>)
    ensures |r| == 4
  {
    [Byte(v), Byte(v / 0x100), Byte(v / 0x1_0000), Byte(v / 0x100_0000)]
  }

  function Dec32(b: seq<byte>): (v: nat)
    requires |b| == 4
    ensures v < TWO32
  {
    b[0] as nat + b[1] as nat * 0x100 + b[2] as nat * 0x1_0000 + b[3] as nat * 0x100_0000
  }

  lemma Dec32Enc32(v: nat)
    requires v < TWO32
    ensures Dec32(Enc32(v)) == v
  {
    var a, b, c := v / 0x100, v / 0x1_0000, v / 0x100_0000;
    assert v == 0x100 * a + v % 256;
    assert b == a / 256 && a == 0x100 * b + a % 256;
    assert c == b / 256 && b == 0x100 * c + b % 256;
    assert c < 256 && c % 256 == c;
  }

  lemma Enc32Dec32(b: seq<byte>)
    requires |b| == 4
    ensures Enc32(Dec32(b)) == b
  {
    var v := Dec32(b);
    var c3 := b[3] as nat;
    var c2 := b[2] as nat + 0x100 * c3;
    var c1 := b[1] as nat + 0x100 * c2;
    assert v == b[0] as nat + 0x100 * c1;
    assert v / 0x100 == c1 && v / 0x1_0000 == c1 / 0x100 == c2 && v / 0x100_0000 == c2 / 0x100 == c3;
  }

  /** The header stored at p. */
  function Hdr(m: seq<byte>, p: nat): (h: Header)
    requires p + 9 <= |m|
    ensures Fits(h)
  {
    Header(Dec32(m[p..p + 4]), Dec32(m[p + 4..p + 8]), m[p + 8] as nat)
  }

  /** The memory with header h written at p. */
  function PutHdr(m: seq<byte>, p: nat, h: Header): (m': seq<byte>)
    requires p + 9 <= |m|
    ensures |m'| == |m|
  {
    m[..p] + Enc32(h.next) + Enc32(h.prev) + [Byte(h.used)] + m[p + 9..]
  }

  lemma HdrSame(m: seq<byte>, p: nat, h: Header)
    requires p + 9 <= |m| && Fits(h)
    ensures Hdr(PutHdr(m, p, h), p) == h
  {
    hide Enc32, Dec32;
    var m' := PutHdr(m, p, h);
    assert m'[p..p + 4] == Enc32(h.next) && m'[p + 4..p + 8] == Enc32(h.prev);
    Dec32Enc32(h.next);
    Dec32Enc32(h.prev);
  }

  lemma HdrOther(m: seq<byte>, p: nat, h: Header, q: nat)
    requires p + 9 <= |m| && q + 9 <= |m| && (q + 9 <= p || p + 9 <= q)
    ensures Hdr(PutHdr(m, p, h), q) == Hdr(m, q)
  {
    hide Enc32, Dec32;
    var m' := PutHdr(m, p, h);
    assert m'[q..q + 4] == m[q..q + 4] && m'[q + 4..q + 8] == m[q + 4..q + 8] && m'[q + 8] == m[q + 8];
  }

  lemma PutTwice(m: seq<byte>, p: nat, h: Header, h': Header)
    requires p + 9 <= |m|
    ensures PutHdr(PutHdr(m, p, h), p, h') == PutHdr(m, p, h')
  {
    hide Enc32;
    var m' := PutHdr(m, p, h);
    assert m'[..p] == m[..p] && m'[p + 9..] == m[p + 9..];
  }

  lemma PutBytes(m: seq<byte>, p: nat, h: Header, x: nat)
    requires p + 9 <= |m| && x < |m| && (x < p || p + 9 <= x)
    ensures PutHdr(m, p, h)[x] == m[x]
  {
  }

  lemma PutNext(m: seq<byte>, p: nat, v: nat)
    requires p + 9 <= |m|
    ensures PutHdr(m, p, Hdr(m, p).(next := v)) == m[..p] + Enc32(v) + m[p + 4..]
  {
    hide Enc32, Dec32;
    Enc32Dec32(m[p + 4..p + 8]);
    assert m[p + 4..] == m[p + 4..p + 8] + [m[p + 8]] + m[p + 9..];
  }

  lemma PutPrev(m: seq<byte>, p: nat, v: nat)
    requires p + 9 <= |m|
    ensures PutHdr(m, p, Hdr(m, p).(prev := v)) == m[..p + 4] + Enc32(v) + m[p + 8..]
  {
    hide Enc32, Dec32;
    Enc32Dec32(m[p..p + 4]);
    assert m[..p + 4] == m[..p] + m[p..p + 4];
    assert m[p + 8..] == [m[p + 8]] + m[p + 9..];
  }

  lemma PutUsed(m: seq<byte>, p: nat, v: nat)
    requires p + 9 <= |m|
    ensures PutHdr(m, p, Hdr(m, p).(used := v)) == m[p + 8 := Byte(v)]
  {
    hide Enc32, Dec32;
    Enc32Dec32(m[p..p + 4]);
    Enc32Dec32(m[p + 4..p + 8]);
    assert m == m[..p] + m[p..p + 4] + m[p + 4..p + 8] + [m[p + 8]] + m[p + 9..];
  }
}
