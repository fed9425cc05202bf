/** What the solver reads and writes are characters: reports as strings, against the received text. */
module SolverText {
  import opened Machine
  import opened SolverArithmetic
  import opened SolverSpec

  /** The digits written out, as report_digits does. */
  function Text(ds: seq<int>): (r: string)
    requires Digits(ds)
    ensures |r| == |ds| && forall i :: 0 <= i < |r| ==> r[i] as int - '0' as int == ds[i]
  {
    seq(|ds|, i requires 0 <= i < |ds| => (ds[i] + '0' as int) as char)
  }

  /** Which are the decimal digits. */
  lemma TextIs(ds: seq<int>, i: nat)
    requires Digits(ds) && i < |ds|
    ensures Text(ds)[i] == "0123456789"[ds[i]]
  {
    assert forall d :: 0 <= d <= 9 ==> "0123456789"[d] as int == d + '0' as int;
  }

  /** The number that a string of decimal digits denotes. */
  ghost function Number(s: string): int {
    if s == "" then 0 else 10 * Number(s[..|s| - 1]) + (s[|s| - 1] as int - '0' as int)
  }

  /** A part of the text of minLen to 256 characters that does not start with a zero and ends behind
      place a. */
  ghost predicate IsPart(text: string, a: nat, minLen: nat, y: string) {
    exists k, p :: PartAt(text, a, minLen, y, k, p)
  }

  ghost predicate PartAt(text: string, a: nat, minLen: nat, y: string, k: int, p: int) {
    && 0 <= k < p <= |text| && a < p <= k + 256 && y == text[k..p]
    && minLen <= |y| && y[0] != '0'
  }

  /** y is one of the reports, written out. */
  ghost predicate Writes(xs: seq<seq<int>>, y: string) {
    exists x :: x in xs && Digits(x) && Text(x) == y
  }

  /** The length below which a modulus is not reported. */
  ghost function MinLen(mNumber: int): nat {
    if mNumber == 1 then 14 else if mNumber == 2 then 27 else if mNumber == 3 then 54 else 68
  }

  lemma PassesIff(x: seq<int>, mNumber: int)
    requires x != [] && Digits(x) && 1 <= mNumber <= 4
    ensures Passes(x, mNumber) <==> Text(x)[0] != '0' && MinLen(mNumber) <= |x|
  {
    assert Text(x)[0] as int - '0' as int == x[0];
  }

  lemma TextSlice(t: seq<int>, k: nat, p: nat)
    requires Digits(t) && k <= p <= |t|
    ensures Digits(t[k..p]) && Text(t[k..p]) == Text(t)[k..p]
  {
  }

  lemma TextEmpty()
    ensures Digits([]) && Text([]) == ""
  {
  }

  lemma TextConcat(a: seq<int>, b: seq<int>)
    requires Digits(a) && Digits(b)
    ensures Digits(a + b) && Text(a + b) == Text(a) + Text(b)
  {
  }

  lemma {:induction false} TextNumber(ds: seq<int>)
    requires Digits(ds)
    ensures Number(Text(ds)) == Value(ds)
  {
    if ds == [] {
    } else {
      var n := |ds| - 1;
      TextNumber(ds[..n]);
      TextSlice(ds, 0, n);
      assert ds[..n] == ds[0..n] && Text(ds)[..n] == Text(ds)[0..n];
    }
  }

  /** Equal texts are equal digits. */
  lemma TextInjective(a: seq<int>, b: seq<int>)
    requires Digits(a) && Digits(b) && Text(a) == Text(b)
    ensures a == b
  {
    forall i | 0 <= i < |a| ensures a[i] == b[i] {
      assert a[i] == Text(a)[i] as int - '0' as int == Text(b)[i] as int - '0' as int == b[i];
    }
  }

  // ----- the naive search

  lemma {:induction false} NaiveAllExact(t: seq<int>, a: nat, b: nat, m: nat, mNumber: int, x: seq<int>)
    requires a <= b <= |t| && m > 0
    ensures x in NaiveAll(t, a, b, m, mNumber) <==>
            exists k: int, p: int :: a <= p < b && Found(t, k, p, m, mNumber, x)
    decreases b
  {
    hide Naive, Found;
    if a == b {
    } else {
      NaiveAllExact(t, a, b - 1, m, mNumber, x);
      NaiveExact(t, b - 1, m, mNumber, b - 1, x);
      FoundWithin(t, b - 1, m, mNumber, x);
      if k: int, p: int :| a <= p < b && Found(t, k, p, m, mNumber, x) {
        if p < b - 1 {
          assert a <= p < b - 1 && Found(t, k, p, m, mNumber, x);
        }
      }
    }
  }

  lemma FoundWithin(t: seq<int>, p: nat, m: nat, mNumber: int, x: seq<int>)
    requires p < |t| && m > 0
    ensures (exists k :: k <= p && Found(t, k, p, m, mNumber, x)) <==> exists k :: Found(t, k, p, m, mNumber, x)
  {
    hide Value, Passes;
  }

  /** A found substring, in characters. */
  lemma FoundPart(t: seq<int>, a: nat, m: nat, mNumber: int, k: int, p: int, x: seq<int>)
    requires Digits(t) && a <= p < |t| && m > 0 && 1 <= mNumber <= 4
    ensures Found(t, k, p, m, mNumber, x) <==>
            && Digits(x) && PartAt(Text(t), a, MinLen(mNumber), Text(x), k, p + 1) && Number(Text(x)) % m == 0
  {
    hide Value, Passes, Number, MinLen, Text;
    if 0 <= k <= p {
      TextSlice(t, k, p + 1);
      var part := t[k..p + 1];
      PassesIff(part, mNumber);
      TextNumber(part);
      if Digits(x) && Text(x) == Text(part) {
        TextInjective(x, part);
      }
    }
  }

  /** The naive search writes exactly the parts of the text that end behind place a, are multiples of
      m, do not start with a zero and are long enough. */
  lemma NaiveWrites(t: seq<int>, a: nat, m: nat, mNumber: int, y: string)
    requires Digits(t) && a <= |t| && m > 0 && 1 <= mNumber <= 4
    ensures Writes(NaiveAll(t, a, |t|, m, mNumber), y) <==>
            IsPart(Text(t), a, MinLen(mNumber), y) && Number(y) % m == 0
  {
    hide Found, NaiveAll, Number, MinLen, PartAt, Text;
    var xs := NaiveAll(t, a, |t|, m, mNumber);
    if Writes(xs, y) {
      var x :| x in xs && Digits(x) && Text(x) == y;
      NaiveAllExact(t, a, |t|, m, mNumber, x);
      var k: int, p: int :| a <= p < |t| && Found(t, k, p, m, mNumber, x);
      FoundPart(t, a, m, mNumber, k, p, x);
    }
    if IsPart(Text(t), a, MinLen(mNumber), y) && Number(y) % m == 0 {
      var k, p :| PartAt(Text(t), a, MinLen(mNumber), y, k, p);
      PartBounds(Text(t), a, MinLen(mNumber), y, k, p);
      TextSlice(t, k, p);
      var x := t[k..p];
      FoundPart(t, a, m, mNumber, k, p - 1, x);
      NaiveAllExact(t, a, |t|, m, mNumber, x);
    }
  }

  lemma PartBounds(text: string, a: nat, minLen: nat, y: string, k: int, p: int)
    requires PartAt(text, a, minLen, y, k, p)
    ensures 0 <= k < p <= |text| && a < p && y == text[k..p]
  {
  }

  // ----- every report is a part of the text

  ghost predicate SliceAt(t: seq<int>, a: nat, mNumber: int, x: seq<int>, k: int, p: int) {
    0 <= k <= p < |t| && a <= p && p + 1 - k <= WINDOW && x == t[k..p + 1] && Passes(x, mNumber)
  }

  ghost predicate Slices(xs: seq<seq<int>>, t: seq<int>, a: nat, mNumber: int) {
    forall x :: x in xs ==> exists k, p :: SliceAt(t, a, mNumber, x, k, p)
  }

  lemma {:induction false} ScanSlices(ds: seq<int>, q: nat, m: nat, mNumber: int, n: nat)
    requires n <= q < |ds| && WINDOW <= q < SIZE && m > 0
    ensures Slices(Scan(ds, q, m, mNumber, n), ds, WINDOW, mNumber)
    decreases n
  {
    hide Key, Passes;
    if n == 0 {
    } else {
      ScanSlices(ds, q, m, mNumber, n - 1);
      assert Reported(ds, q, m, mNumber, n) ==> SliceAt(ds, WINDOW, mNumber, ds[n..q + 1], n, q);
    }
  }

  lemma {:induction false} BatchSlices(ds: seq<int>, k: nat, m: nat, mNumber: int)
    requires WINDOW + k <= |ds| && WINDOW + k <= SIZE && m > 0
    ensures Slices(ScanBatch(ds, k, m, mNumber), ds, WINDOW, mNumber)
  {
    hide SliceAt, Scan;
    if k == 0 {
    } else {
      BatchSlices(ds, k - 1, m, mNumber);
      ScanSlices(ds, WINDOW + k - 1, m, mNumber, WINDOW + k - 1);
    }
  }

  /** Slices of a window are slices of the stream. */
  lemma SlicesIn(xs: seq<seq<int>>, ds: seq<int>, t: seq<int>, off: nat, mNumber: int)
    requires Slices(xs, ds, WINDOW, mNumber) && off + |ds| <= |t| && ds == t[off..off + |ds|]
    ensures Slices(xs, t, off + WINDOW, mNumber)
  {
    hide Passes;
    var a := off + WINDOW;
    forall x | x in xs ensures exists k, p :: SliceAt(t, a, mNumber, x, k, p) {
      var k, p :| SliceAt(ds, WINDOW, mNumber, x, k, p);
      SliceOfSlice(t, ds, off, k, p + 1);
      assert SliceAt(t, a, mNumber, x, off + k, off + p);
    }
  }

  /** They stay slices when the stream grows, and when more of it counts. */
  lemma SlicesGrow(xs: seq<seq<int>>, t: seq<int>, u: seq<int>, a: nat, b: nat, mNumber: int)
    requires Slices(xs, t, b, mNumber) && a <= b
    ensures Slices(xs, t + u, a, mNumber)
  {
    hide Passes;
    forall x | x in xs ensures exists k, p :: SliceAt(t + u, a, mNumber, x, k, p) {
      var k, p :| SliceAt(t, b, mNumber, x, k, p);
      assert (t + u)[k..p + 1] == t[k..p + 1];
      assert SliceAt(t + u, a, mNumber, x, k, p);
    }
  }

  lemma SlicesWrite(xs: seq<seq<int>>, t: seq<int>, a: nat, mNumber: int, y: string)
    requires Slices(xs, t, a, mNumber) && Digits(t) && 1 <= mNumber <= 4 && Writes(xs, y)
    ensures IsPart(Text(t), a, MinLen(mNumber), y)
  {
    hide Passes, Text;
    var x :| x in xs && Digits(x) && Text(x) == y;
    var k, p :| SliceAt(t, a, mNumber, x, k, p);
    TextSlice(t, k, p + 1);
    PassesIff(x, mNumber);
    assert PartAt(Text(t), a, MinLen(mNumber), y, k, p + 1);
  }
}
