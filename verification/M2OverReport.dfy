/** A batch for which the M2 channel of kern/solver_faster.cpp reports digits that M2 does not divide. */
module M2OverReport {
  import opened Machine
  import opened Remainders
  import opened SolverArithmetic
  import opened SolverSpec
  import opened Solver

  const OVER: string := "134869696645438441856216836"
  const OVER_VALUE: nat := 134869696645438441856216836

  /** The sum after the 256 nines the stream starts with. */
  const NINES_SUM: nat := 3476577183015026572939130

  lemma {:induction false} Pow10Sum(a: nat, b: nat)
    ensures Pow10(a + b) == Pow10(a) * Pow10(b)
    decreases a
  {
    if a == 0 {
    } else {
      Pow10Sum(a - 1, b);
      assert Pow10(a + b) == 10 * Pow10(a - 1 + b);
      assert 10 * (Pow10(a - 1) * Pow10(b)) == (10 * Pow10(a - 1)) * Pow10(b);
    }
  }

  /** A product of powers of ten modulo M2, with its quotient given. */
  lemma PowerStep(a: nat, b: nat, x: nat, y: nat, k: nat, z: nat)
    requires Pow10(a) % M2 == x && Pow10(b) % M2 == y && x * y == M2 * k + z && z < M2
    ensures Pow10(a + b) % M2 == z
  {
    hide Pow10;
    var p, r := Pow10(a), Pow10(b);
    Pow10Sum(a, b);
    ModMul(r, p, M2);
    ModMul(p, y, M2);
    assert p * r == r * p && p * y == y * p;
    DivModUnique(M2, k, z);
  }

  lemma SmallPowers()
    ensures Pow10(6) % M2 == 1000000 && Pow10(23) % M2 == 100000000000000000000000
    ensures Pow10(25) % M2 == 10000000000000000000000000
  {
    Pow10Sum(3, 3);
    Pow10Sum(6, 6);
    Pow10Sum(12, 12);
    assert Pow10(24) == 1000000000000000000000000 && Pow10(25) == 10 * Pow10(24) && Pow10(24) == 10 * Pow10(23);
    DivModUnique(M2, 0, Pow10(6));
    DivModUnique(M2, 0, Pow10(23));
    DivModUnique(M2, 0, Pow10(25));
  }

  lemma Powers()
    ensures Pow10(373) % M2 == 72513205263337015443404008
    ensures Pow10(400) % M2 == 27722858625320463674463332 && Pow10(656) % M2 == 31199435808335490014069129
  {
    hide Pow10;
    SmallPowers();
    PowerStep(25, 25, 10000000000000000000000000, 10000000000000000000000000,
              955582087591849875329373, 97914796148304448264242427);
    PowerStep(50, 50, 97914796148304448264242427, 97914796148304448264242427,
              91614591286709897192120903, 62894821056084749061499226);
    PowerStep(100, 100, 62894821056084749061499226, 62894821056084749061499226,
              37800519804197900578820640, 40576272472267552808802436);
    PowerStep(200, 200, 40576272472267552808802436, 40576272472267552808802436,
              15733027315320879478233164, 27722858625320463674463332);
    PowerStep(200, 100, 40576272472267552808802436, 62894821056084749061499226,
              24386812227365294423251709, 86619048161119431955372227);
    PowerStep(300, 50, 86619048161119431955372227, 97914796148304448264242427,
              81045654049111905885291043, 84970600236790479253077686);
    PowerStep(350, 23, 84970600236790479253077686, 100000000000000000000000,
              81196383558204779503192, 72513205263337015443404008);
    PowerStep(400, 200, 27722858625320463674463332, 40576272472267552808802436,
              10749249880186725054078995, 90730671713308109635214757);
    PowerStep(600, 50, 90730671713308109635214757, 97914796148304448264242427,
              84892720336091036018840149, 63780109113612708177268490);
    PowerStep(650, 6, 63780109113612708177268490, 1000000,
              609471, 31199435808335490014069129);
  }

  lemma {:induction false} NinesValue(n: nat)
    ensures Value(seq(n, _ => 9)) == Pow10(n) - 1
  {
    if n == 0 {
    } else {
      var s := seq(n, _ => 9);
      assert s[..n - 1] == seq(n - 1, _ => 9);
      NinesValue(n - 1);
    }
  }

  lemma NinesSum(ds: seq<int>)
    requires |ds| >= WINDOW && ds[..WINDOW] == seq(WINDOW, _ => 9)
    ensures PrefixSum(ds, WINDOW, M2) == NINES_SUM
  {
    hide Pow10, Value;
    var a, b := Pow10(656), Pow10(400);
    RawSumDifference(ds, 0, WINDOW);
    assert ds[0..WINDOW] == ds[..WINDOW];
    NinesValue(WINDOW);
    Pow10Sum(256, 400);
    assert RawSum(ds, WINDOW) == a - b;
    Powers();
    SumOf(a, b);
  }

  lemma SumOf(a: nat, b: nat)
    requires a % M2 == 31199435808335490014069129 && b % M2 == 27722858625320463674463332
    ensures (SEED + (a - b)) % M2 == NINES_SUM
  {
    var q := a / M2 - b / M2;
    assert SEED + (a - b) == M2 * q + NINES_SUM;
    DivModUnique(M2, q, NINES_SUM);
  }

  const OVER_DIGITS: seq<int> := [1, 3, 4, 8, 6, 9, 6, 9, 6, 6, 4, 5, 4, 3, 8, 4, 4, 1, 8, 5, 6, 2, 1, 6, 8, 3, 6]

  lemma OverDigits()
    ensures Batch(OVER) && DigitsOf(OVER) == OVER_DIGITS && Passes(OVER_DIGITS, 2)
  {
    assert |OVER| == |OVER_DIGITS| == 27;
  }

  lemma OverFront()
    ensures Value(OVER_DIGITS[..14]) == 13486969664543
  {
    hide Value;
    var x := OVER_DIGITS;
    EmptyValue(x);
    ValueStep(x, 0); ValueStep(x, 1); ValueStep(x, 2); ValueStep(x, 3); ValueStep(x, 4);
    ValueStep(x, 5); ValueStep(x, 6); ValueStep(x, 7); ValueStep(x, 8); ValueStep(x, 9);
    ValueStep(x, 10); ValueStep(x, 11); ValueStep(x, 12); ValueStep(x, 13);
  }

  lemma OverValue()
    ensures Value(OVER_DIGITS) == OVER_VALUE
  {
    hide Value;
    var x := OVER_DIGITS;
    OverFront();
    ValueStep(x, 14); ValueStep(x, 15); ValueStep(x, 16); ValueStep(x, 17); ValueStep(x, 18);
    ValueStep(x, 19); ValueStep(x, 20); ValueStep(x, 21); ValueStep(x, 22); ValueStep(x, 23);
    ValueStep(x, 24); ValueStep(x, 25); ValueStep(x, 26);
    assert x[..27] == x;
  }

  lemma OverRemainder()
    ensures OVER_VALUE % M2 != 0 && (OVER_VALUE * Pow10(373)) % M2 == TWO64
  {
    hide Pow10;
    Powers();
    ModMul(Pow10(373), OVER_VALUE, M2);
    DivModUnique(M2, 93454341868250173934362272, TWO64);
    DivModUnique(M2, 1, OVER_VALUE - M2);
  }

  /** Received first after init, these 27 digits are reported for M2, and M2 does not divide them. */
  lemma M2OverReports()
    ensures Batch(OVER) && var x := DigitsOf(OVER);
            x in M2Run(seq(WINDOW, _ => 9), [OVER]) && Value(x) % M2 != 0
  {
    hide Value, Pow10, Scan, Passes;
    OverDigits();
    OverValue();
    OverRemainder();
    var t, x := seq(WINDOW, _ => 9), DigitsOf(OVER);
    var ds := t + x;
    assert ds[WINDOW..WINDOW + 27] == x && ds[..WINDOW] == t;
    NinesSum(ds);
    M2ReportedIff(ds, WINDOW + 26, WINDOW);
    ScanMember(ds, WINDOW + 26, M2, 2, WINDOW + 26, WINDOW);
    FirstBatch(t, OVER);
  }

  /** The reports of a run of one batch. */
  lemma FirstBatch(t: seq<int>, buf: string)
    requires |t| == WINDOW && Batch(buf)
    ensures M2Run(t, [buf]) == ScanBatch(t + DigitsOf(buf), |buf|, M2, 2)
  {
    hide ScanBatch;
    assert [buf][..0] == [];
    assert AllDigits([]) == [] && t + [] == t;
    assert (t + DigitsOf(buf))[0..] == t + DigitsOf(buf);
  }
}
