// add_sf and sub_sf: the exact sum rounded once, for every pair of words.
module SoftFloatAdd {
  import opened Powers
  import opened Ieee754
  import opened IeeeOps
  import opened SoftFloatRound

  lemma AddCommutes(f: Format, a: nat, b: nat, rm: Rounding)
    requires IsWord(f, a) && IsWord(f, b)
    ensures Add(f, a, b, rm) == Add(f, b, a, rm)
  {
    hide RoundedTo, Decode;
  }

  // The operand with the larger index has the larger magnitude and exponent.
  lemma LargerFirst(f: Format, a: nat, b: nat)
    requires IsWord(f, a) && IsWord(f, b) && IndexOf(f, b) <= IndexOf(f, a)
    ensures ExpField(f, b) <= ExpField(f, a)
    ensures ExpField(f, a) == ExpField(f, b) ==> MantField(f, b) <= MantField(f, a)
  {
    Fields(f, a);
    Fields(f, b);
    if ExpField(f, a) < ExpField(f, b) {
      MulMono(ExpField(f, a) + 1, ExpField(f, b), P2(f.mant));
      Distribute(ExpField(f, a), 1, P2(f.mant));
    }
  }

  // ----- the aligned sum -----

  // j is what remains of 8 * sb after a jammed right shift by d.
  lemma JamBounds(n: nat, c: pos)
    ensures var j := Jam(n, c);
      && 0 <= j
      && (n % c == 0 ==> j * c == n)
      && (n % c != 0 ==> j % 2 == 1 && (j - 1) * c < n < (j + 1) * c)
  {
    DivMod(n, c);
    var q := n / c;
    Distribute(q, 1, c);
    Distribute(q + 1, 1, c);
  }

  lemma Lossless(s: nat, d: nat)
    requires d <= 3
    ensures 8 * s % P2(d) == 0
  {
    P2Add(d, 3 - d);
    assert P2(3) == 8;
    var c := P2(3 - d) * s;
    assert 8 * s == c * P2(d) by { assert P2(d) * P2(3 - d) * s == P2(3 - d) * s * P2(d); }
    DivUnique(8 * s, P2(d), c, 0);
  }

  // A jammed operand j stands for the exact n: equal, or strictly within one of the odd j.
  ghost predicate Stands(j: nat, n: nat, u: nat, exact: bool) {
    if exact then j * u == n else j % 2 == 1 && (j - 1) * u < n < (j + 1) * u
  }

  lemma JamStands(n: nat, c: pos, e: pos)
    ensures Stands(Jam(n, c), n * e, c * e, n % c == 0)
  {
    JamBounds(n, c);
    var j := Jam(n, c);
    Assoc(j, c, e);
    Assoc(j - 1, c, e);
    Assoc(j + 1, c, e);
    if n % c != 0 {
      MulStrict((j - 1) * c, n, e);
      MulStrict(n, (j + 1) * c, e);
    }
  }

  /** Adding or subtracting a jammed operand leaves the exact result in the cell of the sum. */
  lemma SumCell(a: nat, j: nat, n: nat, u: pos, exact: bool, minus: bool, x: Exact, v: pos)
    requires Stands(j, n, u, exact) && a % 2 == 0
    requires minus ==> j <= a && n <= a * u
    requires x.Ratio? && x.n * v == (if minus then a * u - n else a * u + n) * x.d
    ensures var m := if minus then a - j else a + j;
      if exact then Cmp(x, m * u, v) == 0 else m % 2 == 1 && Cell(m, 2, x, u, v)
  {
    var m, y := if minus then a - j else a + j, if minus then a * u - n else a * u + n;
    Distribute(a, j, u);
    if !exact {
      Distribute(j, 1, u);
      Distribute(m, 1, u);
      assert (m - 1) * u < y < (m + 1) * u;
      var h := m / 2;
      assert m == 2 * h + 1 by { OddSum(a, j, minus); }
      InsideCell(h, y, u, x, v);
    }
  }

  lemma InsideCell(h: nat, y: nat, u: pos, x: Exact, v: pos)
    requires 2 * h * u < y < (2 * h + 2) * u
    requires x.Ratio? && x.n * v == y * x.d
    ensures Cell(2 * h + 1, 2, x, u, v)
  {
    MulStrict(2 * h * u, y, x.d);
    MulStrict(y, (2 * h + 2) * u, x.d);
    assert h * 2 == 2 * h && (h + 1) * 2 == 2 * h + 2;
    CellOf(2 * h + 1, 2, x, u, v, h, 1);
  }

  lemma OddSum(a: nat, j: nat, minus: bool)
    requires j % 2 == 1 && a % 2 == 0
    ensures (if minus then a - j else a + j) % 2 == 1
  {}

  ghost predicate Significand(f: Format, e: nat, s: nat) {
    1 <= e && s < 2 * P2(f.mant) && (e == 1 || P2(f.mant) <= s)
  }

  // Three guard bits: a lossy alignment shift leaves no room for cancellation.
  lemma AlignedRange(f: Format, sa: nat, ea: nat, sb: nat, eb: nat)
    requires Significand(f, ea, sa) && Significand(f, eb, sb)
    requires eb <= ea && (ea == eb ==> sb <= sa)
    ensures var j := Jam(8 * sb, P2(ea - eb));
      && 0 <= j <= 8 * sa
      && 8 * sa + j < P2(f.Size() - 1) && 8 * sb < P2(f.Size() - 1)
      && (8 * sb % P2(ea - eb) != 0 ==> 4 * P2(f.mant) <= 8 * sa - j)
  {
    var w, d := P2(f.mant), ea - eb;
    var c, j := P2(d), Jam(8 * sb, P2(d));
    JamBounds(8 * sb, c);
    P2Add(f.mant, 5);
    assert P2(5) == 32;
    P2Mono(f.mant + 5, f.Size() - 1);
    if d <= 3 {
      Lossless(sb, d);
      MulMono(1, c, j);
      if d > 0 {
        P2Mono(1, d);
        MulMono(2, c, j);
      }
    } else {
      P2Mono(4, d);
      assert P2(4) == 16;
      if 8 * sb % c == 0 {
        MulMono(16, c, j);
      } else {
        assert j >= 1;
        MulMono(16, c, j - 1);
      }
    }
  }

  lemma AddScale(f: Format, e: nat)
    requires e >= 1
    ensures Scaled(f, e + Rnd(f) - 3, P2(e - 1), 8)
  {
    P2Small();
    IsPowMul(e - 1, -3, P2(e - 1), 1, 1, 8);
  }

  lemma MagOrder(f: Format, sa: nat, ea: nat, sb: nat, eb: nat)
    requires Significand(f, ea, sa) && Significand(f, eb, sb)
    requires eb <= ea && (ea == eb ==> sb <= sa)
    ensures sb * P2(eb - 1) <= sa * P2(ea - 1)
  {
    var d := ea - eb;
    P2Add(d, eb - 1);
    if d == 0 {
      MulMono(sb, sa, P2(eb - 1));
    } else {
      P2Mono(1, d);
      MulMono(2, P2(d), sa);
      MulMono(sb, sa * P2(d), P2(eb - 1));
      Assoc(sa, P2(d), P2(eb - 1));
    }
  }

  // What normalize_sf is given: the aligned sum m and the cell of the exact sum.
  lemma AddFacts(f: Format, sa: nat, ea: nat, sb: nat, eb: nat, minus: bool) returns (j: nat, m: nat, x: Exact)
    requires Significand(f, ea, sa) && Significand(f, eb, sb)
    requires eb <= ea && (ea == eb ==> sb <= sa)
    ensures j == Jam(8 * sb, P2(ea - eb)) && j <= 8 * sa && m == if minus then 8 * sa - j else 8 * sa + j
    ensures var ma, mb := sa * P2(ea - 1), sb * P2(eb - 1);
      mb <= ma && x == Ratio(if minus then ma - mb else ma + mb, 1)
    ensures 0 <= m < P2(f.Size() - 1)
    ensures
      || Cmp(x, m * P2(ea - 1), 8) == 0
      || (Cell(m, P2(1), x, P2(ea - 1), 8) && P2(f.mant + 1 + 1) <= m)
    ensures m == 0 <==> x.n == 0
  {
    hide Cmp, Cell, Jam, P2;
    var d, e := ea - eb, eb - 1;
    var ma, mb := sa * P2(ea - 1), sb * P2(eb - 1);
    j := Jam(8 * sb, P2(d));
    MagOrder(f, sa, ea, sb, eb);
    AlignedRange(f, sa, ea, sb, eb);
    m := if minus then 8 * sa - j else 8 * sa + j;
    x := Ratio(if minus then ma - mb else ma + mb, 1);
    P2Add(d, e);
    P2Small();
    P2Add(f.mant, 2);
    AlignedCell(sa, sb, P2(d), P2(e), P2(ea - 1), minus, m, x);
  }

  // The aligned sum of the jammed operands has the exact sum in its cell.
  lemma AlignedCell(sa: nat, sb: nat, c: pos, e: pos, u: pos, minus: bool, m: nat, x: Exact)
    requires u == c * e && (minus ==> sb * e <= sa * u && Jam(8 * sb, c) <= 8 * sa)
    requires m == if minus then 8 * sa - Jam(8 * sb, c) else 8 * sa + Jam(8 * sb, c)
    requires x == Ratio(if minus then sa * u - sb * e else sa * u + sb * e, 1)
    ensures if 8 * sb % c == 0 then Cmp(x, m * u, 8) == 0 else Cell(m, 2, x, u, 8)
    ensures m == 0 <==> x.n == 0
  {
    hide Cmp, Cell, Jam;
    var ma, mb := sa * u, sb * e;
    JamStands(8 * sb, c, e);
    Assoc(8, sa, u);
    Assoc(8, sb, e);
    var exact := 8 * sb % c == 0;
    assert x.n * 8 == (if minus then 8 * ma - 8 * mb else 8 * ma + 8 * mb) * 1;
    SumCell(8 * sa, Jam(8 * sb, c), 8 * mb, u, exact, minus, x, 8);
    if exact {
      ZeroExact(x.n, m, u);
    } else {
      PositiveCell(m, x, u);
    }
  }

  lemma ZeroExact(n: nat, m: nat, u: pos)
    requires Cmp(Ratio(n, 1), m * u, 8) == 0
    ensures m == 0 <==> n == 0
  {
    assert n * 8 == m * u;
    if m > 0 { MulMono(1, m, u); }
  }

  lemma PositiveCell(m: nat, x: Exact, u: pos)
    requires x.Ratio? && m % 2 == 1 && Cell(m, 2, x, u, 8)
    ensures x.n > 0
  {
    var h, r := CellSplit(m, 2, x, u, 8);
    GridCmp(x, 0, h, 2, u, 8);
  }

  // The finite part of add_sf, on significands that already carry the hidden bit.
  method AddFinite(f: Format, aSign0: bit, aExp: nat, sa: nat, bSign: bit, bExp: nat, sb: nat, rm: Rounding, fl: Flags)
    returns (r: nat, fl': Flags)
    requires Significand(f, aExp, sa) && Significand(f, bExp, sb)
    requires bExp <= aExp && (aExp == bExp ==> sb <= sa)
    ensures var o := RoundedSum(f, rm, aSign0, sa * P2(aExp - 1), bSign, sb * P2(bExp - 1), 1);
      r == o.bits && fl' == Raise(fl, o.flags)
  {
    hide RoundedTo, Cmp, Cell, Scaled, Jam, P2;
    ghost var j, m, x := AddFacts(f, sa, aExp, sb, bExp, aSign0 != bSign);
    AlignedRange(f, sa, aExp, sb, bExp);
    P2Mono(f.Size() - 1, f.Size());
    var aSign, aMant, bMant := aSign0, 8 * sa, 8 * sb;
    bMant := RShiftRnd(f, bMant, aExp - bExp);
    if aSign == bSign {
      // magnitudes add up
      aMant := aMant + bMant;
    } else {
      // the smaller magnitude comes off the larger
      aMant := aMant - bMant;
      if aMant == 0 {
        // an exact zero takes its sign from the mode
        aSign := if rm == RDN then 1 else 0;
      }
    }
    AddScale(f, aExp);
    r, fl' := NormalizeSf(f, aSign, aExp + (Rnd(f) - 3), aMant, rm, fl, 1, x, P2(aExp - 1), 8);
  }

  /** add_sf for every pair of words, in every rounding mode. */
  method AddSf(f: Format, a0: nat, b0: nat, rm: Rounding, fl: Flags) returns (r: nat, fl': Flags)
    requires IsWord(f, a0) && IsWord(f, b0)
    ensures r == Add(f, a0, b0, rm).bits
    ensures fl' == Raise(fl, Add(f, a0, b0, rm).flags)
  {
    hide RoundedSum, Decode, IsSigNaN, P2, ExpField, MantField, IndexOf, SignOf, Raise, QuietNaN;
    var a, b := a0, b0;
    RaiseCases(fl);
    fl' := fl;
    // the larger magnitude first
    if IndexOf(f, a) < IndexOf(f, b) {
      a, b := b, a;
      AddCommutes(f, a0, b0, rm);
    }
    LargerFirst(f, a, b);
    Fields(f, a);
    Fields(f, b);
    DecodeFields(f, a);
    DecodeFields(f, b);
    NaNTests(f, a);
    NaNTests(f, b);
    var aSign, bSign := SignOf(f, a), SignOf(f, b);
    var aExp, bExp := ExpField(f, a), ExpField(f, b);
    var aMant, bMant := MantField(f, a), MantField(f, b);
    if aExp == f.ExpMask() {
      if aMant != 0 {
        // NaN result
        if aMant < P2(f.mant - 1) || IsSigNaN(f, b) {
          fl' := fl'.(invalid := true);
        }
        return QuietNaN(f), fl';
      } else if bExp == f.ExpMask() && aSign != bSign {
        return QuietNaN(f), fl'.(invalid := true);
      } else {
        // infinity
        WordOf(f, a);
        return a, fl';
      }
    }
    FiniteFields(f, a);
    FiniteFields(f, b);
    if aExp == 0 { aExp := 1; } else { aMant := aMant + P2(f.mant); }
    if bExp == 0 { bExp := 1; } else { bMant := bMant + P2(f.mant); }
    r, fl' := AddFinite(f, aSign, aExp, aMant, bSign, bExp, bMant, rm, fl);
  }

  /** sub_sf adds the operand with its sign bit flipped. */
  method SubSf(f: Format, a: nat, b: nat, rm: Rounding, fl: Flags) returns (r: nat, fl': Flags)
    requires IsWord(f, a) && IsWord(f, b)
    ensures var b' := if b < f.SignBit() then b + f.SignBit() else b - f.SignBit();
      && IsWord(f, b')
      && r == Add(f, a, b', rm).bits && fl' == Raise(fl, Add(f, a, b', rm).flags)
      && IndexOf(f, b') == IndexOf(f, b) && SignOf(f, b') == 1 - SignOf(f, b)
  {
    var b' := if b < f.SignBit() then b + f.SignBit() else b - f.SignBit();
    DivMod(b, f.SignBit());
    if b < f.SignBit() {
      DivUnique(b, f.SignBit(), 0, b);
      DivUnique(b', f.SignBit(), 1, b);
    } else {
      DivUnique(b, f.SignBit(), 1, b');
      DivUnique(b', f.SignBit(), 0, b');
    }
    r, fl' := AddSf(f, a, b', rm, fl);
  }
}
