// divrem_u and div_sf: the bit-serial division and the exact quotient rounded once.
module SoftFloatDiv {
  import opened Powers
  import opened Ieee754
  import opened IeeeOps
  import opened SoftFloatRound
  import opened SoftFloatMul

  // The dividend's low word, split into the bits already shifted in and the rest.
  ghost predicate Shifted(f: Format, i: nat, low: nat, word: nat, pre: nat, rest: nat, q: nat)
    requires i <= f.Size()
  {
    && word == rest * P2(i) + q && q < P2(i)
    && rest < P2(f.Size() - i)
    && low == pre * P2(f.Size() - i) + rest
  }

  // One shift of the low word moves its top bit out and leaves room for a quotient bit.
  lemma ShiftStep(f: Format, i: nat, low: nat, word: nat, pre: nat, rest: nat, q: nat, qb: bit)
    returns (t: bit, rest': nat)
    requires i < f.Size() && Shifted(f, i, low, word, pre, rest, q)
    ensures word < P2(f.Size()) && word / P2(f.Size() - 1) == t
    ensures Shifted(f, i + 1, low, word * 2 % P2(f.Size()) + qb, 2 * pre + t, rest', 2 * q + qb)
  {
    hide P2;
    var n := f.Size() - 1 - i;
    assert P2(n + 1) == 2 * P2(n) && P2(i + 1) == 2 * P2(i) && P2(f.Size()) == 2 * P2(f.Size() - 1) by {
      P2Add(1, n);
      P2Add(1, i);
      P2Add(1, f.Size() - 1);
      P2Small();
    }
    DivMod(rest, P2(n));
    DivLt(rest, P2(n), 2);
    t, rest' := rest / P2(n), rest % P2(n);
    P2Add(n, i);
    P2Add(n, i + 1);
    var tail := rest' * P2(i) + q;
    assert word == t * P2(f.Size() - 1) + tail by { Distribute(t * P2(n), rest', P2(i)); Assoc(t, P2(n), P2(i)); }
    TailFits(rest', P2(n), P2(i), q);
    DivUnique(word, P2(f.Size() - 1), t, tail);
    DivUnique(word * 2, P2(f.Size()), t, 2 * tail);
    assert 2 * tail + qb == rest' * P2(i + 1) + (2 * q + qb) by { Assoc(rest', 2, P2(i)); }
    assert pre * (2 * P2(n)) + (t * P2(n) + rest') == (2 * pre + t) * P2(n) + rest' by {
      Assoc(pre, 2, P2(n));
      Distribute(2 * pre, t, P2(n));
    }
  }

  lemma TailFits(rest: nat, n: pos, c: pos, q: nat)
    requires rest < n && q < c
    ensures 0 <= rest * c + q < n * c
  {
    MulMono(rest, n - 1, c);
    Distribute(n, 1, c);
    MulMono(0, rest, c);
  }

  /** The bit-serial division keeps a1 < b at every step, also where the shifted-out
      bit overflows the word, and ends with quotient and remainder of the double word. */
  method DivremU(f: Format, ah: nat, al: nat, b: nat) returns (quotient: nat, remainder: nat)
    requires IsWord(f, al) && IsWord(f, b) && ah < b
    ensures ah * P2(f.Size()) + al == quotient * b + remainder
    ensures remainder < b && IsWord(f, quotient)
  {
    var a1: nat, a0: nat, i: nat := ah, al, 0;
    ghost var pre: nat, rest: nat, q: nat := 0, al, 0;
    P2Small();
    while i < f.Size()
      invariant i <= f.Size()
      invariant a1 < b
      invariant Shifted(f, i, al, a0, pre, rest, q)
      invariant ah * P2(i) + pre == q * b + a1
    {
      hide Shifted;
      var ab := a1 / P2(f.Size() - 1);
      ghost var t, rest' := ShiftStep(f, i, al, a0, pre, rest, q, 0);
      ghost var wide := 2 * a1 + t;
      P2Mono(f.Size() - 1, f.Size());
      TopBit(f, a1, ab, t);
      a1 := a1 * 2 % P2(f.Size()) + a0 / P2(f.Size() - 1);
      var qb: bit;
      if ab != 0 || a1 >= b {
        a1 := if a1 >= b then a1 - b else a1 - b + P2(f.Size());
        qb := 1;
      } else {
        qb := 0;
      }
      assert wide == qb * b + a1 && a1 < b;
      t, rest' := ShiftStep(f, i, al, a0, pre, rest, q, qb);
      a0 := a0 * 2 % P2(f.Size()) + qb;
      QuotientStep(ah, P2(i), pre, q, b, wide, t, qb, a1);
      pre, rest, q := 2 * pre + t, rest', 2 * q + qb;
      i := i + 1;
    }
    assert rest == 0;
    quotient, remainder := a0, a1;
  }

  // Doubling a1 overflows the word exactly when its top bit is set.
  lemma TopBit(f: Format, a1: nat, ab: int, t: bit)
    requires IsWord(f, a1) && ab == a1 / P2(f.Size() - 1)
    ensures ab == 0 ==> a1 * 2 % P2(f.Size()) + t == 2 * a1 + t < P2(f.Size())
    ensures ab != 0 ==> a1 * 2 % P2(f.Size()) + t == 2 * a1 + t - P2(f.Size())
  {
    var n := P2(f.Size() - 1);
    assert P2(f.Size()) == 2 * n;
    DivMod(a1, n);
    DivLt(a1, n, 2);
    DivUnique(a1 * 2, 2 * n, ab, a1 % n * 2);
  }

  lemma QuotientStep(ah: nat, p: nat, pre: nat, q: nat, b: nat, wide: int, t: nat, qb: nat, r: int)
    requires wide == 2 * (ah * p + pre - q * b) + t && wide == qb * b + r
    ensures ah * (2 * p) + (2 * pre + t) == (2 * q + qb) * b + r
  {
    Assoc(ah, p, 2);
    Distribute(2 * q, qb, b);
    Assoc(2, q, b);
  }

  // The dividend sa * 2^size, in units that make it the exact quotient times 4 * sb.
  lemma QuotientExact(ma: pos, na: pos, da: pos, sa: nat, mb: pos, nb: pos, db: pos, sb: pos, k: pos, n: pos)
    requires ma * da == sa * na && mb * db == sb * nb
    ensures na * db * k > 0 && sb * (da * nb * n) > 0
    ensures Cmp(Ratio(Times(ma, k), mb), sa * n * (na * db * k), sb * (da * nb * n)) == 0
  {
    Positive(na, db, k);
    Positive(da, nb, n);
    MulMono(1, sb, da * nb * n);
    calc {
      ma * k * (sb * (da * nb * n));
      { Comm4(da, nb, n, 1); Assoc(da, nb, n); }
      ma * k * (sb * (da * (nb * n)));
      { Comm4(sb, da, 1, nb * n); Assoc(sb, da, nb * n); assert sb * da * (nb * n) == da * sb * (nb * n);
        Comm4(da, sb, nb, n); }
      ma * k * (da * nb * (sb * n));
      { Comm4(da, nb, sb, n); }
      ma * k * (da * sb * (nb * n));
      { Comm4(ma, k, da * sb, nb * n); Assoc(ma, da, sb); }
      ma * da * sb * (k * (nb * n));
      { assert ma * da == sa * na; }
      sa * na * sb * (k * (nb * n));
      { Assoc(k, nb, n); Comm4(sa * na, sb, k * nb, n); Assoc(sa * na, k * nb, sb * n); }
      sa * na * (k * nb * (sb * n));
      { Comm4(k, nb, n, sb); assert sb * n == n * sb; assert nb * sb == mb * db; }
      sa * na * (k * n * (mb * db));
      { Comm4(k, n, db, mb); assert mb * db == db * mb; }
      sa * na * (k * db * (n * mb));
      { Assoc(sa, na, k * db * (n * mb)); Assoc(na, k * db, n * mb); assert na * (k * db) == na * db * k
        by { Assoc(na, db, k); } }
      sa * (na * db * k * (n * mb));
      { assert na * db * k * (n * mb) == n * (na * db * k) * mb by { Assoc(na * db * k, n, mb); } }
      sa * (n * (na * db * k) * mb);
      { Assoc(sa, n * (na * db * k), mb); Assoc(sa, n, na * db * k); }
      sa * n * (na * db * k) * mb;
    }
  }

  lemma Positive(a: pos, b: pos, c: pos)
    ensures a * b > 0 && a * b * c > 0
  {
    MulMono(1, a, b);
    MulMono(1, a * b, c);
  }

  lemma QuotientRange(f: Format, sa: nat, sb: nat, q: nat, r: nat)
    requires P2(f.mant) <= sa < 2 * P2(f.mant) && P2(f.mant) <= sb < 2 * P2(f.mant)
    requires sa * P2(f.Size()) == q * (4 * sb) + r && r < 4 * sb
    ensures P2(f.Size() - 3) <= q && OrBit(q, r != 0) < P2(f.Size() - 1)
  {
    hide P2;
    P2Small();
    var n := P2(f.Size() - 3);
    P2Add(3, f.Size() - 3);
    P2Add(2, f.Size() - 3);
    DivUnique(sa * (8 * n), 4 * sb, q, r);
    RatioBounds(sa, sb, P2(f.mant), n);
    DivGe(sa * (8 * n), 4 * sb, n);
    DivLt(sa * (8 * n), 4 * sb, 4 * n);
  }

  lemma RatioBounds(sa: nat, sb: nat, w: nat, n: pos)
    requires w <= sa < 2 * w && w <= sb < 2 * w
    ensures n * (4 * sb) <= sa * (8 * n) < 4 * n * (4 * sb)
  {
    MulMono(4 * sb, 8 * sa, n);
    MulStrict(8 * sa, 16 * sb, n);
    assert n * (4 * sb) == 4 * sb * n && sa * (8 * n) == 8 * sa * n;
    assert 4 * n * (4 * sb) == 16 * sb * n;
  }

  lemma DivFacts(f: Format, ma: nat, ea: int, sa: nat, mb: nat, eb: int, sb: nat, q: nat, r: nat)
    returns (x: Exact, u: pos, v: pos)
    requires ma > 0 && mb > 0
    requires NormOf(f, ma, ea, sa) && NormOf(f, mb, eb, sb)
    requires sa * P2(f.Size()) == q * (4 * sb) + r && r < 4 * sb
    ensures x == Ratio(Times(ma, P2(UnitExp(f))), mb)
    ensures Scaled(f, ea - eb + P2(f.exp - 1) - 1, u, v)
    ensures Cell(OrBit(q, r != 0), P2(1), x, u, v)
    ensures P2(f.mant + 1 + 1) <= OrBit(q, r != 0) < P2(f.Size() - 1)
  {
    hide Cell, Cmp, IsPow, P2;
    var k, n := P2(UnitExp(f)), P2(f.Size());
    var na, nb, da, db := Num(ea - 1), Num(eb - 1), Den(ea - 1), Den(eb - 1);
    x := Ratio(Times(ma, k), mb);
    QuotientExact(ma, na, da, sa, mb, nb, db, sb, k, n);
    var u0 := na * db * k;
    v := sb * (da * nb * n);
    P2Small();
    CellExact(sa * n, 2 * (4 * sb), x, u0, v);
    CellShr(sa * n, 2, 4 * sb, x, u0, v);
    DivUnique(sa * n, 4 * sb, q, r);
    u := u0 * (4 * sb);
    QuotientRange(f, sa, sb, q, r);
    P2Mono(f.mant + 2, f.Size() - 3);
    DivScale(f, ea, eb, sb);
  }

  // The unit 4 * 2^(ea-1) * 2^UnitExp / (2^(eb-1) * 2^size), over sb / sb.
  lemma DivScale(f: Format, ea: int, eb: int, sb: pos)
    ensures var u, v := Num(ea - 1) * Den(eb - 1) * P2(UnitExp(f)) * (4 * sb),
                        sb * (Den(ea - 1) * Num(eb - 1) * P2(f.Size()));
      u > 0 && v > 0 && Scaled(f, ea - eb + P2(f.exp - 1) - 1, u, v)
  {
    hide IsPow, P2;
    var na, nb, da, db := Num(ea - 1), Num(eb - 1), Den(ea - 1), Den(eb - 1);
    var k, n := P2(UnitExp(f)), P2(f.Size());
    P2Small();
    IsPowBase(ea - 1);
    IsPowInverse(eb - 1);
    IsPowMul(ea - 1, -(eb - 1), na, da, db, nb);
    IsPowNat(UnitExp(f));
    IsPowMul(ea - eb, UnitExp(f), na * db, da * nb, k, 1);
    IsPowNat(f.Size());
    IsPowMul(ea - eb + UnitExp(f), 0 - f.Size(), na * db * k, da * nb, 1, n);
    IsPowNat(2);
    IsPowMul(ea - eb + UnitExp(f) - f.Size(), 2, na * db * k, da * nb * n, 4, 1);
    IsPowScale(ea - eb + UnitExp(f) - f.Size() + 2, na * db * k * 4, da * nb * n, sb);
    Assoc(na * db * k, 4, sb);
  }

  // The division of two finite words, b not zero.
  method DivFinite(f: Format, a: nat, b: nat, rm: Rounding, fl: Flags) returns (r: nat, fl': Flags)
    requires IsWord(f, a) && ExpField(f, a) != f.ExpMask()
    requires IsWord(f, b) && ExpField(f, b) != f.ExpMask() && !IsZero(Decode(f, b))
    ensures r == Div(f, a, b, rm).bits
    ensures fl' == Raise(fl, Div(f, a, b, rm).flags)
  {
    hide RoundedTo, Decode, Cell, Cmp, IsPow, P2, ExpField, SignOf;
    DecodeFields(f, a);
    DecodeFields(f, b);
    var rSign := Xor(SignOf(f, a), SignOf(f, b));
    var bZero, eb, sb := NormalizedOperand(f, b);
    var aZero, ea, sa := NormalizedOperand(f, a);
    if aZero {
      RoundedZero(f, rm, rSign, Ratio(Times(Decode(f, a).mag, P2(UnitExp(f))), Decode(f, b).mag));
      return Pack(f, rSign, 0), fl;
    }
    var rExp := ea - eb + P2(f.exp - 1) - 1;
    P2Small();
    ShiftFits(f, sb, 2);
    var q, rem := DivremU(f, sa, 0, Shl(f, sb, 2));
    ghost var x, u, v := DivFacts(f, Decode(f, a).mag, ea, sa, Decode(f, b).mag, eb, sb, q, rem);
    r, fl' := NormalizeSf(f, rSign, rExp, OrBit(q, rem != 0), rm, fl, 1, x, u, v);
  }

  lemma DivSpecial(f: Format, a: nat, b: nat, rm: Rounding)
    requires IsWord(f, a) && IsWord(f, b)
    ensures var x, y, o := Decode(f, a), Decode(f, b), Div(f, a, b, rm);
      if x.NaN? || y.NaN? then o == NaNOf(f, Signals(x) || Signals(y))
      else
        && (x.Infinite? && y.Infinite? ==> o == NaNOf(f, true))
        && (x.Infinite? && y.Finite? ==> o == InfinityOf(f, Xor(x.sign, y.sign)))
        && (x.Finite? && y.Infinite? ==> o == ZeroOf(f, Xor(x.sign, y.sign)))
        && (IsZero(x) && IsZero(y) ==> o == NaNOf(f, true))
        && (x.Finite? && !IsZero(x) && IsZero(y) ==>
              o == InfinityOf(f, Xor(x.sign, y.sign)).(flags := NONE.(divZero := true)))
  {
    hide Decode;
  }

  /** div_sf for every pair of words, in every rounding mode. */
  method DivSf(f: Format, a: nat, b: nat, rm: Rounding, fl: Flags) returns (r: nat, fl': Flags)
    requires IsWord(f, a) && IsWord(f, b)
    ensures r == Div(f, a, b, rm).bits
    ensures fl' == Raise(fl, Div(f, a, b, rm).flags)
  {
    hide Div, Decode, P2, ExpField, MantField, SignOf, IsSigNaN;
    fl' := fl;
    DecodeFields(f, a);
    DecodeFields(f, b);
    NaNTests(f, a);
    NaNTests(f, b);
    ZeroFields(f, a);
    ZeroFields(f, b);
    DivSpecial(f, a, b, rm);
    var rSign := Xor(SignOf(f, a), SignOf(f, b));
    var aExp, bExp := ExpField(f, a), ExpField(f, b);
    if aExp == f.ExpMask() {
      if MantField(f, a) != 0 || IsNaN(f, b) {
        if IsSigNaN(f, a) || IsSigNaN(f, b) {
          fl' := fl'.(invalid := true);
        }
        r := QuietNaN(f);
      } else if bExp == f.ExpMask() {
        r, fl' := QuietNaN(f), fl'.(invalid := true);
      } else {
        r := Pack(f, rSign, f.Inf());
      }
    } else if bExp == f.ExpMask() {
      if MantField(f, b) != 0 {
        if IsSigNaN(f, a) || IsSigNaN(f, b) {
          fl' := fl'.(invalid := true);
        }
        r := QuietNaN(f);
      } else {
        r := Pack(f, rSign, 0);
      }
    } else if bExp == 0 && MantField(f, b) == 0 {
      if aExp == 0 && MantField(f, a) == 0 {
        r, fl' := QuietNaN(f), fl'.(invalid := true);
      } else {
        r, fl' := Pack(f, rSign, f.Inf()), fl'.(divZero := true);
      }
    } else {
      r, fl' := DivFinite(f, a, b, rm, fl);
    }
  }
}
