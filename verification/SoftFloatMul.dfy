// mul_u and mul_sf: the half-word product and the exact product rounded once.
module SoftFloatMul {
  import opened Powers
  import opened Ieee754
  import opened IeeeOps
  import opened SoftFloatRound

  // ----- double-width product from half words -----

  lemma Expand(a1: int, a0: int, b1: int, b0: int, h: int)
    ensures (a1 * h + a0) * (b1 * h + b0) == a0 * b0 + (a0 * b1 + a1 * b0) * h + a1 * b1 * (h * h)
  {
    var x, y := a1 * h + a0, b1 * h + b0;
    assert x * y == x * (b1 * h) + x * b0;
    Distribute(a1 * h, a0, b0);
    Distribute(a1 * h, a0, b1 * h);
    Comm4(a1, h, b1, h);
    Assoc(a0, b1, h);
    assert a1 * h * b0 == a1 * b0 * h by { Assoc(a1, h, b0); Assoc(a1, b0, h); }
    Distribute(a0 * b1, a1 * b0, h);
  }

  function Hi(x: nat, h: pos): nat { DivMod(x, h); x / h }

  function Lo(x: nat, h: pos): nat { x % h }

  lemma HiLo(x: nat, h: pos)
    ensures x == Hi(x, h) * h + Lo(x, h) && Lo(x, h) < h
    ensures x < h * h ==> Hi(x, h) < h
  {
    DivMod(x, h);
    if x < h * h { DivLt(x, h, h); }
  }

  lemma HiSmall(x: nat, h: pos)
    requires x < 3 * h
    ensures Hi(x, h) < 3
  {
    DivLt(x, h, 3);
  }

  // The three columns of the half-word multiplication.
  function Carry1(r00: nat, r01: nat, r10: nat, h: pos): nat { Hi(r00, h) + Lo(r01, h) + Lo(r10, h) }

  function Carry2(c: nat, r01: nat, r10: nat, r11: nat, h: pos): nat { Hi(c, h) + Hi(r01, h) + Hi(r10, h) + Lo(r11, h) }

  // The columns regroup the four products into base-h digits.
  lemma Digits(r00: nat, r01: nat, r10: nat, r11: nat, h: pos)
    ensures var c := Carry1(r00, r01, r10, h);
      var c2 := Carry2(c, r01, r10, r11, h);
      r00 + (r01 + r10) * h + r11 * (h * h)
      == (Lo(c, h) * h + Lo(r00, h)) + ((Hi(c2, h) + Hi(r11, h)) * h + Lo(c2, h)) * (h * h)
  {
    hide Hi, Lo;
    HiLo(r00, h);
    HiLo(r01, h);
    HiLo(r10, h);
    HiLo(r11, h);
    var c := Carry1(r00, r01, r10, h);
    HiLo(c, h);
    var c2 := Carry2(c, r01, r10, r11, h);
    HiLo(c2, h);
    Columns(Hi(r00, h), Lo(r00, h), Hi(r01, h), Lo(r01, h), Hi(r10, h), Lo(r10, h), Hi(r11, h), Lo(r11, h),
            Hi(c, h), Lo(c, h), Hi(c2, h), Lo(c2, h), h);
  }

  lemma Columns(q00: int, s00: int, q01: int, s01: int, q10: int, s10: int, q11: int, s11: int,
                qc: int, sc: int, qd: int, sd: int, h: int)
    requires q00 + s01 + s10 == qc * h + sc
    requires qc + q01 + q10 + s11 == qd * h + sd
    ensures (q00 * h + s00) + (q01 * h + s01 + (q10 * h + s10)) * h + (q11 * h + s11) * (h * h)
         == (sc * h + s00) + ((qd + q11) * h + sd) * (h * h)
  {
    var hh := h * h;
    assert (q01 * h + s01 + (q10 * h + s10)) * h == (q01 + q10) * hh + (s01 + s10) * h by {
      Distribute(q01 + q10, 0, h);
      Assoc(q01 + q10, h, h);
      assert q01 * h + s01 + (q10 * h + s10) == (q01 + q10) * h + (s01 + s10) by { Distribute(q01, q10, h); }
      Distribute((q01 + q10) * h, s01 + s10, h);
    }
    assert (qc * h + sc) * h == qc * hh + sc * h by { Distribute(qc * h, sc, h); Assoc(qc, h, h); }
    Distribute(q00, s01 + s10, h);
    Distribute(q11 * h, s11, hh);
    Distribute(qd * h + sd, q11 * h, hh);
    Distribute(qd, q11, h);
    assert (qc + (q01 + q10 + s11)) * hh == qc * hh + (q01 + q10) * hh + s11 * hh by {
      Distribute(qc, q01 + q10 + s11, hh);
      Distribute(q01 + q10, s11, hh);
    }
  }

  lemma HalfProduct(x: nat, y: nat, h: pos)
    requires x < h && y < h
    ensures 0 <= x * y < h * h
  {
    MulMono(x, h, y);
    MulStrict(y, h, h);
  }

  lemma CarryBounds(r00: nat, r01: nat, r10: nat, r11: nat, h: pos)
    requires h >= 4 && r00 < h * h && r01 < h * h && r10 < h * h && r11 < h * h
    ensures var c := Carry1(r00, r01, r10, h);
      c < 3 * h < h * h && Carry2(c, r01, r10, r11, h) < 4 * h <= h * h
  {
    hide Hi, Lo;
    HiLo(r00, h);
    HiLo(r01, h);
    HiLo(r10, h);
    HiLo(r11, h);
    MulMono(4, h, h);
    HiSmall(Carry1(r00, r01, r10, h), h);
  }

  // A two-digit number in base h.
  function TwoDigits(x: nat, y: nat, h: pos): nat { x * h + y }

  lemma TimesIs(x: nat, y: nat)
    ensures Times(x, y) == x * y
  {}

  // The product of two words in terms of the half-word products.
  lemma MulSteps(a: nat, b: nat, h: pos)
    requires a < h * h && b < h * h && h >= 4
    ensures var a0, a1, b0, b1 := Lo(a, h), Hi(a, h), Lo(b, h), Hi(b, h);
      var r00, r01, r10, r11 := Times(a0, b0), Times(a0, b1), Times(a1, b0), Times(a1, b1);
      var c := Carry1(r00, r01, r10, h);
      var c2 := Carry2(c, r01, r10, r11, h);
      var top := Hi(c2, h) + Hi(r11, h);
      && r00 < h * h && r01 < h * h && r10 < h * h && r11 < h * h
      && c < h * h && c2 < h * h && top < h
      && Times(TwoDigits(top, Lo(c2, h), h), h * h) + TwoDigits(Lo(c, h), Lo(r00, h), h) == Times(a, b)
      && TwoDigits(top, Lo(c2, h), h) < h * h && TwoDigits(Lo(c, h), Lo(r00, h), h) < h * h
  {
    hide Hi, Lo, Carry1, Carry2;
    HiLo(a, h);
    HiLo(b, h);
    var a0, a1, b0, b1 := Lo(a, h), Hi(a, h), Lo(b, h), Hi(b, h);
    HalfProduct(a0, b0, h);
    HalfProduct(a0, b1, h);
    HalfProduct(a1, b0, h);
    HalfProduct(a1, b1, h);
    Digits(a0 * b0, a0 * b1, a1 * b0, a1 * b1, h);
    Expand(a1, a0, b1, b0, h);
    CarryBounds(a0 * b0, a0 * b1, a1 * b0, a1 * b1, h);
    var c := Carry1(a0 * b0, a0 * b1, a1 * b0, h);
    var c2 := Carry2(c, a0 * b1, a1 * b0, a1 * b1, h);
    MulMono(0, Lo(c, h), h);
    TopDigit(a, b, h, Lo(c, h) * h + Lo(a0 * b0, h), Hi(c2, h) + Hi(a1 * b1, h), Lo(c2, h));
    HiLo(c, h);
    HiLo(c2, h);
    HiLo(a0 * b0, h);
    DigitPair(Lo(c, h), Lo(a0 * b0, h), h);
    DigitPair(Hi(c2, h) + Hi(a1 * b1, h), Lo(c2, h), h);
  }

  /** The four half-word products and two carry steps give the full product; no
      intermediate sum leaves its word and the top digit is not truncated. */
  method MulU(f: Format, a: nat, b: nat) returns (hi: nat, lo: nat)
    requires IsWord(f, a) && IsWord(f, b)
    ensures hi * P2(f.Size()) + lo == a * b
    ensures IsWord(f, hi) && IsWord(f, lo)
  {
    hide P2, Hi, Lo, Times, TwoDigits;
    var n := f.Size() / 2;
    var h := P2(n);
    P2Add(n, n);
    P2Mono(2, n);
    P2Small();
    MulSteps(a, b, h);
    var a0, a1, b0, b1 := Lo(a, h), Hi(a, h), Lo(b, h), Hi(b, h);
    var r00, r01, r10, r11 := Times(a0, b0), Times(a0, b1), Times(a1, b0), Times(a1, b1);
    var r0 := Lo(r00, h);
    var c := Hi(r00, h) + Lo(r01, h) + Lo(r10, h);
    var r1 := Lo(c, h);
    c := Hi(c, h) + Hi(r01, h) + Hi(r10, h) + Lo(r11, h);
    var r2 := Lo(c, h);
    var top := Hi(c, h) + Hi(r11, h);
    var r3 := Lo(top, h);
    LoSmall(top, h);
    lo := TwoDigits(r1, r0, h);
    hi := TwoDigits(r3, r2, h);
    TimesIs(hi, P2(f.Size()));
    TimesIs(a, b);
  }

  lemma LoSmall(x: nat, h: pos)
    requires x < h
    ensures Lo(x, h) == x
  {
    DivUnique(x, h, 0, x);
  }

  // The top digit needs no truncation because the product has only four digits.
  lemma TopDigit(a: nat, b: nat, h: pos, low: nat, t: nat, r2: nat)
    requires a < h * h && b < h * h && 0 <= low && 0 <= r2
    requires a * b == low + (t * h + r2) * (h * h)
    ensures t < h
  {
    var hh := h * h;
    MulMono(a, hh, b);
    MulStrict(b, hh, hh);
    if t >= h {
      MulMono(h, t, h);
      MulMono(hh, t * h + r2, hh);
    }
  }

  lemma DigitPair(x: nat, y: nat, h: pos)
    requires x < h && y < h
    ensures x * h + y < h * h
  {
    MulMono(x, h - 1, h);
    Distribute(h, 1, h);
  }

  // ----- normalized operands -----

  // mag == s * 2^(e - 1) with the leading bit of s in place.
  ghost predicate NormOf(f: Format, mag: nat, e: int, s: nat) {
    && P2(f.mant) <= s < 2 * P2(f.mant)
    && mag * Den(e - 1) == s * Num(e - 1)
  }

  method NormalizeSubnormalSf(f: Format, m: nat) returns (e: int, s: nat)
    requires 0 < m < P2(f.mant)
    ensures NormOf(f, m, e, s)
  {
    P2Mono(f.mant, f.Size());
    BitLenBounds(m);
    if BitLen(m) > f.mant { P2Mono(f.mant, BitLen(m) - 1); }
    var shift := f.mant - (f.Size() - 1 - Clz(f.Size(), m));
    assert shift == f.mant - BitLen(m) + 1;
    e := 1 - shift;
    P2Add(BitLen(m) - 1, shift);
    P2Add(BitLen(m), shift);
    MulMono(P2(BitLen(m) - 1), m, P2(shift));
    MulStrict(m, P2(BitLen(m)), P2(shift));
    P2Mono(f.mant + 1, f.Size());
    ShlFits(f, m, shift);
    s := Shl(f, m, shift);
  }

  // A finite operand: its significand with the hidden bit, subnormals normalized.
  method NormalizedOperand(f: Format, w: nat) returns (zero: bool, e: int, s: nat)
    requires IsWord(f, w) && ExpField(f, w) != f.ExpMask()
    ensures Decode(f, w).Finite?
    ensures zero <==> Decode(f, w).mag == 0
    ensures !zero ==> NormOf(f, Decode(f, w).mag, e, s)
  {
    hide Decode;
    FiniteFields(f, w);
    Fields(f, w);
    P2Small();
    e, s := ExpField(f, w), MantField(f, w);
    zero := false;
    if e == 0 {
      if s == 0 {
        return true, e, s;
      }
      e, s := NormalizeSubnormalSf(f, s);
    } else {
      s := s + P2(f.mant);
      MulMono(1, s, P2(e - 1));
    }
  }

  // ----- the product as an exact double word -----

  lemma ProductExact(ma: nat, na: pos, da: pos, sa: nat, mb: nat, nb: pos, db: pos, sb: nat, k: pos, c: pos)
    requires ma * da == sa * na && mb * db == sb * nb
    ensures na * nb > 0 && da * db * (k * c) > 0
    ensures Cmp(Ratio(Times(ma, mb), k), sa * sb * c * (na * nb), da * db * (k * c)) == 0
  {
    assert na * nb > 0 && da * db > 0 && k * c > 0;
    MulMono(1, da * db, k * c);
    var p, q := ma * mb, sa * sb;
    assert p * (da * db) == q * (na * nb) by { Comm4(ma, mb, da, db); Comm4(sa, sb, na, nb); }
    calc {
      p * (da * db * (k * c));
      { Assoc(p, da * db, k * c); }
      q * (na * nb) * (k * c);
      { Comm4(q, na * nb, c, k); assert k * c == c * k; }
      q * c * (na * nb * k);
      { Assoc(q * c, na * nb, k); }
      q * c * (na * nb) * k;
    }
  }

  lemma ProductRange(f: Format, sa: nat, sb: nat, c: nat)
    requires P2(f.mant) <= sa < 2 * P2(f.mant) && P2(f.mant) <= sb < 2 * P2(f.mant)
    ensures P2(2 * f.mant + c) <= sa * sb * P2(c) < P2(2 * f.mant + 2 + c)
  {
    hide P2;
    var w := P2(f.mant);
    P2Small();
    P2Add(f.mant, f.mant);
    P2Add(2 * f.mant, 2);
    P2Add(2 * f.mant, c);
    P2Add(2 * f.mant + 2, c);
    MulMono(w, sa, w);
    MulMono(w, sb, sa);
    MulMono(sa, 2 * w, sb);
    MulStrict(sb, 2 * w, 2 * w);
    Comm4(2, w, 2, w);
    MulMono(w * w, sa * sb, P2(c));
    MulStrict(sa * sb, 4 * (w * w), P2(c));
  }

  lemma JamWords(f: Format, hi: nat, lo: nat)
    requires IsWord(f, lo)
    ensures Jam(hi * P2(f.Size()) + lo, P2(f.Size())) == OrBit(hi, lo != 0)
  {
    DivUnique(hi * P2(f.Size()) + lo, P2(f.Size()), hi, lo);
  }

  lemma HighRange(f: Format, hi: nat, lo: nat, i: nat, j: nat)
    requires IsWord(f, lo) && j >= 1
    requires P2(f.Size() + i) <= hi * P2(f.Size()) + lo < P2(f.Size() + j)
    ensures P2(i) <= hi && OrBit(hi, lo != 0) < P2(j)
  {
    var w := P2(f.Size());
    P2Add(f.Size(), i);
    P2Add(f.Size(), j);
    if hi < P2(i) { MulMono(hi + 1, P2(i), w); Distribute(hi, 1, w); }
    if hi >= P2(j) { MulMono(P2(j), hi, w); }
    assert P2(j) == 2 * P2(j - 1);
  }

  // Everything normalize_sf needs to know about the jammed high word of the product.
  lemma MulFacts(f: Format, ma: nat, ea: int, sa: nat, mb: nat, eb: int, sb: nat, hi: nat, lo: nat)
    returns (x: Exact, u: pos, v: pos)
    requires NormOf(f, ma, ea, sa) && NormOf(f, mb, eb, sb)
    requires IsWord(f, lo)
    requires hi * P2(f.Size()) + lo == sa * P2(Rnd(f)) * (sb * P2(Rnd(f) + 1))
    ensures x == Ratio(Times(ma, mb), P2(UnitExp(f)))
    ensures Scaled(f, ea + eb - P2(f.exp - 1) + 2, u, v)
    ensures Cell(OrBit(hi, lo != 0), P2(1), x, u, v)
    ensures P2(f.mant + 1 + 1) <= OrBit(hi, lo != 0) < P2(f.Size() - 1)
  {
    hide Cell, Cmp, IsPow, P2, Num, Den;
    var c, n := 2 * Rnd(f) + 1, P2(f.Size());
    var na, nb, da, db := Num(ea - 1), Num(eb - 1), Den(ea - 1), Den(eb - 1);
    x := Ratio(Times(ma, mb), P2(UnitExp(f)));
    var p := hi * n + lo;
    assert p == sa * sb * P2(c) by { P2Add(Rnd(f), Rnd(f) + 1); Comm4(sa, P2(Rnd(f)), sb, P2(Rnd(f) + 1)); }
    ProductExact(ma, na, da, sa, mb, nb, db, sb, P2(UnitExp(f)), P2(c));
    v := da * db * (P2(UnitExp(f)) * P2(c));
    P2Small();
    CellExact(p, 2 * n, x, na * nb, v);
    CellShr(p, 2, n, x, na * nb, v);
    u := na * nb * n;
    JamWords(f, hi, lo);
    ProductRange(f, sa, sb, c);
    HighRange(f, hi, lo, f.mant + Rnd(f) - 1, f.Size() - 1);
    P2Mono(f.mant + 2, f.mant + Rnd(f) - 1);
    MulUnit(f, ea, eb);
  }

  // The unit of the high word: 2^(ea-1) 2^(eb-1) 2^size / (2^UnitExp 2^(2 Rnd + 1)).
  lemma MulUnit(f: Format, ea: int, eb: int)
    ensures var c := 2 * Rnd(f) + 1;
      var u, v := Num(ea - 1) * Num(eb - 1) * P2(f.Size()), Den(ea - 1) * Den(eb - 1) * (P2(UnitExp(f)) * P2(c));
      u > 0 && v > 0 && Scaled(f, ea + eb - P2(f.exp - 1) + 2, u, v)
  {
    hide IsPow, P2, Num, Den;
    var c := 2 * Rnd(f) + 1;
    var na, nb, da, db := Num(ea - 1), Num(eb - 1), Den(ea - 1), Den(eb - 1);
    IsPowBase(ea - 1);
    IsPowBase(eb - 1);
    IsPowMul(ea - 1, eb - 1, na, da, nb, db);
    IsPowNat(f.Size());
    IsPowNat(UnitExp(f) + c);
    P2Add(UnitExp(f), c);
    IsPowMul(ea + eb - 2, -(UnitExp(f) + c), na * nb, da * db, 1, P2(UnitExp(f) + c));
    IsPowMul(ea + eb - 2 - (UnitExp(f) + c), f.Size(), na * nb, da * db * P2(UnitExp(f) + c), P2(f.Size()), 1);
  }

  /** mul_sf for every pair of words, in every rounding mode. */
  method MulSf(f: Format, a: nat, b: nat, rm: Rounding, fl: Flags) returns (r: nat, fl': Flags)
    requires IsWord(f, a) && IsWord(f, b)
    ensures r == Mul(f, a, b, rm).bits
    ensures fl' == Raise(fl, Mul(f, a, b, rm).flags)
  {
    hide RoundedTo, Decode, Cell, Cmp, Scaled, P2, ExpField, MantField, SignOf, IsSigNaN, Raise, QuietNaN, Pack, OrBit;
    RaiseCases(fl);
    fl' := fl;
    DecodeFields(f, a);
    DecodeFields(f, b);
    NaNTests(f, a);
    NaNTests(f, b);
    var rSign := Xor(SignOf(f, a), SignOf(f, b));
    var aExp, bExp := ExpField(f, a), ExpField(f, b);
    if aExp == f.ExpMask() || bExp == f.ExpMask() {
      if IsNaN(f, a) || IsNaN(f, b) {
        if IsSigNaN(f, a) || IsSigNaN(f, b) {
          fl' := fl'.(invalid := true);
        }
        return QuietNaN(f), fl';
      } else {
        ZeroFields(f, a);
        ZeroFields(f, b);
        if (aExp == f.ExpMask() && bExp == 0 && MantField(f, b) == 0)
           || (bExp == f.ExpMask() && aExp == 0 && MantField(f, a) == 0) {
          return QuietNaN(f), fl'.(invalid := true);
        } else {
          return Pack(f, rSign, f.Inf()), fl';
        }
      }
    }
    var aZero, ea, sa := NormalizedOperand(f, a);
    if aZero {
      RoundedZero(f, rm, rSign, Ratio(Times(Decode(f, a).mag, Decode(f, b).mag), P2(UnitExp(f))));
      return Pack(f, rSign, 0), fl';
    }
    var bZero, eb, sb := NormalizedOperand(f, b);
    if bZero {
      RoundedZero(f, rm, rSign, Ratio(Times(Decode(f, a).mag, Decode(f, b).mag), P2(UnitExp(f))));
      return Pack(f, rSign, 0), fl';
    }
    var rExp := ea + eb - P2(f.exp - 1) + 2;
    ShiftFits(f, sa, Rnd(f));
    ShiftFits(f, sb, Rnd(f) + 1);
    var hi, lo := MulU(f, Shl(f, sa, Rnd(f)), Shl(f, sb, Rnd(f) + 1));
    ghost var x, u, v := MulFacts(f, Decode(f, a).mag, ea, sa, Decode(f, b).mag, eb, sb, hi, lo);
    r, fl' := NormalizeSf(f, rSign, rExp, OrBit(hi, lo != 0), rm, fl, 1, x, u, v);
  }

  lemma ShiftFits(f: Format, s: nat, c: nat)
    requires s < 2 * P2(f.mant) && c <= Rnd(f) + 1
    ensures Shl(f, s, c) == s * P2(c) && IsWord(f, s * P2(c))
  {
    P2Add(f.mant + 1, c);
    P2Mono(f.mant + 1 + c, f.Size());
    MulStrict(s, 2 * P2(f.mant), P2(c));
    ShlFits(f, s, c);
  }

  lemma ZeroFields(f: Format, w: nat)
    requires IsWord(f, w)
    ensures IsZero(Decode(f, w)) <==> ExpField(f, w) == 0 && MantField(f, w) == 0
  {
    DecodeFields(f, w);
    if ExpField(f, w) != f.ExpMask() {
      FiniteFields(f, w);
      Fields(f, w);
      MulMono(1, P2(ExpOf(f, w) - 1), SigOf(f, w));
    } else {
      P2Mono(1, f.exp);
    }
  }

  // Zero is a float: it is returned as such and raises nothing.
  lemma RoundedZero(f: Format, rm: Rounding, sign: bit, x: Exact)
    requires x.Ratio? && x.n == 0
    ensures RoundedTo(f, rm, sign, x) == ZeroOf(f, sign)
  {
    RepresentableExact(f, rm, sign, x, 0);
  }

  /** A representable result is returned unchanged and raises nothing. */
  lemma RepresentableExact(f: Format, rm: Rounding, sign: bit, x: Exact, k: nat)
    requires k < f.Inf() && Cmp(x, Mag(f, k), 1) == 0
    ensures RoundedTo(f, rm, sign, x) == Outcome(Pack(f, sign, k), NONE)
  {
    hide Mag, Cmp;
    Midpoints(f, x, 1, k);
    RoundsUnique(f, rm, sign, x, 1, k, RoundIndex(f, rm, sign, x, 1));
  }
}
