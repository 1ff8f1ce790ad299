// Conversions between floats and integers of 32, 64 or 128 bits.
module SoftFloatCvt {
  import opened Powers
  import opened Ieee754
  import opened IeeeOps
  import opened SoftFloatRound
  import opened SoftFloatMul

  // ----- what the conversions must return -----

  // n / d rounded to an integer (IEEE 754-2008 section 5.8).
  function RoundInt(rm: Rounding, sign: bit, n: nat, d: pos): nat {
    DivMod(n, d);
    var q, r := n / d, n % d;
    if r == 0 then q
    else if ToNearest(rm) then
      if 2 * r < d then q
      else if 2 * r > d then q + 1
      else if rm == RMM || q % 2 == 1 then q + 1 else q
    else if AwayFromZero(rm, sign) then q + 1
    else q
  }

  predicate IntSize(n: nat) { n == 32 || n == 64 || n == 128 }

  function MinInt(n: nat, unsigned: bool): int
    requires n >= 1
  {
    if unsigned then 0 else -(P2(n - 1) as int)
  }

  function MaxInt(n: nat, unsigned: bool): int
    requires n >= 1
  {
    if unsigned then P2(n) - 1 else P2(n - 1) - 1
  }

  datatype IntOutcome = IntOutcome(value: int, flags: Flags)

  // Round by mode, then saturate; NaN converts like plus infinity.
  function ToInt(f: Format, w: nat, rm: Rounding, n: nat, unsigned: bool): IntOutcome
    requires IsWord(f, w) && n >= 1
  {
    match Decode(f, w)
    case NaN(_) => IntOutcome(MaxInt(n, unsigned), INVALID)
    case Infinite(s) => IntOutcome(if s == 1 then MinInt(n, unsigned) else MaxInt(n, unsigned), INVALID)
    case Finite(s, m) =>
      var i := RoundInt(rm, s, m, P2(UnitExp(f)));
      var v := Signed(s, i);
      if v < MinInt(n, unsigned) then IntOutcome(MinInt(n, unsigned), INVALID)
      else if v > MaxInt(n, unsigned) then IntOutcome(MaxInt(n, unsigned), INVALID)
      else IntOutcome(v, NONE.(inexact := m % P2(UnitExp(f)) != 0))
  }

  ghost function FromInt(f: Format, v: int, rm: Rounding): Outcome {
    RoundedTo(f, rm, if v < 0 then 1 else 0, Ratio(Times(Abs(v), P2(UnitExp(f))), 1))
  }

  // The word of n bits that represents v.
  function Wrap(n: nat, v: int): int { if v < 0 then v + P2(n) else v }

  // ----- rounding the shifted mantissa -----

  /** A jammed shift keeps the position on an even grid. */
  lemma JamGrid(a: nat, g: pos, c: pos)
    requires g % 2 == 0
    ensures Jam(a * g, c) / g == a / c
    ensures Jam(a * g, c) % g == 0 <==> a % c == 0
  {
    DivMod(a, c);
    var q, r := a / c, a % c;
    Distribute(q * c, r, g);
    var t := r * g;
    DivMod(t, c);
    var i, s := t / c, t % c;
    assert i < g by { MulStrict(r, c, g); DivLt(t, c, g); }
    assert q * c * g == q * g * c by { Assoc(q, c, g); Assoc(q, g, c); }
    Distribute(q * g, i, c);
    DivUnique(a * g, c, q * g + i, s);
    EvenMultiple(q, g);
    SameParity(q * g + i, q * g, i, g);
    var i' := if s != 0 && i % 2 == 0 then i + 1 else i;
    assert Jam(a * g, c) == q * g + i';
    DivUnique(q * g + i', g, q, i');
    assert i' == 0 <==> r == 0 by {
      if r > 0 { MulMono(1, r, g); }
      if i > 0 { MulMono(1, i, c); }
    }
  }

  // Both sides of HalfUlps decide the same integer.
  lemma HalfUlpsUnique(rm: Rounding, sign: bit, h: nat, exact: bool, r: nat, r': nat)
    requires HalfUlps(rm, sign, h, exact, r) && HalfUlps(rm, sign, h, exact, r')
    ensures r == r'
  {}

  lemma RoundIntHalfUlps(rm: Rounding, sign: bit, s: nat, d: pos)
    ensures HalfUlps(rm, sign, 2 * s / d, 2 * s % d == 0, RoundInt(rm, sign, s, d))
    ensures s % d == 0 <==> 2 * s % d == 0 && 2 * s / d % 2 == 0
  {
    DivMod(s, d);
    var q, r := s / d, s % d;
    assert 2 * s == 2 * q * d + 2 * r by { Assoc(2, q, d); }
    Distribute(2 * q, 1, d);
    if 2 * r < d {
      DivUnique(2 * s, d, 2 * q, 2 * r);
    } else {
      DivUnique(2 * s, d, 2 * q + 1, 2 * r - d);
    }
  }

  lemma RoundIntScale(rm: Rounding, sign: bit, s: nat, d: pos, c: pos)
    ensures d * c > 0
    ensures RoundInt(rm, sign, s * c, d * c) == RoundInt(rm, sign, s, d)
    ensures s * c % (d * c) == 0 <==> s % d == 0
  {
    DivMod(s, d);
    var q, r := s / d, s % d;
    Distribute(q * d, r, c);
    Assoc(q, d, c);
    MulStrict(r, d, c);
    DivUnique(s * c, d * c, q, r * c);
    if r > 0 { MulMono(1, r, c); }
    if 2 * r < d { MulStrict(2 * r, d, c); } else if 2 * r > d { MulStrict(d, 2 * r, c); }
    Assoc(2, r, c);
  }

  /** The code's addend rounds s / 2^d to the right integer and sees every lost bit. */
  lemma RoundedMantissa(f: Format, rm: Rounding, sign: bit, s: nat, d: nat)
    ensures var m := Jam(s * P2(Rnd(f)), P2(d));
      && RoundMant(f, rm, sign, m) == RoundInt(rm, sign, s, P2(d))
      && (m % P2(Rnd(f)) != 0 <==> s % P2(d) != 0)
  {
    hide P2, RoundMant, RoundInt, Jam;
    var g := P2(Rnd(f) - 1);
    P2Add(1, Rnd(f) - 1);
    P2Add(1, Rnd(f) - 2);
    P2Small();
    assert s * P2(Rnd(f)) == 2 * s * g by { Assoc(s, 2, g); }
    JamGrid(2 * s, g, P2(d));
    var m := Jam(s * P2(Rnd(f)), P2(d));
    RoundMantHalfUlps(f, rm, sign, m);
    RoundIntHalfUlps(rm, sign, s, P2(d));
    DivMod(2 * s, P2(d));
    RoundMantNat(f, rm, sign, m);
    HalfUlpsUnique(rm, sign, 2 * s / P2(d), 2 * s % P2(d) == 0, RoundMant(f, rm, sign, m),
      RoundInt(rm, sign, s, P2(d)));
  }

  lemma RoundMantNat(f: Format, rm: Rounding, sign: bit, m: nat)
    ensures RoundMant(f, rm, sign, m) >= 0
  {
    DivMod(m + Addend(f, rm, sign), P2(Rnd(f)));
  }

  // ----- float to integer -----

  // Largest magnitude the target holds for a sign.
  function RMax(n: nat, unsigned: bool, sign: bit): nat
    requires n >= 1
  {
    if unsigned then (if sign == 1 then 0 else P2(n) - 1) else P2(n - 1) - (1 - sign)
  }

  lemma RMaxIs(n: nat, unsigned: bool, sign: bit, i: nat)
    requires n >= 1
    ensures i > RMax(n, unsigned, sign) <==>
            Signed(sign, i) < MinInt(n, unsigned) || Signed(sign, i) > MaxInt(n, unsigned)
    ensures Signed(sign, RMax(n, unsigned, sign)) == if sign == 1 then MinInt(n, unsigned) else MaxInt(n, unsigned)
    ensures RMax(n, unsigned, sign) < P2(n)
  {
    assert P2(n) == 2 * P2(n - 1);
  }

  // The spec for a finite word in terms of its magnitude i = round(|w|).
  lemma ToIntFinite(f: Format, w: nat, rm: Rounding, n: nat, unsigned: bool, s: bit, m: nat)
    requires IsWord(f, w) && n >= 1 && Decode(f, w) == Finite(s, m)
    ensures var i, max, o := RoundInt(rm, s, m, P2(UnitExp(f))), RMax(n, unsigned, s), ToInt(f, w, rm, n, unsigned);
      if i > max then o == IntOutcome(Signed(s, max), INVALID)
      else o == IntOutcome(Signed(s, i), NONE.(inexact := m % P2(UnitExp(f)) != 0))
  {
    hide Decode, RoundInt;
    var i := RoundInt(rm, s, m, P2(UnitExp(f)));
    RMaxIs(n, unsigned, s, i);
    assert P2(n) == 2 * P2(n - 1);
  }

  // |w| = s 2^e / 2^UnitExp is an integer when its exponent is not negative.
  lemma IntegralValue(f: Format, rm: Rounding, sign: bit, s: nat, e: nat)
    requires e >= 1 && e >= Bias(f) + f.mant
    ensures RoundInt(rm, sign, s * P2(e - 1), P2(UnitExp(f))) == s * P2(e - Bias(f) - f.mant)
    ensures s * P2(e - 1) % P2(UnitExp(f)) == 0
  {
    hide P2;
    var t := e - Bias(f) - f.mant;
    P2Add(t, UnitExp(f));
    Assoc(s, P2(t), P2(UnitExp(f)));
    DivUnique(s * P2(e - 1), P2(UnitExp(f)), s * P2(t), 0);
  }

  lemma FractionalValue(f: Format, rm: Rounding, sign: bit, s: nat, e: nat)
    requires 1 <= e < Bias(f) + f.mant
    ensures RoundInt(rm, sign, s * P2(e - 1), P2(UnitExp(f))) == RoundInt(rm, sign, s, P2(Bias(f) + f.mant - e))
    ensures s * P2(e - 1) % P2(UnitExp(f)) != 0 <==> s % P2(Bias(f) + f.mant - e) != 0
  {
    hide P2, RoundInt;
    P2Add(Bias(f) + f.mant - e, e - 1);
    RoundIntScale(rm, sign, s, P2(Bias(f) + f.mant - e), P2(e - 1));
  }

  // Too large an exponent exceeds every target.
  lemma TooLarge(f: Format, s: nat, t: nat, n: nat)
    requires P2(f.mant) <= s && t + f.mant >= n
    ensures s * P2(t) >= P2(n)
  {
    hide P2;
    P2Add(f.mant, t);
    P2Mono(n, f.mant + t);
    MulMono(P2(f.mant), s, P2(t));
  }

  lemma SmallEnough(f: Format, s: nat, t: nat, n: nat)
    requires s < 2 * P2(f.mant) && t + f.mant + 1 <= n
    ensures s * P2(t) < P2(n)
  {
    hide P2;
    P2Add(f.mant + 1, t);
    P2Add(1, f.mant);
    P2Small();
    P2Mono(f.mant + 1 + t, n);
    MulStrict(s, 2 * P2(f.mant), P2(t));
  }

  // The magnitude of a finite word: overflow, or the rounded integer and whether it is exact.
  method FiniteToInt(f: Format, rm: Rounding, n: nat, sign: bit, e: nat, s: nat, rMax: nat)
    returns (overflow: bool, r: nat, inexact: bool)
    requires IntSize(n) && rMax < P2(n)
    requires 1 <= e && s < 2 * P2(f.mant) && (e == 1 || P2(f.mant) <= s)
    ensures var i := RoundInt(rm, sign, s * P2(e - 1), P2(UnitExp(f)));
      && (overflow <==> i > rMax)
      && (!overflow ==> r == i && (inexact <==> s * P2(e - 1) % P2(UnitExp(f)) != 0))
  {
    hide P2, RoundInt, Jam;
    var aExp := e - Bias(f) - f.mant;
    BiasPositive(f);
    overflow, r, inexact := false, 0, false;
    if aExp >= 0 {
      IntegralValue(f, rm, sign, s, e);
      if aExp <= n - 1 - f.mant {
        SmallEnough(f, s, aExp, n);
        r := s * P2(aExp) % P2(n);
        DivUnique(s * P2(aExp), P2(n), 0, s * P2(aExp));
        overflow := r > rMax;
      } else {
        TooLarge(f, s, aExp, n);
        overflow := true;
      }
    } else {
      FractionalValue(f, rm, sign, s, e);
      ShiftFits(f, s, Rnd(f));
      var mant := RShiftRnd(f, Shl(f, s, Rnd(f)), -aExp);
      RoundedMantissa(f, rm, sign, s, -aExp);
      var rndBits := mant % P2(Rnd(f));
      r := RoundMant(f, rm, sign, mant);
      overflow := r > rMax;
      inexact := rndBits != 0;
    }
  }

  lemma BiasPositive(f: Format)
    ensures Bias(f) >= 1 && P2(f.exp) == 2 * P2(f.exp - 1) && P2(f.exp - 1) >= 128
  {
    P2Mono(7, f.exp - 1);
    assert P2(7) == 128;
  }

  /** Float to integer for every word: round by mode, then saturate; INVALID exactly on
      NaN or out of range, INEXACT exactly when in range and inexact. */
  method CvtSfToInt(f: Format, a: nat, rm: Rounding, n: nat, unsigned: bool, fl: Flags) returns (r: nat, fl': Flags)
    requires IsWord(f, a) && IntSize(n)
    ensures r == Wrap(n, ToInt(f, a, rm, n, unsigned).value)
    ensures fl' == Raise(fl, ToInt(f, a, rm, n, unsigned).flags)
  {
    hide Decode, P2, ExpField, MantField, SignOf, RoundInt, ToInt;
    fl' := fl;
    DecodeFields(f, a);
    Fields(f, a);
    BiasPositive(f);
    var aSign, e, s := SignOf(f, a), ExpField(f, a), MantField(f, a);
    ghost var special := e == f.ExpMask();
    if e == f.ExpMask() && s != 0 {
      aSign := 0; // a NaN saturates upwards
    }
    if special {
      ToIntSpecial(f, a, rm, n, unsigned);
    } else {
      FiniteFields(f, a);
      ToIntFinite(f, a, rm, n, unsigned, aSign, SigOf(f, a) * P2(ExpOf(f, a) - 1));
    }
    if e == 0 { e := 1; } else { s := s + P2(f.mant); }
    var rMax := RMax(n, unsigned, aSign);
    RMaxIs(n, unsigned, aSign, 0);
    var overflow, m, inexact := FiniteToInt(f, rm, n, aSign, e, s, rMax);
    if special { SpecialOverflows(f, rm, aSign, s, e, n); }
    if overflow {
      fl' := fl'.(invalid := true);
      m := rMax;
    } else if inexact {
      fl' := fl'.(inexact := true);
    }
    r := if overflow || aSign == 0 || m == 0 then m else P2(n) - m;
    WrapIs(n, aSign, m, unsigned);
  }

  // On overflow the code returns the magnitude r_max itself: for a signed negative
  // target that word already is the most negative value.
  lemma WrapIs(n: nat, sign: bit, m: nat, unsigned: bool)
    requires n >= 1
    ensures m < P2(n) ==> Wrap(n, Signed(sign, m)) == if sign == 0 || m == 0 then m else P2(n) - m
    ensures m == RMax(n, unsigned, sign) && m < P2(n) && sign == 1 && m > 0 ==> P2(n) - m == m
  {
    assert P2(n) == 2 * P2(n - 1);
  }

  lemma ToIntSpecial(f: Format, w: nat, rm: Rounding, n: nat, unsigned: bool)
    requires IsWord(f, w) && n >= 1 && !Decode(f, w).Finite?
    ensures var d := Decode(f, w);
      var s: bit := if d.NaN? then 0 else d.sign;
      ToInt(f, w, rm, n, unsigned) == IntOutcome(Signed(s, RMax(n, unsigned, s)), INVALID)
  {
    hide Decode;
    RMaxIs(n, unsigned, 0, 0);
    RMaxIs(n, unsigned, 1, 0);
  }

  // NaNs and infinities, read as numbers, exceed every target.
  lemma SpecialOverflows(f: Format, rm: Rounding, sign: bit, s: nat, e: nat, n: nat)
    requires IntSize(n) && e == f.ExpMask() && P2(f.mant) <= s && e >= 1
    ensures RoundInt(rm, sign, s * P2(e - 1), P2(UnitExp(f))) >= P2(n)
  {
    hide P2, RoundInt;
    BiasPositive(f);
    if e >= Bias(f) + f.mant {
      IntegralValue(f, rm, sign, s, e);
      TooLarge(f, s, e - Bias(f) - f.mant, n);
    } else {
      // |w| >= 2^(mant + e - 1 - UnitExp) = 2^(2^(exp-1)), past every target
      var d := P2(Bias(f) + f.mant - e);
      FractionalValue(f, rm, sign, s, e);
      P2Add(P2(f.exp - 1), Bias(f) + f.mant - e);
      P2Mono(n, P2(f.exp - 1));
      DivGe(s, d, P2(P2(f.exp - 1)));
      RoundIntAtLeast(rm, sign, s, d);
    }
  }

  lemma RoundIntAtLeast(rm: Rounding, sign: bit, s: nat, d: pos)
    ensures RoundInt(rm, sign, s, d) >= s / d
  {}

  // ----- integer to float -----

  // The value of the n-bit word a.
  function IntValue(n: nat, a: nat, unsigned: bool): int
    requires n >= 1
  {
    if unsigned || a < P2(n - 1) then a else a - P2(n)
  }

  // What normalize_sf is given: the magnitude m, jammed down to size - 1 bits.
  lemma FromIntFacts(f: Format, m: nat, l: nat) returns (x: Exact, u: pos)
    requires l == if BitLen(m) > f.Size() - 1 then BitLen(m) - (f.Size() - 1) else 0
    ensures x == Ratio(Times(m, P2(UnitExp(f))), 1)
    ensures 0 <= Jam(m, P2(l)) < P2(f.Size() - 1)
    ensures Scaled(f, Bias(f) + f.Size() - 2 + l, u, 1)
    ensures
      || Cmp(x, Jam(m, P2(l)) * u, 1) == 0
      || (Cell(Jam(m, P2(l)), P2(1), x, u, 1) && P2(f.mant + 1 + 1) <= Jam(m, P2(l)))
  {
    hide P2, Cell, IsPow, Jam, Cmp;
    var n, k := f.Size() - 1, P2(UnitExp(f));
    P2Small();
    x := Ratio(Times(m, k), 1);
    u := k * P2(l);
    ExactCmp(m * k, m * k);
    IsPowNat(UnitExp(f) + l);
    P2Add(UnitExp(f), l);
    BitLenBounds(m);
    if l == 0 {
      JamByOne(m);
      P2Mono(BitLen(m), n);
    } else {
      CellExact(m, 2 * P2(l), x, k, 1);
      CellShr(m, 2, P2(l), x, k, 1);
      JamRange(m, n, l);
      P2Mono(f.mant + 2, n - 1);
    }
  }

  lemma JamRange(m: nat, n: nat, l: nat)
    requires n >= 1 && P2(n - 1 + l) <= m < P2(n + l)
    ensures P2(n - 1) <= Jam(m, P2(l)) < P2(n)
  {
    hide P2;
    P2Small();
    P2Add(n, l);
    P2Add(n - 1, l);
    P2Add(1, n - 1);
    DivMod(m, P2(l));
    DivLt(m, P2(l), P2(n));
    DivGe(m, P2(l), P2(n - 1));
    OrBitBelow(m / P2(l), m % P2(l) != 0, P2(n - 1));
  }

  /** Integer to float, correctly rounded for every integer of the source type. */
  method CvtIntToSf(f: Format, a: nat, n: nat, rm: Rounding, unsigned: bool, fl: Flags) returns (r: nat, fl': Flags)
    requires IntSize(n) && a < P2(n)
    ensures r == FromInt(f, IntValue(n, a, unsigned), rm).bits
    ensures fl' == Raise(fl, FromInt(f, IntValue(n, a, unsigned), rm).flags)
  {
    hide P2, Cell, IsPow, BitLen, RoundedTo, Cmp;
    P2Add(1, n - 1);
    P2Small();
    var aSign: bit, m := 0, a;
    if !unsigned && a >= P2(n - 1) {
      aSign, m := 1, P2(n) - a;
    }
    var aExp := Bias(f) + f.Size() - 2;
    // the widest magnitudes lose a jammed bit first
    var l := n - Clz(n, m) - (f.Size() - 1);
    ghost var x, u := FromIntFacts(f, m, if l > 0 then l else 0);
    var mant := m;
    if l > 0 {
      mant := OrBit(m / P2(l), m % P2(l) != 0);
      aExp := aExp + l;
    } else {
      JamByOne(m);
    }
    r, fl' := NormalizeSf(f, aSign, aExp, mant, rm, fl, 1, x, u, 1);
  }

  lemma JamByOne(m: nat)
    ensures Jam(m, P2(0)) == m
  {
    P2Small();
    assert m / 1 == m && m % 1 == 0;
  }

  // ----- round trip -----

  // An integer of at most mant + 1 bits is a float.
  lemma IntegerFloat(f: Format, m: nat) returns (k: nat)
    requires m < 2 * P2(f.mant) && f.mant < Bias(f)
    ensures k < f.Inf() && Mag(f, k) == m * P2(UnitExp(f))
  {
    hide P2, Mag, BitLen;
    var w := P2(f.mant);
    BiasPositive(f);
    if m == 0 {
      k := 0;
      P2Small();
      MagAt(f, 1, 0);
      MulMono(1, f.ExpMask(), w);
    } else {
      BitLenBounds(m);
      BitLenSmall(f, m);
      var t := f.mant + 1 - BitLen(m);
      var r, e := m * P2(t), UnitExp(f) - t + 1;
      P2Add(BitLen(m) - 1, t);
      P2Add(BitLen(m), t);
      P2Add(1, f.mant);
      P2Small();
      MulMono(P2(BitLen(m) - 1), m, P2(t));
      MulStrict(m, P2(BitLen(m)), P2(t));
      MagAt(f, e, r);
      P2Add(t, e - 1);
      Assoc(m, P2(t), P2(e - 1));
      k := (e - 1) * w + r;
      MulMono(e + 1, f.ExpMask(), w);
      Distribute(e, 1, w);
      Distribute(e + 1, 1, w);
    }
  }

  lemma BitLenSmall(f: Format, m: nat)
    requires 0 < m < 2 * P2(f.mant)
    ensures 1 <= BitLen(m) <= f.mant + 1
  {
    hide P2;
    BitLenBounds(m);
    P2Add(1, f.mant);
    P2Small();
    if BitLen(m) > f.mant + 1 { P2Mono(f.mant + 1, BitLen(m) - 1); }
  }

  /** Integers of at most mant + 1 bits survive the trip through a float of any format
      with room for them, and nothing is raised on the way. */
  lemma IntRoundTrip(f: Format, v: int, rm: Rounding, rm': Rounding, n: nat, unsigned: bool)
    requires IntSize(n) && f.mant < Bias(f)
    requires MinInt(n, unsigned) <= v <= MaxInt(n, unsigned) && Abs(v) < 2 * P2(f.mant)
    ensures var o := FromInt(f, v, rm);
      && IsWord(f, o.bits) && o.flags == NONE
      && ToInt(f, o.bits, rm', n, unsigned) == IntOutcome(v, NONE)
  {
    hide P2, Mag, Cmp, RoundedTo;
    var m, c := Abs(v), P2(UnitExp(f));
    var s: bit := if v < 0 then 1 else 0;
    var k := IntegerFloat(f, m);
    var x := Ratio(Times(m, c), 1);
    assert Cmp(x, Mag(f, k), 1) == 0 by { ExactCmp(m * c, Mag(f, k)); }
    RepresentableExact(f, rm, s, x, k);
    DecodePacked(f, s, k);
    DivUnique(m * c, c, m, 0);
  }

  lemma ExactCmp(n: nat, p: nat)
    requires n == p
    ensures Cmp(Ratio(n, 1), p, 1) == 0
  {}

  lemma DecodePacked(f: Format, s: bit, k: nat)
    requires k < f.Inf()
    ensures IsWord(f, Pack(f, s, k)) && Decode(f, Pack(f, s, k)) == Finite(s, Mag(f, k))
  {
    hide P2, Mag;
    P2Add(f.exp, f.mant);
    P2Add(1, f.mant + f.exp);
    P2Small();
    Distribute(P2(f.exp), 1, P2(f.mant));
    assert k < f.SignBit();
    DivUnique(Pack(f, s, k), f.SignBit(), s, k);
  }
}
