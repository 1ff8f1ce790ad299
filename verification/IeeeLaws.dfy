// Laws of the specified results that mention only the fields of words and the names of the rounding modes:
// which results are NaN and which NaN that is, the sign rules, and the side each directed mode takes.
module IeeeLaws {
  import opened Powers
  import opened Ieee754
  import opened IeeeOps

  // The highest bit of a word.
  function Sign(f: Format, w: nat): nat { w / P2(f.Size() - 1) }

  /** A word of the canonical NaN: positive, exponent all ones, only the highest mantissa bit. */
  ghost predicate IsCanonical(f: Format, w: nat) {
    && IsWord(f, w) && Sign(f, w) == 0 && w / P2(f.mant) % P2(f.exp) == P2(f.exp) - 1
    && w % P2(f.mant) == P2(f.mant - 1)
  }

  lemma FormatSizes(f: Format)
    ensures P2(f.Size() - 1) == P2(f.exp) * P2(f.mant) && P2(f.Size()) == 2 * P2(f.Size() - 1)
    ensures P2(f.mant) == 2 * P2(f.mant - 1) && f.Inf() == P2(f.exp) * P2(f.mant) - P2(f.mant)
    ensures f.SignBit() == P2(f.Size() - 1)
  {
    hide P2;
    P2Add(f.exp, f.mant);
    P2Add(1, f.Size() - 1);
    P2Add(1, f.mant - 1);
    P2Small();
    Distribute(P2(f.exp), -1, P2(f.mant));
  }

  // A sign and an index make a word with that sign and index.
  lemma Packed(f: Format, s: bit, k: nat)
    requires k < P2(f.Size() - 1)
    ensures var w := Pack(f, s, k); IsWord(f, w) && Sign(f, w) == s && SignOf(f, w) == s && IndexOf(f, w) == k
  {
    hide P2;
    FormatSizes(f);
    DivUnique(Pack(f, s, k), P2(f.Size() - 1), s, k);
  }

  /** The NaN that all operations return is quiet and canonical. */
  lemma QuietIsCanonical(f: Format)
    ensures IsCanonical(f, QuietNaN(f)) && Decode(f, QuietNaN(f)) == NaN(false)
  {
    hide P2;
    FormatSizes(f);
    var h, e := P2(f.mant - 1), P2(f.exp);
    DivUnique(QuietNaN(f), P2(f.Size() - 1), 0, QuietNaN(f));
    Distribute(e, -1, P2(f.mant));
    DivUnique(QuietNaN(f), P2(f.mant), e - 1, h);
    DivUnique(e - 1, e, 0, e - 1);
  }

  lemma CanonicalWords()
    ensures QuietNaN(BINARY32) == 0x7fc0_0000 && QuietNaN(BINARY64) == 0x7ff8_0000_0000_0000
    ensures QuietNaN(BINARY128) == 0x7fff_8000_0000_0000_0000_0000_0000_0000
  {
    hide P2;
    Powers32();
    Powers64();
    Powers128();
  }

  lemma Powers32()
    ensures P2(8) == 0x100 && P2(22) == 0x40_0000 && P2(23) == 0x80_0000
  {
    hide P2;
    P2Small();
    P2Add(4, 4);
    P2Add(8, 8);
    P2Add(16, 4);
    P2Add(20, 2);
    P2Add(22, 1);
  }

  lemma Powers64()
    ensures P2(11) == 0x800 && P2(51) == 0x8_0000_0000_0000 && P2(52) == 0x10_0000_0000_0000
  {
    hide P2;
    Powers32();
    P2Small();
    P2Add(8, 3);
    P2Add(8, 8);
    P2Add(16, 16);
    P2Add(32, 16);
    P2Add(48, 3);
    P2Add(48, 4);
  }

  lemma Powers128()
    ensures P2(15) == 0x8000 && P2(111) == 0x8000_0000_0000_0000_0000_0000_0000
    ensures P2(112) == 0x1_0000_0000_0000_0000_0000_0000_0000
  {
    hide P2;
    Powers64();
    P2Small();
    P2Add(11, 4);
    P2Add(15, 1);
    P2Add(52, 4);
    P2Add(56, 56);
    P2Add(111, 1);
  }

  /** Exponent field 2^(exp-1) - 1 and an empty mantissa are the number one. */
  lemma OneWord(f: Format)
    ensures Mag(f, (P2(f.exp - 1) - 1) * P2(f.mant)) == P2(UnitExp(f)) && UnitExp(f) == P2(f.exp - 1) - 2 + f.mant
  {
    hide P2, Mag;
    P2Small();
    P2Mono(2, f.exp - 1);
    var e := P2(f.exp - 1) - 1;
    Distribute(e - 1, 1, P2(f.mant));
    MagAt(f, e, P2(f.mant));
    P2Add(f.mant, e - 1);
  }

  // ----- rounding, mode by mode -----

  /** To nearest even and to nearest away: no other float is nearer, and a tie goes as the mode says. */
  lemma NearestModes(f: Format, rm: Rounding, sign: bit, x: Exact, k: nat, j: nat)
    requires (rm == RNE || rm == RMM) && k == RoundIndex(f, rm, sign, x, 1) && j != k
    ensures var mid := Cmp(x, Mag(f, k) + Mag(f, j), 2);
      && (j > k ==> mid <= 0) && (j < k ==> mid >= 0)
      && (mid == 0 ==> (if rm == RNE then k % 2 == 0 else k > j))
  {
    NearestOfAll(f, rm, sign, x, 1, k, j);
  }

  /** Up, down and toward zero: never on the wrong side, and the nearest float on the right one. */
  lemma DirectedModes(f: Format, rm: Rounding, sign: bit, x: Exact, k: nat, j: nat)
    requires k == RoundIndex(f, rm, sign, x, 1)
    ensures rm == RTZ || (rm == RUP && sign == 1) || (rm == RDN && sign == 0) ==>
              (Cmp(x, Mag(f, j), 1) >= 0 <==> j <= k)
    ensures (rm == RUP && sign == 0) || (rm == RDN && sign == 1) ==> (Cmp(x, Mag(f, j), 1) <= 0 <==> k <= j)
  {
    hide Cmp, Mag, Rounds;
    if rm != RNE && rm != RMM { DirectedBound(f, rm, sign, x, 1, k, j); }
  }

  /** Overflow goes to infinity, except toward zero, upward from below and downward from above, where it
      stops at the largest finite number; a result in range is the word of its index. */
  lemma OverflowModes(f: Format, rm: Rounding, sign: bit, x: Exact)
    ensures var k, o := RoundIndex(f, rm, sign, x, 1), RoundedTo(f, rm, sign, x);
      var stops := rm == RTZ || (rm == RUP && sign == 1) || (rm == RDN && sign == 0);
      && (o.flags.overflow <==> k >= (P2(f.exp) - 1) * P2(f.mant))
      && (o.flags.overflow ==> o.flags.inexact)
      && (o.flags.overflow ==>
            o.bits == sign * P2(f.Size() - 1) + (P2(f.exp) - 1) * P2(f.mant) - if stops then 1 else 0)
      && (!o.flags.overflow ==> o.bits == sign * P2(f.Size() - 1) + k)
      && (!o.flags.overflow ==> (o.flags.inexact <==> Cmp(x, Mag(f, k), 1) != 0))
      && !o.flags.invalid && !o.flags.divZero
  {
    hide Cmp, Mag, Rounds, P2;
  }

  // A rounded result is a number with the given sign.
  lemma RoundedNumber(f: Format, rm: Rounding, sign: bit, x: Exact)
    ensures var o := RoundedTo(f, rm, sign, x);
      && IsWord(f, o.bits) && !Decode(f, o.bits).NaN? && Sign(f, o.bits) == sign && !o.flags.invalid
  {
    hide Cmp, Mag, Rounds, P2, RoundIndex;
    FormatSizes(f);
    var k := RoundIndex(f, rm, sign, x, 1);
    P2Mono(0, f.mant);
    P2Mono(1, f.exp);
    P2Small();
    MulMono(1, P2(f.exp) - 1, P2(f.mant));
    Packed(f, sign, f.Inf());
    Packed(f, sign, f.Inf() - 1);
    if k < f.Inf() { Packed(f, sign, k); }
  }

  lemma Specials(f: Format, s: bit)
    ensures var i, z := InfinityOf(f, s), ZeroOf(f, s);
      && IsWord(f, i.bits) && Decode(f, i.bits) == Infinite(s) && Sign(f, i.bits) == s && i.flags == NONE
      && IsWord(f, z.bits) && Decode(f, z.bits) == Finite(s, 0) && Sign(f, z.bits) == s && z.flags == NONE
  {
    hide P2;
    FormatSizes(f);
    P2Small();
    P2Mono(0, f.mant);
    P2Mono(1, f.exp);
    MulMono(1, P2(f.exp) - 1, P2(f.mant));
    Packed(f, s, f.Inf());
    Packed(f, s, 0);
    assert Mag(f, 0) == 0;
  }

  // ----- which results are NaN -----

  // What every operation promises of its result, bad being the operands without a meaningful one and
  // invalid those that raise the exception.
  ghost predicate NaNLaw(f: Format, o: Outcome, bad: bool, invalid: bool) {
    && IsWord(f, o.bits) && (Decode(f, o.bits).NaN? <==> bad) && (bad ==> IsCanonical(f, o.bits))
    && (o.flags.invalid <==> invalid)
  }

  lemma NaNBits(f: Format, invalid: bool)
    ensures NaNLaw(f, NaNOf(f, invalid), true, invalid)
  {
    QuietIsCanonical(f);
  }

  lemma NumberBits(f: Format, o: Outcome)
    requires IsWord(f, o.bits) && !Decode(f, o.bits).NaN? && !o.flags.invalid
    ensures NaNLaw(f, o, false, false)
  {}

  /** A sum is NaN exactly for a NaN operand and for infinities of opposite signs. */
  lemma AddNaN(f: Format, a: nat, b: nat, rm: Rounding)
    requires IsWord(f, a) && IsWord(f, b)
    ensures var x, y := Decode(f, a), Decode(f, b);
      var clash := x.Infinite? && y.Infinite? && x.sign != y.sign;
      NaNLaw(f, Add(f, a, b, rm), x.NaN? || y.NaN? || clash, Signals(x) || Signals(y) || clash)
  {
    hide Decode, RoundedTo, NaNLaw, InfinityOf, NaNOf;
    SumNaN(f, Decode(f, a), Decode(f, b), rm, 1);
  }

  lemma SumNaN(f: Format, x: Datum, y: Datum, rm: Rounding, d: pos)
    ensures forall i :: NaNLaw(f, NaNOf(f, i), true, i)
    ensures x.Infinite? ==> NaNLaw(f, InfinityOf(f, x.sign), false, false)
    ensures y.Infinite? ==> NaNLaw(f, InfinityOf(f, y.sign), false, false)
    ensures x.Finite? && y.Finite? ==> NaNLaw(f, RoundedSum(f, rm, x.sign, x.mag, y.sign, y.mag, d), false, false)
  {
    hide Decode, RoundedTo;
    forall i ensures NaNLaw(f, NaNOf(f, i), true, i) { NaNBits(f, i); }
    if x.Infinite? { Specials(f, x.sign); }
    if y.Infinite? { Specials(f, y.sign); }
    if x.Finite? && y.Finite? {
      var sum := Signed(x.sign, x.mag) + Signed(y.sign, y.mag);
      RoundedNumber(f, rm, 0, Ratio(Abs(sum), d));
      RoundedNumber(f, rm, 1, Ratio(Abs(sum), d));
    }
  }

  /** A product is NaN exactly for a NaN operand and for zero times infinity; otherwise its sign is the
      sum of the operands' signs modulo two. */
  lemma MulNaN(f: Format, a: nat, b: nat, rm: Rounding)
    requires IsWord(f, a) && IsWord(f, b)
    ensures var x, y, o := Decode(f, a), Decode(f, b), Mul(f, a, b, rm);
      var clash := (x.Infinite? && IsZero(y)) || (IsZero(x) && y.Infinite?);
      && NaNLaw(f, o, x.NaN? || y.NaN? || clash, Signals(x) || Signals(y) || clash)
      && (!Decode(f, o.bits).NaN? ==> Sign(f, o.bits) == (Sign(f, a) + Sign(f, b)) % 2)
  {
    hide RoundedTo, P2, Mag;
    SignIs(f, a);
    SignIs(f, b);
    var s := Xor(SignOf(f, a), SignOf(f, b));
    NaNBits(f, true);
    NaNBits(f, false);
    Specials(f, s);
    if Decode(f, a).Finite? && Decode(f, b).Finite? {
      RoundedNumber(f, rm, s, Ratio(Times(Decode(f, a).mag, Decode(f, b).mag), P2(UnitExp(f))));
    }
  }

  lemma SignIs(f: Format, w: nat)
    requires IsWord(f, w)
    ensures Sign(f, w) == SignOf(f, w)
  {
    hide P2;
    FormatSizes(f);
  }

  /** A quotient is NaN exactly for a NaN operand, zero over zero and infinity over infinity; otherwise its
      sign is the sum of the operands' signs modulo two. Only a number over zero divides by zero. */
  lemma DivNaN(f: Format, a: nat, b: nat, rm: Rounding)
    requires IsWord(f, a) && IsWord(f, b)
    ensures var x, y, o := Decode(f, a), Decode(f, b), Div(f, a, b, rm);
      var clash := (x.Infinite? && y.Infinite?) || (IsZero(x) && IsZero(y));
      && NaNLaw(f, o, x.NaN? || y.NaN? || clash, Signals(x) || Signals(y) || clash)
      && (!Decode(f, o.bits).NaN? ==> Sign(f, o.bits) == (Sign(f, a) + Sign(f, b)) % 2)
      && (o.flags.divZero <==> x.Finite? && x.mag != 0 && IsZero(y))
  {
    hide RoundedTo, P2, Mag;
    SignIs(f, a);
    SignIs(f, b);
    var s := Xor(SignOf(f, a), SignOf(f, b));
    NaNBits(f, true);
    NaNBits(f, false);
    Specials(f, s);
    var x, y := Decode(f, a), Decode(f, b);
    if x.Finite? && y.Finite? && y.mag != 0 {
      RoundedNumber(f, rm, s, Ratio(Times(x.mag, P2(UnitExp(f))), y.mag));
      OverflowModes(f, rm, s, Ratio(Times(x.mag, P2(UnitExp(f))), y.mag));
    }
  }

  /** A square root is NaN exactly for a NaN and for negative operands other than zero; otherwise it has the
      sign of its operand. */
  lemma SqrtNaN(f: Format, a: nat, rm: Rounding)
    requires IsWord(f, a)
    ensures var x, o := Decode(f, a), Sqrt(f, a, rm);
      var clash := !x.NaN? && Sign(f, a) == 1 && !IsZero(x);
      && NaNLaw(f, o, x.NaN? || clash, Signals(x) || clash)
      && (!Decode(f, o.bits).NaN? ==> Sign(f, o.bits) == Sign(f, a))
  {
    hide RoundedTo, P2, Mag;
    SignIs(f, a);
    NaNBits(f, true);
    NaNBits(f, false);
    var x := Decode(f, a);
    Specials(f, SignOf(f, a));
    if x.Finite? { RoundedNumber(f, rm, 0, Root(Times(x.mag, P2(UnitExp(f))))); }
  }

  /** A fused product and sum is NaN exactly for zero times infinity, a NaN operand, and an infinite product
      against an infinity of the other sign. */
  lemma FmaNaN(f: Format, a: nat, b: nat, c: nat, rm: Rounding)
    requires IsWord(f, a) && IsWord(f, b) && IsWord(f, c)
    ensures var x, y, z := Decode(f, a), Decode(f, b), Decode(f, c);
      var zeroInf := (x.Infinite? && IsZero(y)) || (IsZero(x) && y.Infinite?);
      var clash := !x.NaN? && !y.NaN? && (x.Infinite? || y.Infinite?) && z.Infinite?
                   && (Sign(f, a) + Sign(f, b)) % 2 != Sign(f, c);
      NaNLaw(f, Fma(f, a, b, c, rm), x.NaN? || y.NaN? || z.NaN? || zeroInf || clash,
             Signals(x) || Signals(y) || Signals(z) || zeroInf || clash)
  {
    hide RoundedTo, P2, Mag;
    SignIs(f, a);
    SignIs(f, b);
    SignIs(f, c);
    var x, y, z, k := Decode(f, a), Decode(f, b), Decode(f, c), P2(UnitExp(f));
    NaNBits(f, true);
    NaNBits(f, false);
    Specials(f, Xor(SignOf(f, a), SignOf(f, b)));
    Specials(f, SignOf(f, c));
    if x.Finite? && y.Finite? && z.Finite? {
      SumNaN(f, Finite(Xor(x.sign, y.sign), Times(x.mag, y.mag)), Finite(z.sign, Times(z.mag, k)), rm, k);
    }
  }

  // ----- signs of sums -----

  /** A sum of finite numbers: equal signs are kept, opposite ones give the sign of the larger magnitude, and
      an exact zero is positive except when rounding down. */
  lemma AddSign(f: Format, a: nat, b: nat, rm: Rounding)
    requires IsWord(f, a) && IsWord(f, b) && Decode(f, a).Finite? && Decode(f, b).Finite?
    ensures var m, n, s := Decode(f, a).mag, Decode(f, b).mag, Sign(f, Add(f, a, b, rm).bits);
      && (Sign(f, a) == Sign(f, b) ==> s == Sign(f, a))
      && (Sign(f, a) != Sign(f, b) ==>
            s == if m > n then Sign(f, a) else if m < n then Sign(f, b) else if rm == RDN then 1 else 0)
  {
    hide RoundedTo, P2, Mag;
    SignIs(f, a);
    SignIs(f, b);
    var x, y := Decode(f, a), Decode(f, b);
    var sum := Signed(x.sign, x.mag) + Signed(y.sign, y.mag);
    RoundedNumber(f, rm, 0, Ratio(Abs(sum), 1));
    RoundedNumber(f, rm, 1, Ratio(Abs(sum), 1));
  }

  /** The order of the operands does not matter. */
  lemma Commutes(f: Format, a: nat, b: nat, c: nat, rm: Rounding)
    requires IsWord(f, a) && IsWord(f, b) && IsWord(f, c)
    ensures Add(f, a, b, rm) == Add(f, b, a, rm) && Mul(f, a, b, rm) == Mul(f, b, a, rm)
    ensures Fma(f, a, b, c, rm) == Fma(f, b, a, c, rm)
  {
    hide RoundedTo, P2, Mag, Decode;
    var x, y := Decode(f, a), Decode(f, b);
    if x.Finite? && y.Finite? { assert Times(x.mag, y.mag) == Times(y.mag, x.mag); }
  }
}
