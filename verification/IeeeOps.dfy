// The IEEE 754-2008 results of the operations of section 5.4 on every pair or
// triple of words, special values included, as RISC-V requires them (canonical
// NaN, invalid only for signaling NaNs and undefined results).
module IeeeOps {
  import opened Powers
  import opened Ieee754

  datatype Datum = NaN(signaling: bool) | Infinite(sign: bit) | Finite(sign: bit, mag: nat)

  function SignOf(f: Format, w: nat): (s: bit)
    requires IsWord(f, w)
  {
    DivMod(w, f.SignBit());
    DivLt(w, f.SignBit(), 2);
    w / f.SignBit()
  }

  function IndexOf(f: Format, w: nat): nat { w % f.SignBit() }

  function Decode(f: Format, w: nat): Datum
    requires IsWord(f, w)
  {
    var s, k := SignOf(f, w), IndexOf(f, w);
    if k > f.Inf() then NaN(k < f.Inf() + P2(f.mant - 1))
    else if k == f.Inf() then Infinite(s)
    else Finite(s, Mag(f, k))
  }

  function InfinityOf(f: Format, s: bit): Outcome { Outcome(Pack(f, s, f.Inf()), NONE) }

  function ZeroOf(f: Format, s: bit): Outcome { Outcome(Pack(f, s, 0), NONE) }

  function NaNOf(f: Format, invalid: bool): Outcome { Outcome(QuietNaN(f), NONE.(invalid := invalid)) }

  predicate Signals(d: Datum) { d.NaN? && d.signaling }

  predicate IsZero(d: Datum) { d.Finite? && d.mag == 0 }

  function Xor(s: bit, t: bit): bit { if s == t then 0 else 1 }

  function Signed(s: bit, m: nat): int { if s == 1 then 0 - m else m }

  function Abs(i: int): nat { if i < 0 then -i else i }

  function Times(m: nat, n: nat): nat { m * n }

  // (+-m +- n) / d rounded; an exact zero of opposite signs is positive except toward minus infinity.
  ghost function RoundedSum(f: Format, rm: Rounding, s: bit, m: nat, t: bit, n: nat, d: pos): Outcome {
    var sum := Signed(s, m) + Signed(t, n);
    var sign: bit := if sum < 0 then 1 else if sum > 0 then 0 else if s == t then s else if rm == RDN then 1 else 0;
    RoundedTo(f, rm, sign, Ratio(Abs(sum), d))
  }

  ghost function Add(f: Format, a: nat, b: nat, rm: Rounding): Outcome
    requires IsWord(f, a) && IsWord(f, b)
  {
    var x, y := Decode(f, a), Decode(f, b);
    if x.NaN? || y.NaN? then NaNOf(f, Signals(x) || Signals(y))
    else if x.Infinite? && y.Infinite? then
      if x.sign == y.sign then InfinityOf(f, x.sign) else NaNOf(f, true)
    else if x.Infinite? then InfinityOf(f, x.sign)
    else if y.Infinite? then InfinityOf(f, y.sign)
    else RoundedSum(f, rm, x.sign, x.mag, y.sign, y.mag, 1)
  }

  ghost function Mul(f: Format, a: nat, b: nat, rm: Rounding): Outcome
    requires IsWord(f, a) && IsWord(f, b)
  {
    var x, y := Decode(f, a), Decode(f, b);
    if x.NaN? || y.NaN? then NaNOf(f, Signals(x) || Signals(y))
    else
      var s := Xor(x.sign, y.sign);
      if x.Infinite? || y.Infinite? then
        if IsZero(x) || IsZero(y) then NaNOf(f, true) else InfinityOf(f, s)
      else RoundedTo(f, rm, s, Ratio(Times(x.mag, y.mag), P2(UnitExp(f))))
  }

  // As Spike and Hauser's softfloat, 0 * infinity is invalid even if c is a quiet NaN.
  ghost function Fma(f: Format, a: nat, b: nat, c: nat, rm: Rounding): Outcome
    requires IsWord(f, a) && IsWord(f, b) && IsWord(f, c)
  {
    var x, y, z := Decode(f, a), Decode(f, b), Decode(f, c);
    if (x.Infinite? && IsZero(y)) || (IsZero(x) && y.Infinite?) then NaNOf(f, true)
    else if x.NaN? || y.NaN? || z.NaN? then NaNOf(f, Signals(x) || Signals(y) || Signals(z))
    else
      var s := Xor(x.sign, y.sign);
      if x.Infinite? || y.Infinite? then
        if z.Infinite? && z.sign != s then NaNOf(f, true) else InfinityOf(f, s)
      else if z.Infinite? then InfinityOf(f, z.sign)
      else RoundedSum(f, rm, s, Times(x.mag, y.mag), z.sign, Times(z.mag, P2(UnitExp(f))), P2(UnitExp(f)))
  }

  ghost function Div(f: Format, a: nat, b: nat, rm: Rounding): Outcome
    requires IsWord(f, a) && IsWord(f, b)
  {
    var x, y := Decode(f, a), Decode(f, b);
    if x.NaN? || y.NaN? then NaNOf(f, Signals(x) || Signals(y))
    else
      var s := Xor(x.sign, y.sign);
      if x.Infinite? then (if y.Infinite? then NaNOf(f, true) else InfinityOf(f, s))
      else if y.Infinite? then ZeroOf(f, s)
      else if y.mag == 0 then
        if x.mag == 0 then NaNOf(f, true) else InfinityOf(f, s).(flags := NONE.(divZero := true))
      else RoundedTo(f, rm, s, Ratio(Times(x.mag, P2(UnitExp(f))), y.mag))
  }

  ghost function Sqrt(f: Format, a: nat, rm: Rounding): Outcome
    requires IsWord(f, a)
  {
    var x := Decode(f, a);
    if x.NaN? then NaNOf(f, x.signaling)
    else if IsZero(x) then ZeroOf(f, x.sign)
    else if x.sign == 1 then NaNOf(f, true)
    else if x.Infinite? then InfinityOf(f, 0)
    else RoundedTo(f, rm, 0, Root(Times(x.mag, P2(UnitExp(f)))))
  }

  // ----- the fields of a word -----

  function ExpField(f: Format, w: nat): nat {
    DivMod(w, P2(f.mant));
    w / P2(f.mant) % P2(f.exp)
  }

  function MantField(f: Format, w: nat): nat { w % P2(f.mant) }

  lemma Fields(f: Format, w: nat)
    ensures IndexOf(f, w) == ExpField(f, w) * P2(f.mant) + MantField(f, w)
    ensures 0 <= ExpField(f, w) <= f.ExpMask() && 0 <= MantField(f, w) < P2(f.mant)
    ensures 0 <= IndexOf(f, w) < f.SignBit()
  {
    DivMod(w, P2(f.mant));
    DivDiv(w, P2(f.mant), P2(f.exp));
    DivMod(w / P2(f.mant), P2(f.exp));
    P2Add(f.mant, f.exp);
  }

  lemma WordOf(f: Format, w: nat)
    requires IsWord(f, w)
    ensures w == Pack(f, SignOf(f, w), IndexOf(f, w))
  {
    DivMod(w, f.SignBit());
  }

  /** The exponent field tells NaNs, infinities and finite numbers apart. */
  lemma DecodeFields(f: Format, w: nat)
    requires IsWord(f, w)
    ensures var e, m, d := ExpField(f, w), MantField(f, w), Decode(f, w);
      && (d.NaN? <==> e == f.ExpMask() && m != 0)
      && (d.NaN? ==> (d.signaling <==> m < P2(f.mant - 1)))
      && (d.Infinite? <==> e == f.ExpMask() && m == 0)
      && (!d.NaN? ==> d.sign == SignOf(f, w))
  {
    hide Mag;
    Fields(f, w);
    var e := ExpField(f, w);
    if e < f.ExpMask() {
      MulMono(e + 1, f.ExpMask(), P2(f.mant));
      Distribute(e, 1, P2(f.mant));
    }
  }

  // Significand and exponent of a finite word, subnormals at exponent 1.
  function SigOf(f: Format, w: nat): nat {
    if ExpField(f, w) == 0 then MantField(f, w) else MantField(f, w) + P2(f.mant)
  }

  function ExpOf(f: Format, w: nat): nat {
    if ExpField(f, w) == 0 then 1 else ExpField(f, w)
  }

  lemma FiniteFields(f: Format, w: nat)
    requires IsWord(f, w)
    requires ExpField(f, w) != f.ExpMask()
    ensures Decode(f, w) == Finite(SignOf(f, w), SigOf(f, w) * P2(ExpOf(f, w) - 1))
    ensures 1 <= ExpOf(f, w) < f.ExpMask()
    ensures SigOf(f, w) < 2 * P2(f.mant)
    ensures ExpOf(f, w) == 1 || P2(f.mant) <= SigOf(f, w)
  {
    hide Mag;
    Fields(f, w);
    DecodeFields(f, w);
    MagAt(f, ExpOf(f, w), SigOf(f, w));
    P2Mono(2, f.exp);
    Distribute(ExpOf(f, w), 1, P2(f.mant));
  }

  // isnan_sf and issignan_sf
  predicate IsNaN(f: Format, w: nat) { ExpField(f, w) == f.ExpMask() && MantField(f, w) != 0 }

  predicate IsSigNaN(f: Format, w: nat) {
    w / P2(f.mant - 1) % P2(f.exp + 1) == 2 * f.ExpMask() && MantField(f, w) != 0
  }

  lemma NaNTests(f: Format, w: nat)
    requires IsWord(f, w)
    ensures IsNaN(f, w) <==> Decode(f, w).NaN?
    ensures IsSigNaN(f, w) <==> Signals(Decode(f, w))
  {
    hide Mag;
    DecodeFields(f, w);
    Fields(f, w);
    // the exponent field and the quiet bit, as one field
    var h := P2(f.mant - 1);
    DivMod(w, h);
    DivDiv(w, h, 2);
    var t := w / h;
    DivMod(t, 2);
    DivDiv(t, 2, P2(f.exp));
    assert t % P2(f.exp + 1) == t / 2 % P2(f.exp) * 2 + t % 2;
    assert w / P2(f.mant) == t / 2 && w % P2(f.mant) == t % 2 * h + w % h;
  }
}
