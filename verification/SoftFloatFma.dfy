// normalize2_sf and fma_sf: the exact a * b + c rounded once.
module SoftFloatFma {
  import opened Powers
  import opened Ieee754
  import opened IeeeOps
  import opened SoftFloatRound
  import opened SoftFloatAdd
  import opened SoftFloatMul

  // ----- double words -----

  function Wide(f: Format, hi: nat, lo: nat): nat { hi * P2(f.Size()) + lo }

  // A double word shifted right by d < size, jammed: as two words.
  lemma WideShr(f: Format, hi: nat, lo: nat, d: nat)
    requires 0 < d <= f.Size() && IsWord(f, lo)
    ensures Wide(f, hi, lo) / P2(d) == hi * P2(f.Size() - d) + lo / P2(d)
    ensures Wide(f, hi, lo) % P2(d) == lo % P2(d)
    ensures 0 <= lo / P2(d) < P2(f.Size() - d)
  {
    hide P2;
    P2Add(f.Size() - d, d);
    DivMod(lo, P2(d));
    DivLt(lo, P2(d), P2(f.Size() - d));
    Assoc(hi, P2(f.Size() - d), P2(d));
    Distribute(hi * P2(f.Size() - d), lo / P2(d), P2(d));
    DivUnique(Wide(f, hi, lo), P2(d), hi * P2(f.Size() - d) + lo / P2(d), lo % P2(d));
  }

  // The bits a left shift pushes out of the low word.
  lemma ShlLow(f: Format, lo: nat, s: nat)
    requires s <= f.Size() && IsWord(f, lo)
    ensures Shl(f, lo, s) == lo % P2(f.Size() - s) * P2(s)
    ensures Shl(f, lo, s) != 0 <==> lo % P2(f.Size() - s) != 0
  {
    hide P2;
    var c := P2(f.Size() - s);
    P2Add(f.Size() - s, s);
    DivMod(lo, c);
    Distribute(lo / c * c, lo % c, P2(s));
    Assoc(lo / c, c, P2(s));
    MulStrict(lo % c, c, P2(s));
    MulMono(0, lo % c, P2(s));
    DivUnique(lo * P2(s), P2(f.Size()), lo / c, lo % c * P2(s));
    if lo % c != 0 { MulMono(1, lo % c, P2(s)); }
  }

  // ----- normalize2_sf -----

  lemma BelowTop(i: nat, k: nat, x: nat)
    requires P2(i) <= x < P2(k)
    ensures i < k
  {
    hide P2;
    if k <= i { P2Mono(k, i); }
  }

  // The shift that brings the leading bit of a double word to bit size - 2 of the high word.
  lemma WideLen(f: Format, hi: nat, lo: nat, shift: int)
    requires hi < P2(f.Size() - 1) && IsWord(f, lo) && Wide(f, hi, lo) > 0
    requires shift == (if hi == 0 then f.Size() + Clz(f.Size(), lo) else Clz(f.Size(), hi)) - 1
    ensures 0 <= shift < 2 * f.Size() - 1
    ensures P2(2 * f.Size() - 2 - shift) <= Wide(f, hi, lo) < P2(2 * f.Size() - 1 - shift)
    ensures shift >= f.Size() ==> hi == 0
  {
    hide P2;
    var n := f.Size();
    P2Mono(n - 1, n);
    if hi == 0 {
      assert 0 * P2(n) == 0;
      ClzRange(n, lo);
    } else {
      ClzRange(n, hi);
      var i := n - 1 - Clz(n, hi);
      assert i < n - 1 by { BelowTop(i, n - 1, hi); }
      P2Add(i, n);
      P2Add(i + 1, n);
      MulMono(P2(i), hi, P2(n));
      MulMono(hi + 1, P2(i + 1), P2(n));
      Distribute(hi, 1, P2(n));
    }
  }

  lemma WideNormalized(f: Format, v: nat, shift: nat)
    requires shift < f.Size()
    requires P2(2 * f.Size() - 2 - shift) <= v < P2(2 * f.Size() - 1 - shift)
    ensures Normalized(f, Jam(v, P2(f.Size() - shift)))
  {
    hide P2;
    var n, d := f.Size(), f.Size() - shift;
    P2Add(n - 2, d);
    P2Add(n - 1, d);
    DivGe(v, P2(d), P2(n - 2));
    DivLt(v, P2(d), P2(n - 1));
    P2Add(1, n - 2);
    P2Small();
    DivMod(v, P2(d));
    OrBitRange(v / P2(d), v % P2(d) != 0, P2(n - 2));
  }

  lemma OrBitRange(q: nat, c: bool, n: nat)
    requires n <= q < 2 * n
    ensures n <= OrBit(q, c) < 2 * n
  {}

  // The cell of the normalized mantissa from the cell of the double word.
  lemma WideCell(f: Format, v: nat, shift: nat, t: nat, x: Exact, u: pos, q: pos)
    requires shift < f.Size()
    requires Cmp(x, v * u, q) == 0 || (Cell(v, P2(t), x, u, q) && t + shift <= f.Size() + Rnd(f) - 1)
    ensures u * P2(f.Size() - shift) > 0
    ensures Cell(Jam(v, P2(f.Size() - shift)), P2(Rnd(f) - 1), x, u * P2(f.Size() - shift), q)
  {
    hide Cell, Cmp, P2;
    var d := f.Size() - shift;
    var g := P2(Rnd(f) - 1) * P2(d);
    P2Add(Rnd(f) - 1, d);
    if Cmp(x, v * u, q) == 0 {
      CellExact(v, g, x, u, q);
    } else {
      var rest := Rnd(f) - 1 + d - t;
      P2Add(t, rest);
      CellCoarsen(v, P2(t), P2(rest), x, u, q);
    }
    P2Add(1, Rnd(f) - 2);
    P2Small();
    CellShr(v, P2(Rnd(f) - 1), P2(d), x, u, q);
  }

  method Normalize2Sf(f: Format, sign: bit, aExp: int, aMant1: nat, aMant0: nat, rm: Rounding, fl: Flags,
                      ghost t: nat, ghost x: Exact, ghost u: pos, ghost v: pos)
    returns (r: nat, fl': Flags)
    requires aMant1 < P2(f.Size() - 1) && IsWord(f, aMant0)
    requires u * P2(f.Size()) > 0 && Scaled(f, aExp, u * P2(f.Size()), v)
    requires var w := Wide(f, aMant1, aMant0);
      || Cmp(x, w * u, v) == 0
      || (Cell(w, P2(t), x, u, v) && t <= f.Size() && P2(2 * f.Size() - 4) <= w)
    ensures r == RoundedTo(f, rm, sign, x).bits
    ensures fl' == Raise(fl, RoundedTo(f, rm, sign, x).flags)
  {
    hide Cell, Cmp, IsPow, RoundedTo, P2, Shl, Clz;
    var n := f.Size();
    ghost var w := Wide(f, aMant1, aMant0);
    var l := if aMant1 == 0 then n + Clz(n, aMant0) else Clz(n, aMant1);
    var shift := l - 1;
    if w > 0 {
      WideLen(f, aMant1, aMant0, shift);
    } else {
      ZeroLen(f, aMant1, aMant0);
    }
    if shift < n {
      assert shift > 2 ==> Cmp(x, w * u, v) == 0 by {
        if shift > 2 { P2Mono(2 * n - 1 - shift, 2 * n - 4); }
      }
      var mant := ShiftPair(f, aMant1, aMant0, shift);
      WideNormalized(f, w, shift);
      WideCell(f, w, shift, t, x, u, v);
      // u * 2^(n - shift) is the high-word unit divided by 2^shift
      RescaleWide(f, aExp, shift, u, v);
      r, fl' := RoundPackSf(f, sign, aExp - shift, mant, rm, fl, x, u * P2(n - shift), v);
    } else {
      if w > 0 { P2Mono(2 * n - 1 - shift, 2 * n - 4); }
      var s := shift - n;
      LowNormalized(f, aMant1, aMant0, shift);
      var mant := Shl(f, aMant0, s);
      ghost var c := P2(s);
      CmpScale(x, aMant0 * u, v, c);
      assert aMant0 * u * c == mant * u by { Assoc(aMant0, u, c); Assoc(aMant0, c, u); }
      CellExact(mant, P2(Rnd(f) - 1), x, u, v * c);
      ScaleLow(f, aExp, s, u, v);
      r, fl' := RoundPackSf(f, sign, aExp - shift, mant, rm, fl, x, u, v * c);
    }
  }

  // The jammed high word of a double word shifted left by shift, from its two words.
  method ShiftPair(f: Format, hi: nat, lo: nat, shift: nat) returns (mant: nat)
    requires shift < f.Size() && IsWord(f, lo) && Wide(f, hi, lo) < P2(2 * f.Size() - 1 - shift)
    ensures mant == Jam(Wide(f, hi, lo), P2(f.Size() - shift))
  {
    hide P2, Shl, Wide, OrBit;
    var n := f.Size();
    WideShr(f, hi, lo, n - shift);
    ShlLow(f, lo, shift);
    HighFits(f, hi, lo, shift);
    if shift == 0 {
      P2Small();
      DivUnique(lo, P2(n), 0, lo);
      return OrBit(hi, lo != 0);
    }
    mant := Shl(f, hi, shift) + Shr(lo, n - shift);
    mant := OrBit(mant, Shl(f, lo, shift) != 0);
  }

  lemma ZeroLen(f: Format, hi: nat, lo: nat)
    requires Wide(f, hi, lo) == 0
    ensures hi == 0 && lo == 0 && Clz(f.Size(), lo) == f.Size()
  {
    if hi > 0 { MulMono(1, hi, P2(f.Size())); }
  }

  lemma HighFits(f: Format, hi: nat, lo: nat, shift: nat)
    requires shift < f.Size() && IsWord(f, lo)
    requires Wide(f, hi, lo) < P2(2 * f.Size() - 1 - shift)
    ensures Shl(f, hi, shift) == hi * P2(shift)
  {
    hide P2;
    var n := f.Size();
    P2Add(shift, 2 * n - 1 - shift);
    P2Add(n - 1, n);
    MulStrict(Wide(f, hi, lo), P2(2 * n - 1 - shift), P2(shift));
    Distribute(hi * P2(n), lo, P2(shift));
    MulMono(0, lo, P2(shift));
    assert hi * P2(n) * P2(shift) == hi * P2(shift) * P2(n)
           by { Assoc(hi, P2(n), P2(shift)); Assoc(hi, P2(shift), P2(n)); }
    if hi * P2(shift) >= P2(n - 1) { MulMono(P2(n - 1), hi * P2(shift), P2(n)); }
    P2Mono(n - 1, n);
    ShlFits(f, hi, shift);
  }

  lemma RescaleWide(f: Format, e: int, shift: nat, u: pos, v: pos)
    requires shift <= f.Size()
    requires u * P2(f.Size()) > 0 && Scaled(f, e, u * P2(f.Size()), v)
    ensures u * P2(f.Size() - shift) > 0 && Scaled(f, e - shift, u * P2(f.Size() - shift), v)
  {
    hide IsPow, P2;
    var a, b := P2(f.Size() - shift), P2(shift);
    P2Add(f.Size() - shift, shift);
    Assoc(u, a, b);
    IsPowNat(shift);
    assert u * a > 0;
    IsPowMul(e - 1 - Rnd(f), 0 - shift, u * a * b, v, 1, b);
    IsPowCancel(e - 1 - Rnd(f) - shift, u * a, v, b);
  }

  lemma IsPowCancel(i: int, u: pos, v: pos, c: pos)
    requires u * c > 0 && v * c > 0 && IsPow(i, u * c, v * c)
    ensures IsPow(i, u, v)
  {
    if i >= 0 {
      assert v * c * P2(i) == v * P2(i) * c by { Assoc(v, c, P2(i)); Assoc(v, P2(i), c); }
      Cancel(u, v * P2(i), c);
    } else {
      assert u * c * P2(-i) == u * P2(-i) * c by { Assoc(u, c, P2(-i)); Assoc(u, P2(-i), c); }
      Cancel(u * P2(-i), v, c);
    }
  }

  // A shift by s + size leaves the double-word unit divided by 2^s.
  lemma ScaleLow(f: Format, e: int, s: nat, u: pos, v: pos)
    requires u * P2(f.Size()) > 0 && Scaled(f, e, u * P2(f.Size()), v)
    ensures v * P2(s) > 0 && Scaled(f, e - f.Size() - s, u, v * P2(s))
  {
    hide IsPow, P2;
    RescaleWide(f, e, f.Size(), u, v);
    P2Small();
    assert u * P2(0) == u;
    IsPowNat(s);
    IsPowMul(e - f.Size() - 1 - Rnd(f), 0 - s, u, v, 1, P2(s));
  }

  lemma LowNormalized(f: Format, hi: nat, lo: nat, shift: nat)
    requires shift >= f.Size() && hi == 0 && IsWord(f, lo)
    requires lo > 0 ==> shift < 2 * f.Size() - 1 && P2(2 * f.Size() - 2 - shift) <= lo < P2(2 * f.Size() - 1 - shift)
    ensures Shl(f, lo, shift - f.Size()) == lo * P2(shift - f.Size())
    ensures Normalized(f, lo * P2(shift - f.Size())) && Wide(f, hi, lo) == lo
  {
    hide P2;
    var n, s := f.Size(), shift - f.Size();
    P2Mono(n - 1, n);
    if lo > 0 {
      P2Add(n - 2 - s, s);
      P2Add(n - 1 - s, s);
      MulMono(P2(n - 2 - s), lo, P2(s));
      MulStrict(lo, P2(n - 1 - s), P2(s));
    }
    ShlFits(f, lo, s);
  }

  // ----- operands as normalized double words -----

  // The double word w at exponent e is worth n / 2^UnitExp smallest subnormals.
  ghost predicate Worth(f: Format, n: nat, e: int, w: nat) {
    var i := e - 1 - Rnd(f) - f.Size();
    n * Den(i) == w * Num(i) * P2(UnitExp(f))
  }

  // Leading bit at size - 3 of the high word, and a lowest bit to spare.
  ghost predicate Leading(f: Format, w: nat) {
    P2(2 * f.Size() - 3) <= w < P2(2 * f.Size() - 2) && w % 4 == 0
  }

  // A value stated in one unit u/v == 2^i holds in every such unit.
  lemma WorthIn(n: nat, w: nat, k: nat, i: int, u: pos, v: pos, u': pos, v': pos)
    requires IsPow(i, u, v) && IsPow(i, u', v')
    requires n * v == w * u * k
    ensures n * v' == w * u' * k
  {
    hide P2;
    assert u * v' == u' * v by { SamePow(i, u, v, u', v'); }
    calc {
      n * v' * v;
      { Assoc(n, v', v); Assoc(n, v, v'); }
      w * u * k * v';
      { Assoc(w, u, k); Assoc(w, u * k, v'); Assoc(u, k, v'); Assoc(u, v', k); }
      w * (u * v' * k);
      { assert u' * v * k == u' * k * v by { Assoc(u', v, k); Assoc(u', k, v); } }
      w * (u' * k * v);
      { Assoc(w, u' * k, v); Assoc(w, u', k); }
      w * u' * k * v;
    }
    Cancel(n * v', w * u' * k, v);
  }

  lemma SamePow(i: int, u: pos, v: pos, u': pos, v': pos)
    requires IsPow(i, u, v) && IsPow(i, u', v')
    ensures u * v' == u' * v
  {
    if i >= 0 {
      assert v * P2(i) * v' == v' * P2(i) * v by { Assoc(v, P2(i), v'); Assoc(v', P2(i), v); }
    } else {
      assert u * (u' * P2(-i)) == u' * (u * P2(-i)) by { Assoc(u, u', P2(-i)); Assoc(u', u, P2(-i)); }
    }
  }

  // The exact product, before or after its one-bit normalization (c of 2 Rnd or 2 Rnd + 1).
  lemma ProductWorth(f: Format, ma: nat, ea: int, sa: nat, mb: nat, eb: int, sb: nat, c: nat)
    requires NormOf(f, ma, ea, sa) && NormOf(f, mb, eb, sb)
    ensures Worth(f, Times(ma, mb), ea + eb - P2(f.exp - 1) + 3 + 2 * Rnd(f) - c, sa * sb * P2(c))
  {
    hide P2, IsPow;
    var na, nb, da, db := Num(ea - 1), Num(eb - 1), Den(ea - 1), Den(eb - 1);
    var k := P2(UnitExp(f));
    ProductExact(ma, na, da, sa, mb, nb, db, sb, k, P2(c));
    IsPowBase(ea - 1);
    IsPowBase(eb - 1);
    IsPowMul(ea - 1, eb - 1, na, da, nb, db);
    P2Add(UnitExp(f), c);
    IsPowNat(UnitExp(f) + c);
    IsPowMul(ea + eb - 2, 0 - (UnitExp(f) + c), na * nb, da * db, 1, k * P2(c));
    var i := ea + eb - 2 - (UnitExp(f) + c);
    IsPowBase(i);
    WorthIn(ma * mb, sa * sb * P2(c), k, i, na * nb, da * db * (k * P2(c)), Num(i), Den(i));
  }

  lemma AddendWorth(f: Format, mc: nat, ec: int, sc: nat)
    requires NormOf(f, mc, ec, sc)
    ensures Worth(f, Times(mc, P2(UnitExp(f))), ec + 1, Wide(f, sc * P2(Rnd(f) - 1), 0))
  {
    hide P2, IsPow;
    var nc, dc, k := Num(ec - 1), Den(ec - 1), P2(UnitExp(f));
    var c := Rnd(f) - 1 + f.Size();
    P2Add(Rnd(f) - 1, f.Size());
    Assoc(sc, P2(Rnd(f) - 1), P2(f.Size()));
    IsPowBase(ec - 1);
    IsPowNat(c);
    IsPowMul(ec - 1, 0 - c, nc, dc, 1, P2(c));
    IsPowBase(ec - 1 - c);
    assert mc * k * (dc * P2(c)) == sc * P2(c) * nc * k by {
      Comm4(mc, k, dc, P2(c));
      Comm4(sc, nc, k, P2(c));
      Assoc(sc, k, nc * P2(c));
      assert sc * nc * (k * P2(c)) == sc * P2(c) * nc * k by {
        Assoc(sc, nc, k * P2(c));
        Assoc(sc, P2(c), nc);
        Assoc(sc, P2(c) * nc, k);
        assert nc * (k * P2(c)) == P2(c) * nc * k by { Assoc(nc, k, P2(c)); Assoc(P2(c), nc, k); }
      }
    }
    WorthIn(mc * k, sc * P2(c), k, ec - 1 - c, nc, dc * P2(c), Num(ec - 1 - c), Den(ec - 1 - c));
  }

  // ----- aligning and adding -----

  // The smaller operand in the units of the larger one, shift exponents above.
  lemma AlignedWorth(f: Format, nb: nat, eb: int, b: nat, ns: nat, es: int, s: nat)
    returns (u: pos, v: pos)
    requires Worth(f, nb, eb, b) && Worth(f, ns, es, s) && es <= eb
    ensures var c, k := P2(eb - es), P2(UnitExp(f));
      && c * u > 0 && v * c > 0 && c * u * P2(f.Size()) > 0
      && nb * (v * c) == b * (c * u) * k && ns * (v * c) == s * u * k
      && Scaled(f, eb, c * u * P2(f.Size()), v * c)
  {
    hide P2, IsPow;
    var i, c, k := eb - 1 - Rnd(f) - f.Size(), P2(eb - es), P2(UnitExp(f));
    u, v := Num(i), Den(i);
    assert c * u > 0 && v * c > 0;
    IsPowBase(i);
    IsPowBase(i - (eb - es));
    IsPowNat(eb - es);
    IsPowNat(f.Size());
    IsPowScale(i, u, v, c);
    assert c * v == v * c;
    WorthIn(nb, b, k, i, u, v, c * u, v * c);
    IsPowMul(i, 0 - (eb - es), u, v, 1, c);
    WorthIn(ns, s, k, i - (eb - es), Num(i - (eb - es)), Den(i - (eb - es)), u, v * c);
    IsPowMul(i, f.Size(), c * u, v * c, P2(f.Size()), 1);
  }

  // The exact sum in the cell of b +- j, where j is the jammed smaller operand.
  lemma FmaSumCell(b: nat, s: nat, c: pos, j: nat, minus: bool, x: Exact, u: pos, v: pos)
    requires j == Jam(s, c) && b % 2 == 0 && s <= b * c
    requires minus ==> j <= b
    requires c * u > 0
    requires x.Ratio? && x.n * v == (if minus then b * (c * u) - s * u else b * (c * u) + s * u) * x.d
    ensures var m := if minus then b - j else b + j;
      if s % c == 0 then Cmp(x, m * (c * u), v) == 0 else m % 2 == 1 && Cell(m, 2, x, c * u, v)
  {
    hide Cell, Cmp;
    JamStands(s, c, u);
    assert s * u <= b * (c * u) by { MulMono(s, b * c, u); Assoc(b, c, u); }
    SumCell(b, j, s * u, c * u, s % c == 0, minus, x, v);
  }

  lemma RatioBetween(x: Exact, lo: nat, y: nat, hi: nat, v: pos)
    requires x.Ratio? && x.n * v == y * x.d && lo < y < hi
    ensures Cmp(x, lo, v) > 0 && Cmp(x, hi, v) < 0
  {
    MulStrict(lo, y, x.d);
    MulStrict(y, hi, x.d);
  }

  lemma FarBetween(b1: nat, n: nat, t: nat, e: nat, minus: bool) returns (y: nat)
    requires 0 < e < n * t && (minus ==> b1 >= 1)
    ensures y == if minus then b1 * n * t - e else b1 * n * t + e
    ensures var h := if minus then b1 - 1 else b1; h * n * t < y < (h + 1) * n * t
  {
    var h: nat := if minus then b1 - 1 else b1;
    Distribute(h, 1, n);
    Distribute(h * n, n, t);
    y := if minus then b1 * n * t - e else b1 * n * t + e;
  }

  // With the low word of the larger operand zero, any 0 < j < 2^size has the exact
  // sum in its cell: that is why fma_sf may drop the low word of a far smaller product.
  lemma FmaFarCell(n: pos, b1: nat, s: nat, c: pos, j: nat, minus: bool, x: Exact, u: pos, v: pos)
    requires 0 < j < n && 0 < s < n * c && c * u > 0
    requires minus ==> b1 >= 1
    requires x.Ratio? && x.n * v == (if minus then b1 * n * (c * u) - s * u else b1 * n * (c * u) + s * u) * x.d
    ensures Cell(if minus then b1 * n - j else b1 * n + j, n, x, c * u, v)
  {
    hide Cell, Cmp;
    var t := c * u;
    assert 0 < s * u < n * t by { MulStrict(0, s, u); MulStrict(s, n * c, u); Assoc(n, c, u); }
    var h := if minus then b1 - 1 else b1;
    var y := FarBetween(b1, n, t, s * u, minus);
    Distribute(b1, 1, n);
    RatioBetween(x, h * n * t, y, (h + 1) * n * t, v);
    CellOf(if minus then b1 * n - j else b1 * n + j, n, x, t, v, h, if minus then n - j else j);
  }

  // The jammed smaller operand is small: no cancellation once a bit is lost.
  lemma JamSmall(f: Format, b: nat, s: nat, shift: nat)
    requires Leading(f, b) && Leading(f, s) && (shift == 0 ==> s <= b)
    ensures var j := Jam(s, P2(shift));
      && 0 < j <= b && s <= b * P2(shift)
      && b + j < P2(2 * f.Size() - 1)
      && (s % P2(shift) != 0 ==> P2(2 * f.Size() - 4) <= b - j)
  {
    hide P2, Jam;
    var n := 2 * f.Size() - 4;
    P2Small();
    P2Add(1, n);
    P2Add(2, n);
    P2Add(3, n);
    P2Add(1, n - 1);
    if shift >= 2 { P2Mono(2, shift); }
    JamSmallBy(P2(n - 1), P2(n), b, s, P2(shift));
  }

  lemma JamSmallBy(h: pos, n: pos, b: nat, s: nat, c: pos)
    requires 2 * n <= b < 4 * n && 2 * n <= s < 4 * n && s % 4 == 0 && n == 2 * h
    requires c == 1 || c == 2 || 4 <= c
    requires c == 1 ==> s <= b
    ensures var j := Jam(s, c);
      && 0 < j <= b && s <= b * c
      && b + j < 8 * n
      && (s % c != 0 ==> n <= b - j)
  {
    if c == 1 {
      assert s / 1 == s && s % 1 == 0;
    } else if c >= 4 {
      MulMono(4, c, b);
      DivMod(s, c);
      var q := s / c;
      assert q < n by { MulMono(4, c, n); DivLt(s, c, n); }
      if q == 0 { assert s % c == s; }
    }
  }

  // The right shift of the smaller operand, as fma_sf does it on two words. For
  // shifts above size it ignores the low word.
  method AlignSmaller(f: Format, c1: nat, c0: nat, shift: nat) returns (d1: nat, d0: nat)
    requires IsWord(f, c1) && IsWord(f, c0)
    ensures IsWord(f, d0) && d1 <= c1
    ensures shift <= f.Size() || c0 == 0 ==> Wide(f, d1, d0) == Jam(Wide(f, c1, c0), P2(shift))
    ensures shift > f.Size() ==> d1 == 0 && (c1 > 0 ==> 0 < d0)
  {
    hide P2, Jam;
    var n := f.Size();
    d1, d0 := c1, c0;
    ghost var w := Wide(f, c1, c0);
    if shift >= 2 * n {
      d0 := if c0 != 0 || c1 != 0 then 1 else 0;
      d1 := 0;
      FarJam(f, c1, c0, shift);
      P2Small();
      P2Mono(1, n);
    } else if shift >= n + 1 {
      d0 := RShiftRnd(f, c1, shift - n);
      d1 := 0;
      JamPositive(c1, P2(shift - n));
      HighJam(f, c1, shift);
    } else if shift == n {
      d0 := OrBit(c1, c0 != 0);
      d1 := 0;
      JamWords(f, c1, c0);
      OrBitWord(f, c1, c0 != 0);
    } else if shift != 0 {
      WideShr(f, c1, c0, shift);
      SplitHigh(f, c1, c0, shift);
      d0 := OrBit(Shl(f, c1, n - shift) + Shr(c0, shift), c0 % P2(shift) != 0);
      d1 := Shr(c1, shift);
    } else {
      JamOne(w);
    }
  }

  lemma JamOne(w: nat)
    ensures Jam(w, P2(0)) == w
  {
    P2Small();
    assert w / 1 == w && w % 1 == 0;
  }

  lemma JamPositive(w: nat, c: pos)
    ensures w > 0 ==> Jam(w, c) > 0
  {
    DivMod(w, c);
  }

  lemma FarJam(f: Format, c1: nat, c0: nat, shift: nat)
    requires IsWord(f, c1) && IsWord(f, c0) && shift >= 2 * f.Size()
    ensures Jam(Wide(f, c1, c0), P2(shift)) == if c1 == 0 && c0 == 0 then 0 else 1
  {
    hide P2;
    var n, w := P2(f.Size()), Wide(f, c1, c0);
    MulMono(c1 + 1, n, n);
    Distribute(c1, 1, n);
    if c1 > 0 { MulMono(1, c1, n); }
    P2Add(f.Size(), f.Size());
    P2Mono(2 * f.Size(), shift);
    DivUnique(w, P2(shift), 0, w);
  }

  lemma HighJam(f: Format, c1: nat, shift: nat)
    requires shift > f.Size()
    ensures Jam(Wide(f, c1, 0), P2(shift)) == Jam(c1, P2(shift - f.Size()))
  {
    hide P2;
    var n, c := P2(f.Size()), P2(shift - f.Size());
    P2Add(f.Size(), shift - f.Size());
    DivMod(c1, c);
    MulStrict(c1 % c, c, n);
    Distribute(c1 / c * c, c1 % c, n);
    Assoc(c1 / c, c, n);
    DivUnique(c1 * n, c * n, c1 / c, c1 % c * n);
    if c1 % c != 0 { MulMono(1, c1 % c, n); }
  }

  lemma OrBitWord(f: Format, x: nat, c: bool)
    requires IsWord(f, x)
    ensures IsWord(f, OrBit(x, c))
  {
    assert P2(f.Size()) == 2 * P2(f.Size() - 1);
  }

  // 0 < shift < size: the two words of the shifted double word.
  lemma SplitHigh(f: Format, c1: nat, c0: nat, shift: nat)
    requires 0 < shift < f.Size() && IsWord(f, c1) && IsWord(f, c0)
    ensures var d1, d0 := c1 / P2(shift), OrBit(Shl(f, c1, f.Size() - shift) + c0 / P2(shift), c0 % P2(shift) != 0);
      && 0 <= d1 <= c1 && 0 <= c0 / P2(shift) && IsWord(f, d0)
      && Wide(f, d1, d0) == Jam(Wide(f, c1, c0), P2(shift))
  {
    hide P2, Shl;
    var n, e := f.Size(), f.Size() - shift;
    var c := P2(shift);
    P2Add(shift, e);
    WideShr(f, c1, c0, shift);
    ShlLow(f, c1, e);
    DivMod(c1, c);
    var t, q := c1 % c, c1 / c;
    var low := t * P2(e) + c0 / c;
    TailBelow(t, c, P2(e), c0 / c);
    assert q * (c * P2(e)) + t * P2(e) == c1 * P2(e) by { Distribute(q * c, t, P2(e)); Assoc(q, c, P2(e)); }
    assert Wide(f, c1, c0) / c == Wide(f, q, low);
    assert q <= c1 by { MulMono(1, c, q); }
    OrBitWord(f, low, c0 % c != 0);
    EvenWide(f, q, low, c0 % c != 0);
  }

  lemma TailBelow(t: nat, c: pos, e: pos, q: nat)
    requires t < c && q < e
    ensures 0 <= t * e + q < c * e
  {
    MulMono(t, c - 1, e);
    Distribute(c, 1, e);
    MulMono(0, t, e);
  }

  lemma EvenWide(f: Format, hi: nat, lo: nat, c: bool)
    ensures OrBit(Wide(f, hi, lo), c) == Wide(f, hi, OrBit(lo, c))
  {
    var z := hi * P2(f.Size() - 1);
    assert hi * P2(f.Size()) == 2 * z by { Assoc(hi, 2, P2(f.Size() - 1)); }
    AddEven(z, lo);
  }

  // ----- the two-word sum -----

  method AddWords(f: Format, r1: nat, r0: nat, c1: nat, c0: nat) returns (s1: nat, s0: nat)
    requires IsWord(f, r0) && IsWord(f, c0)
    requires Wide(f, r1, r0) + Wide(f, c1, c0) < P2(2 * f.Size() - 1)
    ensures Wide(f, s1, s0) == Wide(f, r1, r0) + Wide(f, c1, c0)
    ensures IsWord(f, s0) && s1 < P2(f.Size() - 1)
  {
    s0 := (r0 + c0) % P2(f.Size());
    s1 := r1 + c1 + (if s0 < c0 then 1 else 0);
    CarryOut(f, r1, r0, c1, c0);
    HighBelowHalf(f, s1, s0);
  }

  lemma CarryOut(f: Format, r1: nat, r0: nat, c1: nat, c0: nat)
    requires IsWord(f, r0) && IsWord(f, c0)
    ensures var s0 := (r0 + c0) % P2(f.Size());
      && 0 <= s0 < P2(f.Size())
      && Wide(f, r1 + c1 + (if s0 < c0 then 1 else 0), s0) == Wide(f, r1, r0) + Wide(f, c1, c0)
  {
    hide P2;
    var n := P2(f.Size());
    var c := if r0 + c0 >= n then 1 else 0;
    DivUnique(r0 + c0, n, c, r0 + c0 - c * n);
    Distribute(r1, c1, n);
    Distribute(r1 + c1, 1, n);
  }

  lemma HighBelowHalf(f: Format, hi: nat, lo: nat)
    requires Wide(f, hi, lo) < P2(2 * f.Size() - 1)
    ensures hi < P2(f.Size() - 1)
  {
    hide P2;
    P2Add(f.Size() - 1, f.Size());
    if hi >= P2(f.Size() - 1) { MulMono(P2(f.Size() - 1), hi, P2(f.Size())); }
  }

  method SubWords(f: Format, r1: nat, r0: nat, c1: nat, c0: nat) returns (s1: nat, s0: nat)
    requires IsWord(f, r0) && IsWord(f, c0)
    requires Wide(f, c1, c0) <= Wide(f, r1, r0) < P2(2 * f.Size() - 1)
    ensures Wide(f, s1, s0) == Wide(f, r1, r0) - Wide(f, c1, c0)
    ensures IsWord(f, s0) && s1 < P2(f.Size() - 1)
  {
    s0 := if r0 >= c0 then r0 - c0 else r0 - c0 + P2(f.Size());
    BorrowOut(f, r1, r0, c1, c0, s0);
    s1 := r1 - c1 - (if s0 > r0 then 1 else 0);
    HighBelowHalf(f, s1, s0);
  }

  lemma BorrowOut(f: Format, r1: nat, r0: nat, c1: nat, c0: nat, s0: nat)
    requires IsWord(f, r0) && IsWord(f, c0)
    requires Wide(f, c1, c0) <= Wide(f, r1, r0)
    requires s0 == if r0 >= c0 then r0 - c0 else r0 - c0 + P2(f.Size())
    ensures var t := r1 - c1 - (if s0 > r0 then 1 else 0);
      t >= 0 && Wide(f, t, s0) == Wide(f, r1, r0) - Wide(f, c1, c0) && IsWord(f, s0)
  {
    hide P2;
    var n := P2(f.Size());
    var b := if s0 > r0 then 1 else 0;
    if r1 < c1 + b { MulMono(r1, c1 + b - 1, n); Distribute(c1 + b, 1, n); Distribute(c1, b, n); }
    Distribute(r1, c1 + b, n);
    Distribute(c1, b, n);
  }

  // ----- fma_sf on finite operands -----

  // The exact product as a double word with its leading bit at size - 3.
  method FmaProduct(f: Format, ghost ma: nat, ea: int, sa: nat, ghost mb: nat, eb: int, sb: nat)
    returns (rExp: int, r1: nat, r0: nat)
    requires NormOf(f, ma, ea, sa) && NormOf(f, mb, eb, sb)
    ensures IsWord(f, r0) && Leading(f, Wide(f, r1, r0))
    ensures Worth(f, Times(ma, mb), rExp, Wide(f, r1, r0))
  {
    hide P2, Worth, Shl;
    rExp := ea + eb - P2(f.exp - 1) + 3;
    ShiftFits(f, sa, Rnd(f));
    ShiftFits(f, sb, Rnd(f));
    r1, r0 := MulU(f, Shl(f, sa, Rnd(f)), Shl(f, sb, Rnd(f)));
    ProductLeading(f, sa, sb, r1, r0);
    if r1 < P2(f.Size() - 3) {
      DoubleWords(f, r1, r0);
      ProductWorth(f, ma, ea, sa, mb, eb, sb, 2 * Rnd(f) + 1);
      r1 := Shl(f, r1, 1) + Shr(r0, f.Size() - 1);
      r0 := Shl(f, r0, 1);
      rExp := rExp - 1;
    } else {
      ProductWorth(f, ma, ea, sa, mb, eb, sb, 2 * Rnd(f));
    }
  }

  lemma ProductLeading(f: Format, sa: nat, sb: nat, r1: nat, r0: nat)
    requires P2(f.mant) <= sa < 2 * P2(f.mant) && P2(f.mant) <= sb < 2 * P2(f.mant)
    requires IsWord(f, r0)
    requires Wide(f, r1, r0) == sa * P2(Rnd(f)) * (sb * P2(Rnd(f)))
    ensures Wide(f, r1, r0) == sa * sb * P2(2 * Rnd(f)) && 2 * Wide(f, r1, r0) == sa * sb * P2(2 * Rnd(f) + 1)
    ensures r1 >= P2(f.Size() - 3) ==> Leading(f, Wide(f, r1, r0))
    ensures r1 < P2(f.Size() - 3) ==> Leading(f, 2 * Wide(f, r1, r0)) && Wide(f, r1, r0) < P2(2 * f.Size() - 3)
  {
    hide P2, Wide;
    var n, c, w := f.Size(), 2 * Rnd(f), Wide(f, r1, r0);
    P2Small();
    P2Add(Rnd(f), Rnd(f));
    Comm4(sa, P2(Rnd(f)), sb, P2(Rnd(f)));
    P2Add(1, c);
    assert 2 * w == sa * sb * P2(c + 1) by { Assoc(sa * sb, P2(c), 2); }
    ProductRange(f, sa, sb, c);
    P2Add(1, 2 * n - 4);
    P2Add(1, 2 * n - 3);
    P2Add(2, c - 2);
    MultipleOf4(sa * sb, P2(c - 2));
    HighHalf(f, r1, r0, n - 3);
  }

  lemma HighHalf(f: Format, hi: nat, lo: nat, i: nat)
    requires IsWord(f, lo)
    ensures hi >= P2(i) <==> Wide(f, hi, lo) >= P2(f.Size() + i)
  {
    hide P2;
    P2Add(i, f.Size());
    if hi >= P2(i) {
      MulMono(P2(i), hi, P2(f.Size()));
    } else {
      MulMono(hi + 1, P2(i), P2(f.Size()));
      Distribute(hi, 1, P2(f.Size()));
    }
  }

  lemma MultipleOf4(a: nat, b: nat)
    ensures a * (4 * b) % 4 == 0 && 2 * (a * (4 * b)) % 4 == 0
  {
    var z := a * b;
    assert a * (4 * b) == 4 * z;
  }

  lemma DoubleWords(f: Format, r1: nat, r0: nat)
    requires IsWord(f, r0) && r1 < P2(f.Size() - 3)
    ensures Wide(f, Shl(f, r1, 1) + Shr(r0, f.Size() - 1), Shl(f, r0, 1)) == 2 * Wide(f, r1, r0)
    ensures IsWord(f, Shl(f, r0, 1)) && 0 <= Shr(r0, f.Size() - 1)
  {
    hide P2;
    var n := f.Size();
    P2Small();
    P2Add(1, n - 1);
    P2Add(1, n - 3);
    P2Mono(n - 2, n);
    ShlFits(f, r1, 1);
    DivMod(r0, P2(n - 1));
    DivMod(r0 * 2, P2(n));
    ShlLow(f, r0, 1);
    assert r0 / P2(n - 1) * P2(n) + r0 % P2(n - 1) * 2 == 2 * r0 by { Assoc(r0 / P2(n - 1), 2, P2(n - 1)); }
    Distribute(r1 * 2, r0 / P2(n - 1), P2(n));
    Assoc(2, r1, P2(n));
  }

  lemma SumCommutes(f: Format, rm: Rounding, s: bit, m: nat, t: bit, n: nat, d: pos)
    ensures RoundedSum(f, rm, s, m, t, n, d) == RoundedSum(f, rm, t, n, s, m, d)
  {
    hide RoundedTo;
  }

  // Everything normalize2_sf needs to know about the aligned sum w of b and s.
  lemma FmaFacts(f: Format, nb: nat, be: int, b1: nat, b0: nat, ns: nat, se: int, s1: nat, s0: nat,
                 j: nat, minus: bool)
    returns (x: Exact, t: nat, u: pos, v: pos)
    requires Worth(f, nb, be, Wide(f, b1, b0)) && Worth(f, ns, se, Wide(f, s1, s0))
    requires Leading(f, Wide(f, b1, b0)) && Leading(f, Wide(f, s1, s0))
    requires se <= be && (se == be ==> Wide(f, s1, s0) <= Wide(f, b1, b0)) && (b0 == 0 || s0 == 0)
    requires be - se <= f.Size() || s0 == 0 ==> j == Jam(Wide(f, s1, s0), P2(be - se))
    requires be - se > f.Size() ==> 0 < j < P2(f.Size())
    ensures ns <= nb && j <= Wide(f, b1, b0) && Wide(f, b1, b0) + j < P2(2 * f.Size() - 1)
    ensures x == Ratio(if minus then nb - ns else nb + ns, P2(UnitExp(f)))
    ensures var w := if minus then Wide(f, b1, b0) - j else Wide(f, b1, b0) + j;
      && (Cmp(x, w * u, v) == 0 || (Cell(w, P2(t), x, u, v) && t <= f.Size() && P2(2 * f.Size() - 4) <= w))
      && (minus ==> (w == 0 <==> nb == ns))
    ensures u * P2(f.Size()) > 0 && Scaled(f, be, u * P2(f.Size()), v)
  {
    hide P2, Jam, Cell, Cmp, Scaled, Worth, Wide, Leading;
    var b, s, c, k := Wide(f, b1, b0), Wide(f, s1, s0), P2(be - se), P2(UnitExp(f));
    var u0, v0 := AlignedWorth(f, nb, be, b, ns, se, s);
    JamSmall(f, b, s, be - se);
    u, v := c * u0, v0 * c;
    OrderWorth(nb, ns, b, s, c, u0, k, v);
    x := Ratio(if minus then nb - ns else nb + ns, k);
    DifferenceWorth(nb, ns, v, b * (c * u0), s * u0, k, minus);
    if be - se <= f.Size() || s0 == 0 {
      t := 1;
      NearFacts(f, b, s, c, j, minus, x, u0, v);
    } else {
      t := f.Size();
      FarBounds(f, b1, s, be - se, j);
      FarFacts(f, b1, b, s, c, j, minus, x, u0, v);
    }
  }

  lemma FarFacts(f: Format, b1: nat, b: nat, s: nat, c: pos, j: nat, minus: bool, x: Exact, u: pos, v: pos)
    requires b == Wide(f, b1, 0) && b1 >= 1 && 0 < j < P2(f.Size()) && 0 < s < P2(f.Size()) * c && c * u > 0 && j <= b
    requires x.Ratio? && x.n * v == (if minus then b * (c * u) - s * u else b * (c * u) + s * u) * x.d
    ensures Cell(if minus then b - j else b + j, P2(f.Size()), x, c * u, v)
  {
    hide P2, Cell;
    FmaFarCell(P2(f.Size()), b1, s, c, j, minus, x, u, v);
  }

  lemma NearFacts(f: Format, b: nat, s: nat, c: pos, j: nat, minus: bool, x: Exact, u: pos, v: pos)
    requires Leading(f, b) && j == Jam(s, c) && s <= b * c && j <= b && c * u > 0
    requires s % c != 0 ==> P2(2 * f.Size() - 4) <= b - j
    requires x.Ratio? && x.n * v == (if minus then b * (c * u) - s * u else b * (c * u) + s * u) * x.d
    ensures var w := if minus then b - j else b + j;
      && (Cmp(x, w * (c * u), v) == 0 || (Cell(w, P2(1), x, c * u, v) && P2(2 * f.Size() - 4) <= w))
      && (minus ==> (w == 0 <==> s == b * c))
  {
    hide P2, Jam, Cell, Cmp;
    P2Small();
    FmaSumCell(b, s, c, j, minus, x, u, v);
    ZeroDifference(b, s, c);
    P2Mono(2 * f.Size() - 4, 2 * f.Size() - 3);
  }

  lemma DifferenceWorth(nb: nat, ns: nat, v: nat, p: nat, q: nat, k: nat, minus: bool)
    requires nb * v == p * k && ns * v == q * k
    ensures (if minus then nb - ns else nb + ns) * v == (if minus then p - q else p + q) * k
  {
    Distribute(nb, ns, v);
    Distribute(p, q, k);
  }

  lemma OrderWorth(nb: nat, ns: nat, b: nat, s: nat, c: pos, u: pos, k: pos, v: pos)
    requires nb * v == b * (c * u) * k && ns * v == s * u * k && s <= b * c
    ensures ns <= nb && (ns == nb <==> s == b * c)
  {
    Assoc(b, c, u);
    MulMono(s, b * c, u);
    MulMono(s * u, b * c * u, k);
    if ns > nb { MulStrict(nb, ns, v); }
    if s < b * c {
      MulStrict(s, b * c, u);
      MulStrict(s * u, b * c * u, k);
    } else if ns != nb {
      Cancel(ns, nb, v);
    }
  }

  lemma ZeroDifference(b: nat, s: nat, c: pos)
    requires Jam(s, c) <= b
    ensures s % c == 0 ==> (Jam(s, c) == b <==> s == b * c)
    ensures s == b * c ==> s % c == 0
  {
    JamBounds(s, c);
    if s == b * c { DivUnique(s, c, b, 0); }
    if s % c == 0 && Jam(s, c) != b { MulStrict(Jam(s, c), b, c); }
  }

  lemma FarBounds(f: Format, b1: nat, s: nat, shift: nat, j: nat)
    requires Leading(f, Wide(f, b1, 0)) && Leading(f, s)
    requires shift > f.Size() && 0 < j < P2(f.Size())
    ensures b1 >= 1 && 0 < s < P2(f.Size()) * P2(shift) && s < Wide(f, b1, 0) * P2(shift)
    ensures P2(2 * f.Size() - 4) <= Wide(f, b1, 0) - j && Wide(f, b1, 0) + j < P2(2 * f.Size() - 1)
  {
    hide P2;
    var n, b := f.Size(), Wide(f, b1, 0);
    P2Small();
    P2Mono(n, shift);
    P2Add(n, n);
    P2Add(2, 2 * n - 2);
    P2Add(1, 2 * n - 2);
    P2Add(1, 2 * n - 4);
    P2Add(1, 2 * n - 3);
    P2Mono(n, 2 * n - 4);
    MulMono(P2(n), P2(shift), P2(n));
    MulMono(P2(n), P2(shift), b);
    MulMono(2, P2(n), b) by { P2Mono(1, n); }
  }

  // Aligns, adds or subtracts and rounds two operands, the larger one first.
  method FmaAdd(f: Format, rSign0: bit, rExp: int, r1: nat, r0: nat, cSign: bit, cExp: int, c1: nat, c0: nat,
                rm: Rounding, fl: Flags, ghost nr: nat, ghost nc: nat)
    returns (r: nat, fl': Flags)
    requires IsWord(f, r0) && IsWord(f, c0)
    requires Worth(f, nr, rExp, Wide(f, r1, r0)) && Worth(f, nc, cExp, Wide(f, c1, c0))
    requires Leading(f, Wide(f, r1, r0)) && Leading(f, Wide(f, c1, c0))
    requires cExp <= rExp && (cExp == rExp ==> Wide(f, c1, c0) <= Wide(f, r1, r0)) && (r0 == 0 || c0 == 0)
    ensures var o := RoundedSum(f, rm, rSign0, nr, cSign, nc, P2(UnitExp(f)));
      r == o.bits && fl' == Raise(fl, o.flags)
  {
    hide P2, Jam, Cell, Cmp, IsPow, Worth, RoundedTo, Leading;
    LeadingHigh(f, c1, c0);
    var shift := rExp - cExp;
    var d1, d0 := AlignSmaller(f, c1, c0, shift);
    ghost var j := Wide(f, d1, d0);
    ghost var x, t, u, v := FmaFacts(f, nr, rExp, r1, r0, nc, cExp, c1, c0, j, rSign0 != cSign);
    var rSign := rSign0;
    var m1, m0;
    if rSign == cSign {
      m1, m0 := AddWords(f, r1, r0, d1, d0);
    } else {
      m1, m0 := SubWords(f, r1, r0, d1, d0);
      if m0 == 0 && m1 == 0 {
        // an exact zero takes its sign from the mode
        rSign := if rm == RDN then 1 else 0;
      }
      WideZero(f, m1, m0);
    }
    r, fl' := Normalize2Sf(f, rSign, rExp, m1, m0, rm, fl, t, x, u, v);
  }

  lemma WideZero(f: Format, hi: nat, lo: nat)
    ensures Wide(f, hi, lo) == 0 <==> hi == 0 && lo == 0
  {
    if hi > 0 { MulMono(1, hi, P2(f.Size())); }
  }

  lemma LeadingHigh(f: Format, hi: nat, lo: nat)
    requires Leading(f, Wide(f, hi, lo)) && IsWord(f, lo)
    ensures 0 < hi && IsWord(f, hi)
  {
    hide P2;
    HighHalf(f, hi, lo, f.Size() - 3);
    HighHalf(f, hi, lo, f.Size() - 2);
    P2Mono(f.Size() - 2, f.Size());
  }

  // The product plus a finite addend.
  method FmaFinite(f: Format, rSign: bit, ghost ma: nat, ea: int, sa: nat, ghost mb: nat, eb: int, sb: nat,
                   cSign: bit, cZero: bool, ghost mc: nat, ec: int, sc: nat, rm: Rounding, fl: Flags)
    returns (r: nat, fl': Flags)
    requires ma > 0 && mb > 0
    requires NormOf(f, ma, ea, sa) && NormOf(f, mb, eb, sb)
    requires if cZero then mc == 0 else NormOf(f, mc, ec, sc)
    ensures var k := P2(UnitExp(f));
      var o := RoundedSum(f, rm, rSign, Times(ma, mb), cSign, Times(mc, k), k);
      r == o.bits && fl' == Raise(fl, o.flags)
  {
    hide P2, Cell, Cmp, IsPow, Worth, RoundedTo, Leading, RoundedSum;
    var rExp, r1, r0 := FmaProduct(f, ma, ea, sa, mb, eb, sb);
    ghost var k := P2(UnitExp(f));
    if cZero {
      // add zero
      ghost var x, u, v := ProductFacts(f, Times(ma, mb), rExp, r1, r0);
      SumWithZero(f, rm, rSign, ma, mb, cSign, k);
      r, fl' := NormalizeSf(f, rSign, rExp, OrBit(r1, r0 != 0), rm, fl, 1, x, u, v);
      return;
    }
    AddendWorth(f, mc, ec, sc);
    AddendLeading(f, sc);
    var cExp, c1, c0 := ec + 1, Shl(f, sc, Rnd(f) - 1), 0;
    LargerWide(f, r1, r0, c1);
    // the larger magnitude first
    if !(rExp > cExp || (rExp == cExp && r1 >= c1)) {
      SumCommutes(f, rm, rSign, Times(ma, mb), cSign, Times(mc, k), k);
      r, fl' := FmaAdd(f, cSign, cExp, c1, c0, rSign, rExp, r1, r0, rm, fl, Times(mc, k), Times(ma, mb));
    } else {
      r, fl' := FmaAdd(f, rSign, rExp, r1, r0, cSign, cExp, c1, c0, rm, fl, Times(ma, mb), Times(mc, k));
    }
  }

  lemma LargerWide(f: Format, r1: nat, r0: nat, c1: nat)
    requires IsWord(f, r0)
    ensures r1 >= c1 ==> Wide(f, c1, 0) <= Wide(f, r1, r0)
    ensures r1 < c1 ==> Wide(f, r1, r0) <= Wide(f, c1, 0)
  {
    hide P2;
    if r1 >= c1 {
      MulMono(c1, r1, P2(f.Size()));
    } else {
      MulMono(r1 + 1, c1, P2(f.Size()));
      Distribute(r1, 1, P2(f.Size()));
    }
  }

  lemma AddendLeading(f: Format, sc: nat)
    requires P2(f.mant) <= sc < 2 * P2(f.mant)
    ensures Shl(f, sc, Rnd(f) - 1) == sc * P2(Rnd(f) - 1)
    ensures Leading(f, Wide(f, sc * P2(Rnd(f) - 1), 0))
  {
    hide P2;
    var n, c := f.Size(), Rnd(f) - 1;
    P2Small();
    ShiftFits(f, sc, c);
    P2Add(f.mant, c);
    P2Add(f.mant + 1, c);
    P2Add(1, f.mant);
    MulMono(P2(f.mant), sc, P2(c));
    MulStrict(sc, 2 * P2(f.mant), P2(c));
    P2Add(n - 3, n);
    P2Add(n - 2, n);
    MulMono(P2(n - 3), sc * P2(c), P2(n));
    MulStrict(sc * P2(c), P2(n - 2), P2(n));
    P2Add(2, n - 2);
    MultipleOf4(sc * P2(c), P2(n - 2));
  }

  // The product alone: its high word jammed with its low word.
  lemma ProductFacts(f: Format, n: nat, e: int, r1: nat, r0: nat) returns (x: Exact, u: pos, v: pos)
    requires IsWord(f, r0) && Leading(f, Wide(f, r1, r0)) && Worth(f, n, e, Wide(f, r1, r0))
    ensures x == Ratio(n, P2(UnitExp(f)))
    ensures Scaled(f, e, u, v) && Cell(OrBit(r1, r0 != 0), P2(1), x, u, v)
    ensures P2(f.mant + 1 + 1) <= OrBit(r1, r0 != 0) < P2(f.Size() - 1)
  {
    hide P2, Cell, IsPow;
    var i, w, z := e - 1 - Rnd(f) - f.Size(), Wide(f, r1, r0), P2(f.Size());
    x := Ratio(n, P2(UnitExp(f)));
    v := Den(i);
    P2Small();
    assert Cmp(x, w * Num(i), v) == 0;
    CellExact(w, 2 * z, x, Num(i), v);
    CellShr(w, 2, z, x, Num(i), v);
    JamWords(f, r1, r0);
    u := Num(i) * z;
    IsPowBase(i);
    IsPowNat(f.Size());
    IsPowMul(i, f.Size(), Num(i), Den(i), z, 1);
    HighHalf(f, r1, r0, f.Size() - 3);
    HighHalf(f, r1, r0, f.Size() - 2);
    P2Mono(f.mant + 2, f.Size() - 3);
    P2Add(1, f.Size() - 3);
    P2Add(1, f.Size() - 2);
    OrBitRange(r1, r0 != 0, P2(f.Size() - 3));
  }

  lemma SumWithZero(f: Format, rm: Rounding, s: bit, ma: pos, mb: pos, t: bit, k: pos)
    ensures RoundedSum(f, rm, s, Times(ma, mb), t, Times(0, k), k) == RoundedTo(f, rm, s, Ratio(Times(ma, mb), k))
  {
    hide RoundedTo;
    MulMono(1, ma, mb);
  }

  // ----- fma_sf -----

  lemma FmaSpecial(f: Format, a: nat, b: nat, c: nat, rm: Rounding)
    requires IsWord(f, a) && IsWord(f, b) && IsWord(f, c)
    ensures var x, y, z, o := Decode(f, a), Decode(f, b), Decode(f, c), Fma(f, a, b, c, rm);
      if (x.Infinite? && IsZero(y)) || (IsZero(x) && y.Infinite?) then o == NaNOf(f, true)
      else if x.NaN? || y.NaN? || z.NaN? then o == NaNOf(f, Signals(x) || Signals(y) || Signals(z))
      else
        var s := Xor(x.sign, y.sign);
        if x.Infinite? || y.Infinite? then
          o == if z.Infinite? && z.sign != s then NaNOf(f, true) else InfinityOf(f, s)
        else if z.Infinite? then o == InfinityOf(f, z.sign)
        else
          var k := P2(UnitExp(f));
          o == RoundedSum(f, rm, s, Times(x.mag, y.mag), z.sign, Times(z.mag, k), k)
  {
    hide Decode, RoundedSum, P2;
  }

  // A zero product returns the addend as it is, and two zeros their common sign.
  lemma ZeroProduct(f: Format, rm: Rounding, s: bit, m: nat, c: nat)
    requires IsWord(f, c) && Decode(f, c).Finite? && m == 0
    ensures var z, k := Decode(f, c), P2(UnitExp(f));
      var o := RoundedSum(f, rm, s, m, z.sign, Times(z.mag, k), k);
      if z.mag == 0 then o == ZeroOf(f, if z.sign == s then s else if rm == RDN then 1 else 0)
      else o == Outcome(c, NONE)
  {
    hide RoundedTo, Mag, P2;
    var z, k, i := Decode(f, c), P2(UnitExp(f)), IndexOf(f, c);
    WordOf(f, c);
    if z.mag == 0 {
      forall t: bit { RoundedZero(f, rm, t, Ratio(0, k)); }
    } else {
      MulMono(1, z.mag, k);
      RepresentableExact(f, rm, z.sign, Ratio(z.mag * k, k), i);
    }
  }

  /** fma_sf for every triple of words, in every rounding mode. */
  method FmaSf(f: Format, a: nat, b: nat, c: nat, rm: Rounding, fl: Flags) returns (r: nat, fl': Flags)
    requires IsWord(f, a) && IsWord(f, b) && IsWord(f, c)
    ensures r == Fma(f, a, b, c, rm).bits
    ensures fl' == Raise(fl, Fma(f, a, b, c, rm).flags)
  {
    hide Fma, Decode, P2, ExpField, MantField, SignOf, IsSigNaN, RoundedSum;
    fl' := fl;
    DecodeFields(f, a);
    DecodeFields(f, b);
    DecodeFields(f, c);
    ZeroFields(f, a);
    ZeroFields(f, b);
    ZeroFields(f, c);
    FmaSpecial(f, a, b, c, rm);
    var cSign := SignOf(f, c);
    var rSign := Xor(SignOf(f, a), SignOf(f, b));
    var aExp, bExp, cExp := ExpField(f, a), ExpField(f, b), ExpField(f, c);
    if aExp == f.ExpMask() || bExp == f.ExpMask() || cExp == f.ExpMask() {
      r, fl' := FmaNotFinite(f, a, b, c, rm, fl);
      return;
    }
    var aZero, ea, sa := NormalizedOperand(f, a);
    var bZero, eb, sb := NormalizedOperand(f, b);
    if aZero || bZero {
      ZeroProduct(f, rm, rSign, Times(Decode(f, a).mag, Decode(f, b).mag), c);
      if cExp == 0 && MantField(f, c) == 0 {
        if cSign != rSign {
          rSign := if rm == RDN then 1 else 0;
        }
        return Pack(f, rSign, 0), fl';
      } else {
        return c, fl';
      }
    }
    var cZero, ec, sc := NormalizedOperand(f, c);
    r, fl' := FmaFinite(f, rSign, Decode(f, a).mag, ea, sa, Decode(f, b).mag, eb, sb,
                        cSign, cZero, Decode(f, c).mag, ec, sc, rm, fl);
  }

  method FmaNotFinite(f: Format, a: nat, b: nat, c: nat, rm: Rounding, fl: Flags) returns (r: nat, fl': Flags)
    requires IsWord(f, a) && IsWord(f, b) && IsWord(f, c)
    requires ExpField(f, a) == f.ExpMask() || ExpField(f, b) == f.ExpMask() || ExpField(f, c) == f.ExpMask()
    ensures r == Fma(f, a, b, c, rm).bits
    ensures fl' == Raise(fl, Fma(f, a, b, c, rm).flags)
  {
    hide Fma, Decode, P2, ExpField, MantField, SignOf, IsSigNaN, RoundedSum;
    fl' := fl;
    DecodeFields(f, a);
    DecodeFields(f, b);
    DecodeFields(f, c);
    ZeroFields(f, a);
    ZeroFields(f, b);
    NaNTests(f, a);
    NaNTests(f, b);
    NaNTests(f, c);
    FmaSpecial(f, a, b, c, rm);
    var cSign := SignOf(f, c);
    var rSign := Xor(SignOf(f, a), SignOf(f, b));
    var aExp, bExp, cExp := ExpField(f, a), ExpField(f, b), ExpField(f, c);
    var aMant, bMant := MantField(f, a), MantField(f, b);
    if (aExp == 0 && aMant == 0 && bExp == f.ExpMask() && bMant == 0)
       || (bExp == 0 && bMant == 0 && aExp == f.ExpMask() && aMant == 0) {
      return QuietNaN(f), fl'.(invalid := true);
    }
    if IsNaN(f, a) || IsNaN(f, b) || IsNaN(f, c) {
      if IsSigNaN(f, a) || IsSigNaN(f, b) || IsSigNaN(f, c) {
        fl' := fl'.(invalid := true);
      }
      return QuietNaN(f), fl';
    }
    // infinities
    if (aExp == f.ExpMask() && bExp == 0 && bMant == 0) || (bExp == f.ExpMask() && aExp == 0 && aMant == 0)
       || ((aExp == f.ExpMask() || bExp == f.ExpMask()) && cExp == f.ExpMask() && rSign != cSign) {
      return QuietNaN(f), fl'.(invalid := true);
    } else if cExp == f.ExpMask() {
      return Pack(f, cSign, f.Inf()), fl';
    } else {
      return Pack(f, rSign, f.Inf()), fl';
    }
  }
}
