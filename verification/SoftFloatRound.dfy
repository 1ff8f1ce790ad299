// The sticky shift and the round-and-pack step that every soft-float operation
// ends in (include/softfp_template.h), and why a sticky bit is enough.
module SoftFloatRound {
  import opened Powers
  import opened Ieee754

  // ----- word operations -----

  function Shl(f: Format, x: nat, s: nat): nat { DivMod(x * P2(s), P2(f.Size())); x * P2(s) % P2(f.Size()) }

  function Shr(x: nat, s: nat): nat { DivMod(x, P2(s)); x / P2(s) }

  // x | c
  function OrBit(x: nat, c: bool): nat { if c && x % 2 == 0 then x + 1 else x }

  // Shifts right by log2(c) and ORs the lost bits into the lowest one.
  function Jam(x: nat, c: pos): nat { OrBit(x / c, x % c != 0) }

  lemma ShlFits(f: Format, x: nat, s: nat)
    requires x * P2(s) < P2(f.Size())
    ensures Shl(f, x, s) == x * P2(s)
  {
    DivUnique(x * P2(s), P2(f.Size()), 0, x * P2(s));
  }

  method RShiftRnd(f: Format, a: nat, d: nat) returns (r: nat)
    requires IsWord(f, a)
    ensures r == Jam(a, P2(d))
    ensures IsWord(f, r)
  {
    r := a;
    if d != 0 {
      if d >= f.Size() {
        P2Mono(f.Size(), d);
        DivUnique(a, P2(d), 0, a);
        r := if a != 0 then 1 else 0;
        P2Mono(1, f.Size());
      } else {
        var mask := P2(d) - 1;
        r := OrBit(Shr(a, d), a % (mask + 1) != 0);
        P2Mono(1, d);
        P2Mono(1, f.Size());
        assert 2 * Shr(a, d) <= a by {
          DivMod(a, P2(d));
          MulMono(2, P2(d), Shr(a, d));
        }
        assert P2(f.Size()) == 2 * P2(f.Size() - 1);
      }
    } else {
      assert P2(0) == 1 && a / 1 == a;
    }
  }

  // ----- cells: where the exact result lies relative to a grid -----

  /** With mantissa units of u/v, x is exactly m if m is on the grid of spacing g,
      and otherwise lies strictly inside m's grid cell. */
  ghost predicate Cell(m: nat, g: pos, x: Exact, u: pos, v: pos) {
    if m % g == 0 then Cmp(x, m * u, v) == 0
    else Cmp(x, m / g * g * u, v) > 0 && Cmp(x, (m / g + 1) * g * u, v) < 0
  }

  lemma CellOf(m: nat, g: pos, x: Exact, u: pos, v: pos, h: nat, r: nat)
    requires m == h * g + r && r < g
    requires r == 0 ==> Cmp(x, h * g * u, v) == 0
    requires r > 0 ==> Cmp(x, h * g * u, v) > 0 && Cmp(x, (h + 1) * g * u, v) < 0
    ensures Cell(m, g, x, u, v)
  {
    hide Cmp;
    DivUnique(m, g, h, r);
  }

  lemma CellSplit(m: nat, g: pos, x: Exact, u: pos, v: pos) returns (h: nat, r: nat)
    requires Cell(m, g, x, u, v)
    ensures m == h * g + r && r < g && h == m / g && r == m % g
    ensures r == 0 ==> Cmp(x, h * g * u, v) == 0
    ensures r > 0 ==> Cmp(x, h * g * u, v) > 0 && Cmp(x, (h + 1) * g * u, v) < 0
  {
    hide Cmp;
    DivMod(m, g);
    h, r := m / g, m % g;
  }

  lemma GridCmp(x: Exact, a: nat, b: nat, g: pos, u: pos, v: pos)
    requires a <= b
    ensures Cmp(x, a * g * u, v) >= Cmp(x, b * g * u, v)
    ensures a < b ==> Cmp(x, a * g * u, v) > Cmp(x, b * g * u, v)
  {
    hide Cmp;
    if a < b {
      MulStrict(a, b, g);
      MulStrict(a * g, b * g, u);
      CmpStrict(x, a * g * u, b * g * u, v);
    }
  }

  lemma CellExact(m: nat, g: pos, x: Exact, u: pos, v: pos)
    requires Cmp(x, m * u, v) == 0
    ensures Cell(m, g, x, u, v)
  {
    hide Cmp, Cell;
    DivMod(m, g);
    var h, r := m / g, m % g;
    if r > 0 {
      Distribute(h, 1, g);
      GridCmp(x, h * g, m, 1, u, v);
      GridCmp(x, m, (h + 1) * g, 1, u, v);
    }
    CellOf(m, g, x, u, v, h, r);
  }

  /** A jammed right shift by c keeps the cell of an even grid. */
  lemma CellShr(m: nat, g: pos, c: pos, x: Exact, u: pos, v: pos)
    requires g % 2 == 0
    requires g * c > 0 && u * c > 0
    requires Cell(m, g * c, x, u, v)
    ensures Cell(Jam(m, c), g, x, u * c, v)
  {
    hide Cmp, Cell;
    var h, r := CellSplit(m, g * c, x, u, v);
    DivMod(r, c);
    var q, s := r / c, r % c;
    assert q < g by { DivLt(r, c, g); }
    Assoc(h, g, c);
    Distribute(h * g, q, c);
    DivUnique(m, c, h * g + q, s);
    Regroup(h, g, c, u);
    Regroup(h + 1, g, c, u);
    EvenMultiple(h, g);
    SameParity(h * g + q, h * g, q, g);
    var q' := if s != 0 && q % 2 == 0 then q + 1 else q;
    assert Jam(m, c) == h * g + q';
    assert q' == 0 <==> r == 0 by { if q > 0 { MulMono(1, q, c); } }
    CellOf(Jam(m, c), g, x, u * c, v, h, q');
  }

  lemma Regroup(a: int, g: int, c: int, u: int)
    ensures a * (g * c) * u == a * g * (u * c)
  {
    Assoc(a, g, c);
    Assoc(a * g, c, u);
  }

  lemma SameParity(q: nat, z: nat, r: nat, g: nat)
    requires q == z + r && r < g && z % 2 == 0 && g % 2 == 0
    ensures q % 2 == r % 2
    ensures r % 2 == 0 ==> r + 1 < g
  {}

  lemma EvenMultiple(t: nat, g: nat)
    requires g % 2 == 0
    ensures t * g % 2 == 0
  {
    var h := g / 2;
    assert t * g == 2 * (t * h) by { assert t * (2 * h) == 2 * (t * h); }
  }

  lemma CellCoarsen(m: nat, g: pos, c: pos, x: Exact, u: pos, v: pos)
    requires g * c > 0
    requires Cell(m, g, x, u, v)
    ensures Cell(m, g * c, x, u, v)
  {
    hide Cmp, Cell;
    var h, r := CellSplit(m, g, x, u, v);
    if r == 0 {
      CellExact(m, g * c, x, u, v);
    } else {
      var t, w := CoarseLine(h, r, g, c);
      GridCmp(x, t * c, h, g, u, v);
      GridCmp(x, h + 1, (t + 1) * c, g, u, v);
      CellOf(m, g * c, x, u, v, t, w * g + r);
    }
  }

  lemma CoarseLine(h: nat, r: nat, g: pos, c: pos) returns (t: nat, w: nat)
    requires r < g
    ensures h * g + r == t * (g * c) + (w * g + r) && w * g + r < g * c
    ensures t * (g * c) == t * c * g && (t + 1) * (g * c) == (t + 1) * c * g
    ensures t * c <= h < (t + 1) * c
  {
    DivMod(h, c);
    t, w := h / c, h % c;
    Assoc(t, c, g);
    Assoc(t + 1, c, g);
    Distribute(t * c, w, g);
    Distribute(t, 1, c);
    MulMono(w, c - 1, g);
    Distribute(c, 1, g);
  }

  lemma CellShl(m: nat, g: pos, c: pos, x: Exact, u: pos, v: pos)
    requires g * c > 0 && v * c > 0
    requires Cell(m, g, x, u, v)
    ensures Cell(m * c, g * c, x, u, v * c)
  {
    hide Cmp, Cell;
    var h, r := CellSplit(m, g, x, u, v);
    Distribute(h * g, r, c);
    Assoc(h, g, c);
    MulStrict(r, g, c);
    LineScale(x, h, g, c, u, v);
    LineScale(x, h + 1, g, c, u, v);
    if r > 0 { MulMono(1, r, c); }
    CellOf(m * c, g * c, x, u, v * c, h, r * c);
  }

  lemma LineScale(x: Exact, h: nat, g: nat, c: pos, u: nat, v: pos)
    ensures v * c > 0
    ensures Sgn(Cmp(x, h * (g * c) * u, v * c)) == Sgn(Cmp(x, h * g * u, v))
  {
    hide Cmp;
    CmpScale(x, h * g * u, v, c);
    Regroup(h, g, c, u);
    Assoc(h * g, u, c);
  }

  // Compares x with the j-th grid line.
  lemma CellCmp(m: nat, g: pos, x: Exact, u: pos, v: pos, j: nat)
    requires Cell(m, g, x, u, v)
    ensures m % g == 0 && j == m / g ==> Cmp(x, j * g * u, v) == 0
    ensures j <= m / g && !(m % g == 0 && j == m / g) ==> Cmp(x, j * g * u, v) > 0
    ensures j > m / g ==> Cmp(x, j * g * u, v) < 0
  {
    hide Cmp, Cell;
    var h, r := CellSplit(m, g, x, u, v);
    if j <= h {
      GridCmp(x, j, h, g, u, v);
    } else {
      GridCmp(x, h + 1, j, g, u, v);
      GridCmp(x, h, h + 1, g, u, v);
    }
  }

  // ----- rounding a mantissa -----

  function Addend(f: Format, rm: Rounding, sign: bit): nat {
    if ToNearest(rm) then P2(Rnd(f) - 1)
    else if AwayFromZero(rm, sign) then P2(Rnd(f)) - 1
    else 0
  }

  function RoundMant(f: Format, rm: Rounding, sign: bit, m: nat): nat {
    DivMod(m + Addend(f, rm, sign), P2(Rnd(f)));
    var r := (m + Addend(f, rm, sign)) / P2(Rnd(f));
    if rm == RNE && m % P2(Rnd(f)) == P2(Rnd(f) - 1) then r - r % 2 else r
  }

  // The rounded mantissa r in half-ulps, from the number h of whole half-ulps in m.
  ghost predicate HalfUlps(rm: Rounding, sign: bit, h: int, exact: bool, r: int) {
    if ToNearest(rm) then
      if h % 2 == 0 then 2 * r == h
      else if exact && rm == RNE then r % 2 == 0 && (2 * r == h + 1 || 2 * r == h - 1)
      else 2 * r == h + 1
    else if AwayFromZero(rm, sign) then
      if h % 2 == 0 then 2 * r == (if exact then h else h + 2) else 2 * r == h + 1
    else
      r == h / 2
  }

  lemma RoundMantHalfUlps(f: Format, rm: Rounding, sign: bit, m: nat)
    ensures var g := P2(Rnd(f) - 1);
      && HalfUlps(rm, sign, m / g, m % g == 0, RoundMant(f, rm, sign, m))
      && (m % P2(Rnd(f)) == 0 <==> m % g == 0 && m / g % 2 == 0)
  {
    hide P2, HalfUlps, RoundMant, RoundedQuotient;
    var g := P2(Rnd(f) - 1);
    P2Add(1, Rnd(f) - 1);
    P2Small();
    DivMod(m, g);
    var h, s := m / g, m % g;
    HalfSplit(m, g, h, s);
    LowHalf(h, s, g);
    var q := QuotientOf(f, rm, sign, m, g, h, s);
    RoundMantBy(f, rm, sign, m, g, q);
    HalfCases(rm, sign, h, s == 0, q, RoundMant(f, rm, sign, m));
  }

  lemma QuotientOf(f: Format, rm: Rounding, sign: bit, m: nat, g: pos, h: nat, s: nat) returns (q: nat)
    requires P2(Rnd(f) - 1) == g && P2(Rnd(f)) == 2 * g && m == h * g + s && s < g
    ensures q == (m + Addend(f, rm, sign)) / (2 * g) == RoundedQuotient(rm, sign, h, s == 0)
  {
    hide P2;
    DivMod(m + Addend(f, rm, sign), 2 * g);
    q := (m + Addend(f, rm, sign)) / (2 * g);
    if ToNearest(rm) {
      NearestQuotient(m, g, h, s);
    } else if AwayFromZero(rm, sign) {
      AwayQuotient(m, g, h, s);
    } else {
      HalfSplit(m, g, h, s);
    }
  }

  lemma RoundMantBy(f: Format, rm: Rounding, sign: bit, m: nat, g: pos, q: nat)
    requires P2(Rnd(f) - 1) == g && P2(Rnd(f)) == 2 * g && q == (m + Addend(f, rm, sign)) / (2 * g)
    ensures RoundMant(f, rm, sign, m) == if rm == RNE && m % (2 * g) == g then q - q % 2 else q
  {
    hide P2, Addend;
  }

  // The quotient before the tie rule, from the whole half-ulps.
  function RoundedQuotient(rm: Rounding, sign: bit, h: nat, exact: bool): nat {
    if ToNearest(rm) then h / 2 + h % 2
    else if AwayFromZero(rm, sign) then (if h % 2 == 0 && exact then h / 2 else h / 2 + 1)
    else h / 2
  }

  lemma HalfCases(rm: Rounding, sign: bit, h: nat, exact: bool, q: nat, r: nat)
    requires q == RoundedQuotient(rm, sign, h, exact)
    requires r == if rm == RNE && exact && h % 2 == 1 then q - q % 2 else q
    ensures HalfUlps(rm, sign, h, exact, r)
  {}

  // The low part of m is zero, or exactly one half-ulp, only in the obvious ways.
  lemma LowHalf(h: nat, s: nat, g: pos)
    requires s < g
    ensures h % 2 * g + s == 0 <==> s == 0 && h % 2 == 0
    ensures h % 2 * g + s == g <==> s == 0 && h % 2 == 1
  {
    if h % 2 == 0 { assert h % 2 * g == 0; } else { assert h % 2 * g == g; }
  }

  lemma NearestQuotient(m: nat, g: pos, h: nat, s: nat)
    requires m == h * g + s && s < g
    ensures (m + g) / (2 * g) == h / 2 + h % 2
  {
    var b, t := h % 2, h / 2;
    HalfSplit(m, g, h, s);
    Distribute(t, b, 2 * g);
    if b == 0 {
      DivUnique(m + g, 2 * g, t, g + s);
    } else {
      DivUnique(m + g, 2 * g, t + 1, s);
    }
  }

  lemma AwayQuotient(m: nat, g: pos, h: nat, s: nat)
    requires m == h * g + s && s < g
    ensures (m + (2 * g - 1)) / (2 * g) == if h % 2 == 0 && s == 0 then h / 2 else h / 2 + 1
  {
    var b, t := h % 2, h / 2;
    HalfSplit(m, g, h, s);
    Distribute(t, 1, 2 * g);
    if b == 0 && s == 0 {
      DivUnique(m + (2 * g - 1), 2 * g, t, 2 * g - 1);
    } else if b == 0 {
      DivUnique(m + (2 * g - 1), 2 * g, t + 1, s - 1);
    } else {
      DivUnique(m + (2 * g - 1), 2 * g, t + 1, g + s - 1);
    }
  }

  lemma HalfSplit(m: nat, g: pos, h: nat, s: nat)
    requires m == h * g + s && s < g
    ensures m == h / 2 * (2 * g) + (h % 2 * g + s)
    ensures m / (2 * g) == h / 2 && m % (2 * g) == h % 2 * g + s
  {
    var b, t := h % 2, h / 2;
    Distribute(2 * t, b, g);
    assert 2 * t * g == t * (2 * g);
    DivUnique(m, 2 * g, t, b * g + s);
  }

  // Compares q*x with j half-ulps, one ulp being e1.
  lemma UlpCmp(x: Exact, q: pos, u: pos, v: pos, e1: nat, g: nat, j: nat)
    requires 2 * (g * u) * q == v * e1
    ensures Sgn(Cmp(x, j * e1, 2 * q)) == Sgn(Cmp(x, j * g * u, v))
  {
    hide Cmp;
    CmpScale(x, j * e1, 2 * q, v);
    CmpScale(x, j * g * u, v, 2 * q);
    assert v * (2 * q) == 2 * q * v;
    calc {
      j * g * u * (2 * q);
      { Assoc(j, g, u); }
      j * (g * u) * (2 * q);
      { Assoc(j, g * u, 2 * q); }
      j * ((g * u) * (2 * q));
      { assert (g * u) * (2 * q) == 2 * (g * u) * q; }
      j * (v * e1);
      { Assoc(j, e1, v); }
      j * e1 * v;
    }
  }

  lemma UlpCmp2(x: Exact, q: pos, u: pos, v: pos, e1: nat, g: nat, r: nat)
    requires 2 * (g * u) * q == v * e1
    ensures Sgn(Cmp(x, r * e1, q)) == Sgn(Cmp(x, 2 * r * g * u, v))
  {
    hide Cmp;
    CmpScale(x, r * e1, q, 2);
    assert r * e1 * 2 == 2 * r * e1;
    UlpCmp(x, q, u, v, e1, g, 2 * r);
  }

  // The sign of x - (j-th grid line), for x in the cell after the h-th line.
  function LineSgn(h: int, exact: bool, j: int): int {
    if j > h then -1 else if j == h && exact then 0 else 1
  }

  lemma GridFacts(f: Format, x: Exact, q: pos, m: nat, e: nat, u: pos, v: pos, r: nat)
    requires e >= 1
    requires 2 * (P2(Rnd(f) - 1) * u) * q == v * P2(e - 1)
    requires Cell(m, P2(Rnd(f) - 1), x, u, v)
    requires r <= 2 * P2(f.mant)
    requires e == 1 || P2(f.mant) <= r
    ensures var g, k := P2(Rnd(f) - 1), (e - 1) * P2(f.mant) + r;
      && Sgn(Cmp(x, Mag(f, k), q)) == LineSgn(m / g, m % g == 0, 2 * r)
      && (r < 2 * P2(f.mant) ==>
            Sgn(Cmp(x, Mag(f, k) + Mag(f, k + 1), 2 * q)) == LineSgn(m / g, m % g == 0, 2 * r + 1))
  {
    hide Cmp, Mag, Cell;
    var g, e1 := P2(Rnd(f) - 1), P2(e - 1);
    MagAt(f, e, r);
    CellCmp(m, g, x, u, v, 2 * r);
    UlpCmp2(x, q, u, v, e1, g, r);
    if r < 2 * P2(f.mant) {
      MagAt(f, e, r + 1);
      CellCmp(m, g, x, u, v, 2 * r + 1);
      UlpCmp(x, q, u, v, e1, g, 2 * r + 1);
      Between(r, r + 1, e1);
    }
  }

  // The two midpoints around index k, from where x lies relative to the floats.
  lemma Midpoints(f: Format, x: Exact, q: pos, k: nat)
    ensures Cmp(x, Mag(f, k), q) <= 0 ==> Cmp(x, Mag(f, k) + Mag(f, k + 1), 2 * q) < 0
    ensures Cmp(x, Mag(f, k), q) <= 0 ==> Cmp(x, Mag(f, k + 1), q) < 0
    ensures k > 0 && Cmp(x, Mag(f, k), q) >= 0 ==> Cmp(x, Mag(f, k - 1) + Mag(f, k), 2 * q) > 0
    ensures k > 0 && Cmp(x, Mag(f, k), q) >= 0 ==> Cmp(x, Mag(f, k - 1), q) > 0
  {
    hide Cmp, Mag;
    CmpScale(x, Mag(f, k), q, 2);
    MagStep(f, k);
    CmpStrict(x, Mag(f, k), Mag(f, k + 1), q);
    CmpStrict(x, Mag(f, k) * 2, Mag(f, k) + Mag(f, k + 1), 2 * q);
    if k > 0 {
      MagStep(f, k - 1);
      CmpStrict(x, Mag(f, k - 1), Mag(f, k), q);
      CmpStrict(x, Mag(f, k - 1) + Mag(f, k), Mag(f, k) * 2, 2 * q);
    }
  }

  lemma RoundsFromLines(f: Format, rm: Rounding, sign: bit, x: Exact, q: pos, k: nat, h: nat, exact: bool, r: nat)
    requires HalfUlps(rm, sign, h, exact, r)
    requires k % 2 == r % 2
    requires Sgn(Cmp(x, Mag(f, k), q)) == LineSgn(h, exact, 2 * r)
    requires
      || 2 * r > h
      || (&& Sgn(Cmp(x, Mag(f, k) + Mag(f, k + 1), 2 * q)) == LineSgn(h, exact, 2 * r + 1)
          && Sgn(Cmp(x, Mag(f, k + 1), q)) == LineSgn(h, exact, 2 * r + 2))
    requires
      || k == 0
      || 2 * r <= h
      || (&& Sgn(Cmp(x, Mag(f, k - 1) + Mag(f, k), 2 * q)) == LineSgn(h, exact, 2 * r - 1)
          && Sgn(Cmp(x, Mag(f, k - 1), q)) == LineSgn(h, exact, 2 * r - 2))
    ensures Rounds(f, rm, sign, x, q, k)
  {
    hide Cmp, Mag;
    Midpoints(f, x, q, k);
  }

  /** Rounding the mantissa by the code's addend gives the correctly rounded index. */
  lemma RoundsAt(f: Format, rm: Rounding, sign: bit, x: Exact, q: pos, m: nat, e: nat, u: pos, v: pos)
    requires e >= 1
    requires 2 * (P2(Rnd(f) - 1) * u) * q == v * P2(e - 1)
    requires Cell(m, P2(Rnd(f) - 1), x, u, v)
    requires m < P2(f.Size() - 1)
    requires e == 1 || P2(f.Size() - 2) <= m
    ensures 0 <= RoundMant(f, rm, sign, m) <= 2 * P2(f.mant)
    ensures e == 1 || P2(f.mant) <= RoundMant(f, rm, sign, m)
    ensures Rounds(f, rm, sign, x, q, (e - 1) * P2(f.mant) + RoundMant(f, rm, sign, m))
  {
    hide Cmp, Mag, Cell, RoundMant, Rounds, P2, HalfUlps;
    var g, w := P2(Rnd(f) - 1), P2(f.mant);
    DivMod(m, g);
    RoundMantHalfUlps(f, rm, sign, m);
    MantRange(f, m);
    var r := RoundMant(f, rm, sign, m);
    RoundRange(rm, sign, m / g, m % g == 0, r, w);
    var k := (e - 1) * w + r;
    GridFacts(f, x, q, m, e, u, v, r);
    if r < 2 * w {
      GridFacts(f, x, q, m, e, u, v, r + 1);
    }
    if k > 0 && (e == 1 || r > w) {
      assert r > 0 by { if e == 1 { assert (e - 1) * w == 0; } }
      GridFacts(f, x, q, m, e, u, v, r - 1);
    }
    IndexParity(f, e - 1, r);
    RoundsFromLines(f, rm, sign, x, q, k, m / g, m % g == 0, r);
  }

  lemma RoundRange(rm: Rounding, sign: bit, h: nat, exact: bool, r: int, w: nat)
    requires HalfUlps(rm, sign, h, exact, r) && h < 4 * w
    ensures 0 <= r <= 2 * w && (2 * w <= h ==> w <= r)
  {}

  lemma IndexParity(f: Format, t: nat, r: nat)
    ensures (t * P2(f.mant) + r) % 2 == r % 2
  {
    var z := t * P2(f.mant - 1);
    assert t * P2(f.mant) == 2 * z by { Assoc(t, 2, P2(f.mant - 1)); }
    AddEven(z, r);
  }

  lemma AddEven(z: nat, r: nat)
    ensures (2 * z + r) % 2 == r % 2
  {}

  lemma Between(a: nat, b: nat, e1: nat)
    ensures a * e1 + b * e1 == (a + b) * e1
  {}

  lemma MantRange(f: Format, m: nat)
    ensures m < P2(f.Size() - 1) ==> m / P2(Rnd(f) - 1) < 4 * P2(f.mant)
    ensures P2(f.Size() - 2) <= m ==> 2 * P2(f.mant) <= m / P2(Rnd(f) - 1)
  {
    var g, w := P2(Rnd(f) - 1), P2(f.mant);
    P2Add(f.mant + 2, Rnd(f) - 1);
    P2Add(f.mant + 1, Rnd(f) - 1);
    assert P2(f.mant + 2) == 4 * w && P2(f.mant + 1) == 2 * w;
    assert P2(f.Size() - 1) == 4 * w * g && P2(f.Size() - 2) == 2 * w * g;
    if m < P2(f.Size() - 1) { DivLt(m, g, 4 * w); }
    if P2(f.Size() - 2) <= m { DivGe(m, g, 2 * w); }
  }

  // ----- round and pack -----

  // Mantissa units of u/v belong to biased exponent e: in smallest subnormals the
  // unit is 2^(e - 1 - Rnd).
  ghost predicate Scaled(f: Format, e: int, u: pos, v: pos) {
    IsPow(e - 1 - Rnd(f), u, v)
  }

  // One ulp is 2^(e - 1) smallest subnormals.
  lemma UlpOf(f: Format, e: int, u: pos, v: pos)
    requires Scaled(f, e, u, v)
    ensures var ulp := 2 * (P2(Rnd(f) - 1) * u);
      if e >= 1 then ulp == v * P2(e - 1) else ulp * P2(1 - e) == v
  {
    IsPowMul(e - 1 - Rnd(f), Rnd(f), u, v, P2(Rnd(f)), 1);
    assert 2 * (P2(Rnd(f) - 1) * u) == u * P2(Rnd(f)) by { Assoc(u, 2, P2(Rnd(f) - 1)); }
  }

  ghost predicate Normalized(f: Format, m: nat) {
    m == 0 || P2(f.Size() - 2) <= m < P2(f.Size() - 1)
  }

  lemma ShiftedScale(f: Format, e: int, d: nat, u: pos, v: pos)
    requires Scaled(f, e, u, v)
    ensures u * P2(d) > 0
    ensures Scaled(f, e + d, u * P2(d), v)
  {
    IsPowMul(e - 1 - Rnd(f), d, u, v, P2(d), 1);
  }

  /** Jamming a mantissa right keeps its cell on the half-ulp grid. */
  lemma ShiftedCell(f: Format, m: nat, d: nat, x: Exact, u: pos, v: pos)
    requires Cell(m, P2(Rnd(f) - 1), x, u, v)
    ensures u * P2(d) > 0
    ensures Cell(Jam(m, P2(d)), P2(Rnd(f) - 1), x, u * P2(d), v)
  {
    hide Cell;
    var g := P2(Rnd(f) - 1);
    assert g == 2 * P2(Rnd(f) - 2);
    CellCoarsen(m, g, P2(d), x, u, v);
    CellShr(m, g, P2(d), x, u, v);
  }

  lemma JamHalves(m: nat, d: nat, n: nat)
    requires m < P2(n + 1) && d >= 1 && n >= 1
    ensures 0 <= Jam(m, P2(d)) < P2(n)
  {
    P2Mono(1, d);
    DivMod(m, P2(d));
    MulMono(2, P2(d), m / P2(d));
    assert P2(n + 1) == 2 * P2(n) && P2(n) == 2 * P2(n - 1);
  }

  /** The code's subnormal test decides tininess after rounding. */
  lemma TinyIff(f: Format, rm: Rounding, sign: bit, x: Exact, m: nat, e: int, u: pos, v: pos)
    requires Scaled(f, e, u, v)
    requires m > 0 && Normalized(f, m)
    requires Cell(m, P2(Rnd(f) - 1), x, u, v)
    ensures Tiny(f, rm, sign, x) <==> e < 0 || (e == 0 && m + Addend(f, rm, sign) < P2(f.Size() - 1))
  {
    hide Cell, Rounds, IsPow, P2, RoundMant, Addend;
    var g, w := P2(Rnd(f) - 1), P2(f.mant);
    P2Small();
    UlpOf(f, e, u, v);
    if e >= 1 {
      P2Add(1, e - 1);
      RoundsAt(f, rm, sign, x, 2, m, e + 1, u, v);
      var k := e * w + RoundMant(f, rm, sign, m);
      MulMono(1, e, w);
      RoundsUnique(f, rm, sign, x, 2, k, RoundIndex(f, rm, sign, x, 2));
    } else if e == 0 {
      RoundsAt(f, rm, sign, x, 2, m, 1, u, v);
      RoundsUnique(f, rm, sign, x, 2, 0 * w + RoundMant(f, rm, sign, m), RoundIndex(f, rm, sign, x, 2));
      CarryIff(f, rm, sign, m);
    } else {
      var d := -e;
      ShiftedScale(f, e, d, u, v);
      UlpOf(f, 0, u * P2(d), v);
      ShiftedCell(f, m, d, x, u, v);
      JamHalves(m, d, f.Size() - 2);
      var m' := Jam(m, P2(d));
      P2Add(1, f.Size() - 2);
      RoundsAt(f, rm, sign, x, 2, m', 1, u * P2(d), v);
      RoundsUnique(f, rm, sign, x, 2, 0 * w + RoundMant(f, rm, sign, m'), RoundIndex(f, rm, sign, x, 2));
      RoundMantBelow(f, rm, sign, m');
    }
  }

  lemma CarryIff(f: Format, rm: Rounding, sign: bit, m: nat)
    requires m < P2(f.Size() - 1)
    requires RoundMant(f, rm, sign, m) <= 2 * P2(f.mant)
    ensures RoundMant(f, rm, sign, m) < 2 * P2(f.mant) <==> m + Addend(f, rm, sign) < P2(f.Size() - 1)
  {
    hide P2, Addend;
    var a, w := m + Addend(f, rm, sign), P2(f.mant);
    P2Small();
    P2Add(1, f.mant);
    P2Add(f.mant + 1, Rnd(f));
    assert P2(f.Size() - 1) == 2 * w * P2(Rnd(f));
    DivMod(a, P2(Rnd(f)));
    if a < P2(f.Size() - 1) {
      DivLt(a, P2(Rnd(f)), 2 * w);
    } else {
      DivGe(a, P2(Rnd(f)), 2 * w);
    }
  }

  lemma RoundMantBelow(f: Format, rm: Rounding, sign: bit, m: nat)
    requires m < P2(f.Size() - 2)
    ensures RoundMant(f, rm, sign, m) <= P2(f.mant)
  {
    hide RoundMant;
    RoundMantHalfUlps(f, rm, sign, m);
    var g := P2(Rnd(f) - 1);
    P2Add(f.mant + 1, Rnd(f) - 1);
    DivLt(m, g, 2 * P2(f.mant));
    DivMod(m, g);
  }

  function PackSf(f: Format, sign: bit, e: nat, m: nat): nat {
    sign * f.SignBit() + e * P2(f.mant) + m % P2(f.mant)
  }

  // The index assembled from exponent and mantissa, with the carry of the rounding.
  lemma PackedIndex(f: Format, e: nat, r: nat)
    requires e >= 1
    requires r <= 2 * P2(f.mant) && (e == 1 || P2(f.mant) <= r)
    ensures r < P2(f.mant) ==> (e - 1) * P2(f.mant) + r == r % P2(f.mant) < f.Inf()
    ensures r >= P2(f.mant) ==>
      var e' := e + r / P2(f.mant + 1);
      && (e - 1) * P2(f.mant) + r == e' * P2(f.mant) + r % P2(f.mant)
      && e' <= e + 1
      && (e' >= f.ExpMask() <==> (e - 1) * P2(f.mant) + r >= f.Inf())
  {
    var w := P2(f.mant);
    assert P2(f.mant + 1) == 2 * w;
    if r < w {
      assert e == 1 && (e - 1) * w == 0;
      DivUnique(r, w, 0, r);
      P2Mono(1, f.exp);
      MulMono(1, f.ExpMask(), w);
    } else {
      var c := if r == 2 * w then 1 else 0;
      DivUnique(r, 2 * w, c, r - c * (2 * w));
      var s := if c == 1 then 0 else r - w;
      DivUnique(r, w, 1 + c, s);
      var e' := e + c;
      assert (e - 1) * w + r == e' * w + s by { Distribute(e, 1, w); Distribute(e, c, w); }
      if e' >= f.ExpMask() {
        MulMono(f.ExpMask(), e', w);
      } else {
        MulMono(e' + 1, f.ExpMask(), w);
        Distribute(e', 1, w);
      }
    }
  }

  // Rounding to index k gives an exact result exactly when no discarded bit is set.
  lemma InexactIff(f: Format, rm: Rounding, sign: bit, x: Exact, m: nat, e: nat, u: pos, v: pos)
    requires e >= 1
    requires 2 * (P2(Rnd(f) - 1) * u) == v * P2(e - 1)
    requires Cell(m, P2(Rnd(f) - 1), x, u, v)
    requires 0 <= RoundMant(f, rm, sign, m) <= 2 * P2(f.mant)
    requires e == 1 || P2(f.mant) <= RoundMant(f, rm, sign, m)
    ensures Cmp(x, Mag(f, (e - 1) * P2(f.mant) + RoundMant(f, rm, sign, m)), 1) != 0 <==> m % P2(Rnd(f)) != 0
  {
    hide Cell, Cmp, Mag, RoundMant;
    GridFacts(f, x, 1, m, e, u, v, RoundMant(f, rm, sign, m));
    RoundMantHalfUlps(f, rm, sign, m);
  }

  // What packing needs to know: the unbounded index k and the inexact test.
  lemma PackFacts(f: Format, rm: Rounding, sign: bit, x: Exact, m: nat, e: nat, u: pos, v: pos) returns (k: nat)
    requires e >= 1
    requires Scaled(f, e, u, v)
    requires Cell(m, P2(Rnd(f) - 1), x, u, v)
    requires m < P2(f.Size() - 1)
    requires e == 1 || P2(f.Size() - 2) <= m
    ensures k == RoundIndex(f, rm, sign, x, 1)
    ensures 0 <= RoundMant(f, rm, sign, m) <= 2 * P2(f.mant)
    ensures e == 1 || P2(f.mant) <= RoundMant(f, rm, sign, m)
    ensures k == (e - 1) * P2(f.mant) + RoundMant(f, rm, sign, m)
    ensures Cmp(x, Mag(f, k), 1) != 0 <==> m % P2(Rnd(f)) != 0
  {
    hide Cell, Cmp, Mag, Rounds, RoundMant, IsPow;
    UlpOf(f, e, u, v);
    RoundsAt(f, rm, sign, x, 1, m, e, u, v);
    InexactIff(f, rm, sign, x, m, e, u, v);
    k := (e - 1) * P2(f.mant) + RoundMant(f, rm, sign, m);
    RoundsUnique(f, rm, sign, x, 1, k, RoundIndex(f, rm, sign, x, 1));
  }

  // A zero mantissa means an exact zero, whatever the exponent.
  lemma ZeroCell(f: Format, x: Exact, u: pos, v: pos)
    requires Cell(0, P2(Rnd(f) - 1), x, u, v)
    ensures Cell(0, P2(Rnd(f) - 1), x, 1, 2 * P2(Rnd(f) - 1))
    ensures Scaled(f, 1, 1, 2 * P2(Rnd(f) - 1))
  {
    var g := P2(Rnd(f) - 1);
    DivUnique(0, g, 0, 0);
    assert Cmp(x, 0, v) == 0;
    match x
    case Ratio(n, d) =>
      if n > 0 { MulMono(1, n, v); }
    case Root(a) =>
      if a > 0 { MulMono(1, v, v); MulMono(1, a, v * v); }
  }

  // First half of round_pack_sf: shift a potentially subnormal mantissa to exponent 1
  // and find the discarded bits. An exact zero is treated as having exponent 1.
  method DenormalizeSf(f: Format, sign: bit, aExp: int, aMant: nat, rm: Rounding,
                       ghost x: Exact, ghost u: pos, ghost v: pos)
    returns (exp: int, mant: nat, rndBits: nat, underflow: bool)
    requires Normalized(f, aMant)
    requires Scaled(f, aExp, u, v)
    requires Cell(aMant, P2(Rnd(f) - 1), x, u, v)
    ensures exp >= 1 && rndBits == mant % P2(Rnd(f))
    ensures mant == 0 ==> rndBits == 0 && RoundMant(f, rm, sign, 0) == 0
    ensures var e, r := if mant == 0 then 1 else exp, RoundMant(f, rm, sign, mant);
      && 0 <= r <= 2 * P2(f.mant) && (e == 1 || P2(f.mant) <= r)
      && RoundIndex(f, rm, sign, x, 1) == (e - 1) * P2(f.mant) + r
      && (Cmp(x, Mag(f, (e - 1) * P2(f.mant) + r), 1) != 0 <==> rndBits != 0)
    ensures underflow <==> rndBits != 0 && Tiny(f, rm, sign, x)
    ensures underflow ==> exp == 1
  {
    hide Cell, Cmp, Mag, Rounds, Scaled, Tiny, RoundMant;
    exp, mant := aExp, aMant;
    P2Mono(f.Size() - 1, f.Size());
    P2Mono(f.Size() - 2, f.Size() - 1);
    RoundMantZero(f, rm, sign);
    if aMant > 0 {
      TinyIff(f, rm, sign, x, aMant, aExp, u, v);
    }
    if exp <= 0 {
      var isSubnormal := exp < 0 || mant + Addend(f, rm, sign) < P2(f.Size() - 1);
      var diff := 1 - exp;
      mant := RShiftRnd(f, mant, diff);
      ShiftedCell(f, aMant, diff, x, u, v);
      ShiftedScale(f, aExp, diff, u, v);
      JamHalves(aMant, diff, f.Size() - 2);
      ghost var k := PackFacts(f, rm, sign, x, mant, 1, u * P2(diff), v);
      rndBits := mant % P2(Rnd(f));
      assert aMant == 0 ==> mant == 0 by { DivUnique(0, P2(diff), 0, 0); }
      underflow := isSubnormal && rndBits != 0;
      exp := 1;
    } else {
      if mant > 0 {
        ghost var k := PackFacts(f, rm, sign, x, mant, exp, u, v);
      } else {
        ZeroCell(f, x, u, v);
        ghost var k := PackFacts(f, rm, sign, x, 0, 1, 1, 2 * P2(Rnd(f) - 1));
      }
      rndBits := mant % P2(Rnd(f));
      underflow := false;
    }
  }

  /** round_pack_sf: the exact result x, known to the code only through its cell,
      comes back correctly rounded and with exactly the required exceptions. */
  method RoundPackSf(f: Format, sign: bit, aExp: int, aMant: nat, rm: Rounding, fl: Flags,
                     ghost x: Exact, ghost u: pos, ghost v: pos)
    returns (r: nat, fl': Flags)
    requires Normalized(f, aMant)
    requires Scaled(f, aExp, u, v)
    requires Cell(aMant, P2(Rnd(f) - 1), x, u, v)
    ensures r == RoundedTo(f, rm, sign, x).bits
    ensures fl' == Raise(fl, RoundedTo(f, rm, sign, x).flags)
  {
    hide Cell, Cmp, Mag, Rounds, Scaled, Tiny, P2, RoundedTo, Addend, RoundIndex, RoundMant, Pack;
    var addend := Addend(f, rm, sign);
    var exp, mant, rndBits, underflow := DenormalizeSf(f, sign, aExp, aMant, rm, x, u, v);
    fl' := fl;
    if underflow {
      fl' := fl'.(underflow := true);
    }
    if rndBits != 0 {
      fl' := fl'.(inexact := true);
    }
    ghost var m1 := mant;
    mant := AddAndShift(f, rm, sign, mant, addend, rndBits);
    ghost var k: nat := RoundIndex(f, rm, sign, x, 1);
    RoundedToIs(f, rm, sign, x, k);
    assert k == if m1 == 0 then 0 else (exp - 1) * P2(f.mant) + mant;
    TinyFits(f, exp, mant, k);
    r, fl' := PackRounded(f, sign, addend, exp, mant, fl', k);
  }

  method AddAndShift(f: Format, rm: Rounding, sign: bit, m: nat, addend: nat, rndBits: nat) returns (mant: nat)
    requires addend == Addend(f, rm, sign) && rndBits == m % P2(Rnd(f))
    ensures mant == RoundMant(f, rm, sign, m)
  {
    hide P2, Addend;
    mant := Shr(m + addend, Rnd(f));
    // a tie clears the last bit
    if rm == RNE && rndBits == P2(Rnd(f) - 1) {
      mant := mant - mant % 2;
    }
  }

  // A tiny result does not overflow.
  lemma TinyFits(f: Format, exp: nat, mant: nat, k: nat)
    requires mant <= 2 * P2(f.mant) && (k == 0 || k == (exp - 1) * P2(f.mant) + mant)
    ensures exp == 1 ==> k < f.Inf()
  {
    hide P2;
    PackedMax(f);
    MulMono(3, f.ExpMask(), P2(f.mant));
    if exp == 1 { assert (exp - 1) * P2(f.mant) == 0; }
  }

  // The end of round_pack_sf: the exponent takes the carry, and an overflow is infinity or the
  // largest finite number.
  method PackRounded(f: Format, sign: bit, addend: nat, exp0: nat, mant0: nat, fl: Flags, ghost k: nat)
    returns (r: nat, fl': Flags)
    requires exp0 >= 1 && mant0 <= 2 * P2(f.mant)
    requires (mant0 == 0 && k == 0) || ((exp0 == 1 || P2(f.mant) <= mant0) && k == (exp0 - 1) * P2(f.mant) + mant0)
    ensures k < f.Inf() ==> r == Pack(f, sign, k) && fl' == fl
    ensures k >= f.Inf() ==>
      r == Pack(f, sign, if addend == 0 then f.Inf() - 1 else f.Inf()) && fl' == fl.(overflow := true, inexact := true)
  {
    hide P2;
    var exp, mant := exp0, mant0;
    fl' := fl;
    PackedIndex(f, if mant == 0 then 1 else exp, mant);
    exp := exp + Shr(mant, f.mant + 1);
    if mant <= P2(f.mant) - 1 {
      // below the normal range
      exp := 0;
    } else if exp >= f.ExpMask() {
      PackedMax(f);
      if addend == 0 {
        exp, mant := f.ExpMask() - 1, P2(f.mant) - 1;
      } else {
        // infinity
        exp, mant := f.ExpMask(), 0;
      }
      fl' := fl'.(overflow := true, inexact := true);
    }
    r := PackSf(f, sign, exp, mant);
  }

  lemma RoundedToIs(f: Format, rm: Rounding, sign: bit, x: Exact, k: nat)
    requires k == RoundIndex(f, rm, sign, x, 1)
    ensures var o := RoundedTo(f, rm, sign, x);
      if k >= f.Inf() then
        && o.bits == Pack(f, sign, if Addend(f, rm, sign) == 0 then f.Inf() - 1 else f.Inf())
        && o.flags == NONE.(overflow := true, inexact := true)
      else
        && o.bits == Pack(f, sign, k)
        && o.flags == NONE.(inexact := Cmp(x, Mag(f, k), 1) != 0,
                            underflow := Cmp(x, Mag(f, k), 1) != 0 && Tiny(f, rm, sign, x))
  {
    P2Mono(1, Rnd(f));
  }

  lemma RoundMantZero(f: Format, rm: Rounding, sign: bit)
    ensures RoundMant(f, rm, sign, 0) == 0 && 0 % P2(Rnd(f)) == 0
  {
    var a := Addend(f, rm, sign);
    assert P2(Rnd(f)) == 2 * P2(Rnd(f) - 1);
    DivUnique(a, P2(Rnd(f)), 0, a);
    DivUnique(0, P2(Rnd(f)), 0, 0);
  }

  lemma PackedMax(f: Format)
    ensures (f.ExpMask() - 1) * P2(f.mant) + (P2(f.mant) - 1) % P2(f.mant) == f.Inf() - 1
    ensures f.ExpMask() >= 3 && 0 % P2(f.mant) == 0
  {
    P2Mono(2, f.exp);
    assert P2(2) == 4;
    DivUnique(0, P2(f.mant), 0, 0);
    DivUnique(P2(f.mant) - 1, P2(f.mant), 0, P2(f.mant) - 1);
    Distribute(f.ExpMask(), 1, P2(f.mant));
  }

  // ----- normalization -----

  function BitLen(a: nat): nat { if a == 0 then 0 else 1 + BitLen(a / 2) }

  lemma {:induction false} BitLenBounds(a: nat)
    ensures a < P2(BitLen(a))
    ensures a > 0 ==> P2(BitLen(a) - 1) <= a
  {
    if a > 0 {
      BitLenBounds(a / 2);
      if a / 2 > 0 {
        assert P2(BitLen(a) - 1) == 2 * P2(BitLen(a / 2) - 1);
      }
    }
  }

  lemma BitLenIs(a: nat, n: nat)
    requires P2(n) <= a < P2(n + 1)
    ensures BitLen(a) == n + 1
  {
    BitLenBounds(a);
    if BitLen(a) < n + 1 { P2Mono(BitLen(a), n); }
    if BitLen(a) > n + 1 { P2Mono(n + 1, BitLen(a) - 1); }
  }

  // The number of bits of a word of n bits above its highest set bit.
  function Clz(n: nat, a: nat): int { n - BitLen(a) }

  lemma ClzRange(n: nat, a: nat)
    requires 0 < a < P2(n)
    ensures 0 <= Clz(n, a) < n
    ensures P2(n - 1 - Clz(n, a)) <= a < P2(n - Clz(n, a))
  {
    BitLenBounds(a);
    if BitLen(a) > n { P2Mono(n, BitLen(a) - 1); }
  }

  /** clz128 counts a double word through its halves. */
  lemma ClzHalves(n: nat, hi: nat, lo: nat)
    requires hi < P2(n) && lo < P2(n)
    ensures Clz(2 * n, hi * P2(n) + lo) == if hi != 0 then Clz(n, hi) else Clz(n, lo) + n
  {
    hide P2, BitLen;
    if hi == 0 {
      assert hi * P2(n) == 0;
    } else {
      ClzRange(n, hi);
      var i := n - 1 - Clz(n, hi);
      P2Add(i, n);
      P2Add(i + 1, n);
      MulMono(P2(i), hi, P2(n));
      MulMono(hi + 1, P2(i + 1), P2(n));
      Distribute(hi, 1, P2(n));
      BitLenIs(hi * P2(n) + lo, i + n);
    }
  }

  lemma OrBitBelow(s: nat, c: bool, n: nat)
    requires s < 2 * n
    ensures s <= OrBit(s, c) < 2 * n
  {}

  method NormalizeSf(f: Format, sign: bit, aExp: int, aMant: nat, rm: Rounding, fl: Flags,
                     ghost t: nat, ghost x: Exact, ghost u: pos, ghost v: pos)
    returns (r: nat, fl': Flags)
    requires aMant < P2(f.Size() - 1)
    requires Scaled(f, aExp, u, v)
    requires
      || Cmp(x, aMant * u, v) == 0
      || (Cell(aMant, P2(t), x, u, v) && P2(f.mant + 1 + t) <= aMant)
    ensures r == RoundedTo(f, rm, sign, x).bits
    ensures fl' == Raise(fl, RoundedTo(f, rm, sign, x).flags)
  {
    hide Cell, Cmp, IsPow, RoundedTo, P2, Shl, Clz;
    P2Mono(f.Size() - 1, f.Size());
    var shift := Clz(f.Size(), aMant) - 1;
    ClzPositive(f, aMant);
    NormalizedShift(f, aMant, shift);
    ShlFits(f, aMant, shift);
    NormalizedCell(f, aMant, shift, t, x, u, v);
    IsPowNat(shift);
    IsPowMul(aExp - 1 - Rnd(f), -shift, u, v, 1, P2(shift));
    r, fl' := RoundPackSf(f, sign, aExp - shift, Shl(f, aMant, shift), rm, fl, x, u, v * P2(shift));
  }

  lemma ClzPositive(f: Format, a: nat)
    requires a < P2(f.Size() - 1)
    ensures Clz(f.Size(), a) >= 1
  {
    hide P2;
    P2Mono(f.Size() - 1, f.Size());
    if a > 0 { ClzRange(f.Size(), a); }
  }

  lemma NormalizedCell(f: Format, m: nat, shift: nat, t: nat, x: Exact, u: pos, v: pos)
    requires m < P2(f.Size() - 1) && shift + 1 == Clz(f.Size(), m)
    requires
      || Cmp(x, m * u, v) == 0
      || (Cell(m, P2(t), x, u, v) && P2(f.mant + 1 + t) <= m)
    ensures v * P2(shift) > 0
    ensures Cell(m * P2(shift), P2(Rnd(f) - 1), x, u, v * P2(shift))
  {
    hide Cell, Cmp, P2, Clz;
    var c := P2(shift);
    if Cmp(x, m * u, v) == 0 {
      CmpScale(x, m * u, v, c);
      assert m * u * c == m * c * u by { Regroup(1, m, c, u); Assoc(m, u, c); }
      CellExact(m * c, P2(Rnd(f) - 1), x, u, v * c);
    } else {
      ShiftBound(f, m, shift, t);
      var rest := Rnd(f) - 1 - t - shift;
      CellShl(m, P2(t), c, x, u, v);
      P2Add(t, shift);
      P2Add(t + shift, rest);
      CellCoarsen(m * c, P2(t + shift), P2(rest), x, u, v * c);
    }
  }

  lemma NormalizedShift(f: Format, m: nat, shift: nat)
    requires shift + 1 == Clz(f.Size(), m) && m < P2(f.Size() - 1)
    ensures Normalized(f, m * P2(shift)) && m * P2(shift) < P2(f.Size())
  {
    if m == 0 { return; }
    var n := f.Size() - 2 - shift;
    ClzRange(f.Size(), m);
    P2Add(n, shift);
    P2Add(n + 1, shift);
    MulMono(P2(n), m, P2(shift));
    MulStrict(m, P2(n + 1), P2(shift));
    P2Mono(f.Size() - 1, f.Size());
  }

  // Room left for the sticky bit when the mantissa is shifted into place.
  lemma ShiftBound(f: Format, m: nat, shift: nat, t: nat)
    requires P2(f.mant + 1 + t) <= m < P2(f.Size() - 1) && shift + 1 == Clz(f.Size(), m)
    ensures t + shift <= Rnd(f) - 1
  {
    ClzRange(f.Size(), m);
    if f.Size() - 1 - shift <= f.mant + 1 + t {
      P2Mono(f.Size() - 1 - shift, f.mant + 1 + t);
    }
  }
}
