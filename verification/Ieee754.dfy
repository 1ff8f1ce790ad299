// What a binary floating-point operation must return: the exact result rounded
// once (IEEE 754-2008 sections 4.3, 5.4 and 7), stated without reference to how
// the soft-float library computes it.
//
// Every finite magnitude is a natural number of smallest subnormals, so the
// non-negative floats are the increasing sequence Mag(f, 0), Mag(f, 1), ...
// indexed by their bit pattern without the sign.
module Ieee754 {
  import opened Powers

  datatype Rounding = RNE | RTZ | RDN | RUP | RMM

  datatype Flags = Flags(invalid: bool, divZero: bool, overflow: bool, underflow: bool, inexact: bool)

  const NONE := Flags(false, false, false, false, false)
  const INVALID := NONE.(invalid := true)

  function Raise(a: Flags, b: Flags): Flags {
    Flags(a.invalid || b.invalid, a.divZero || b.divZero, a.overflow || b.overflow,
          a.underflow || b.underflow, a.inexact || b.inexact)
  }

  lemma RaiseCases(a: Flags)
    ensures Raise(a, NONE) == a && Raise(a, INVALID) == a.(invalid := true)
  {}

  type bit = b: nat | b < 2

  datatype RawFormat = Format(mant: nat, exp: nat) {
    function Size(): nat { mant + exp + 1 }
    function ExpMask(): nat { P2(exp) - 1 }
    // index of infinity, one past the largest finite float
    function Inf(): nat { ExpMask() * P2(mant) }
    function SignBit(): nat { P2(mant + exp) }
  }

  // the word is split into two halves, so its size is even
  type Format = f: RawFormat | 8 <= f.exp <= f.mant && (f.mant + f.exp) % 2 == 1 witness Format(23, 8)

  const BINARY32: Format := Format(23, 8)
  const BINARY64: Format := Format(52, 11)
  const BINARY128: Format := Format(112, 15)

  function Bias(f: Format): nat { P2(f.exp - 1) - 1 }

  // Discarded bits of the internal mantissa: (size - 2) - mant.
  function Rnd(f: Format): nat { f.exp - 1 }

  // 1.0 is 2^UnitExp smallest subnormals.
  function UnitExp(f: Format): nat { Bias(f) - 1 + f.mant }

  predicate IsWord(f: Format, w: nat) { w < P2(f.Size()) }

  function Mag(f: Format, k: nat): nat {
    if k < P2(f.mant) then k
    else (P2(f.mant) + k % P2(f.mant)) * P2(k / P2(f.mant) - 1)
  }

  // ----- exact results -----

  // An exact non-negative result in smallest subnormals: a quotient or a square root.
  datatype Exact = Ratio(n: nat, d: pos) | Root(a: nat)

  // Its sign is the sign of x - p/q.
  function Cmp(x: Exact, p: nat, q: pos): int {
    match x
    case Ratio(n, d) => n * q - p * d
    case Root(a) => a * (q * q) - p * p
  }

  function Sgn(i: int): int { if i > 0 then 1 else if i == 0 then 0 else -1 }

  lemma SgnScale(i: int, c: pos)
    ensures Sgn(i * c) == Sgn(i)
  {}

  lemma CmpScale(x: Exact, p: nat, q: pos, c: pos)
    ensures q * c > 0
    ensures Sgn(Cmp(x, p * c, q * c)) == Sgn(Cmp(x, p, q))
  {
    match x
    case Ratio(n, d) =>
      assert n * (q * c) - (p * c) * d == (n * q - p * d) * c;
      SgnScale(n * q - p * d, c);
    case Root(a) =>
      RootScale(a, p, q, c);
  }

  lemma RootScale(a: nat, p: nat, q: pos, c: pos)
    ensures q * c > 0
    ensures Sgn(a * ((q * c) * (q * c)) - (p * c) * (p * c)) == Sgn(a * (q * q) - p * p)
  {
    calc {
      a * ((q * c) * (q * c)) - (p * c) * (p * c);
      { Square(q, c); Square(p, c); }
      a * ((q * q) * (c * c)) - (p * p) * (c * c);
      { Assoc(a, q * q, c * c); }
      (a * (q * q)) * (c * c) - (p * p) * (c * c);
      { Distribute(a * (q * q), p * p, c * c); }
      (a * (q * q) - p * p) * (c * c);
    }
    SgnScale(a * (q * q) - p * p, c * c);
  }

  lemma CmpStrict(x: Exact, p: nat, p': nat, q: pos)
    requires p < p'
    ensures Cmp(x, p, q) > Cmp(x, p', q)
  {
    match x
    case Ratio(n, d) => MulStrict(p, p', d);
    case Root(a) =>
      MulMono(p, p', p);
      MulStrict(p, p', p');
  }

  lemma CmpMono(x: Exact, p: nat, p': nat, q: pos)
    requires p <= p'
    ensures Cmp(x, p, q) >= Cmp(x, p', q)
  {
    if p < p' { CmpStrict(x, p, p', q); }
  }

  // ----- the five rounding directions (section 4.3) -----

  predicate ToNearest(rm: Rounding) { rm == RNE || rm == RMM }

  predicate AwayFromZero(rm: Rounding, sign: bit) {
    (rm == RDN && sign == 1) || (rm == RUP && sign == 0)
  }

  /** Index k is q*x rounded to the floats with unbounded exponent. Its neighbours
      decide: the midpoints for the two nearest modes, the floats themselves otherwise. */
  ghost predicate Rounds(f: Format, rm: Rounding, sign: bit, x: Exact, q: pos, k: nat) {
    if ToNearest(rm) then
      && (var above := Cmp(x, Mag(f, k) + Mag(f, k + 1), 2 * q);
          above < 0 || (above == 0 && rm == RNE && k % 2 == 0))
      && (k > 0 ==>
            var below := Cmp(x, Mag(f, k - 1) + Mag(f, k), 2 * q);
            below > 0 || (below == 0 && (rm == RMM || k % 2 == 0)))
    else if AwayFromZero(rm, sign) then
      && Cmp(x, Mag(f, k), q) <= 0
      && (k > 0 ==> Cmp(x, Mag(f, k - 1), q) > 0)
    else
      Cmp(x, Mag(f, k), q) >= 0 && Cmp(x, Mag(f, k + 1), q) < 0
  }

  // ----- Mag is strictly increasing -----

  lemma MagAt(f: Format, e: nat, r: nat)
    requires e >= 1
    requires r <= 2 * P2(f.mant)
    requires e == 1 || P2(f.mant) <= r
    ensures Mag(f, (e - 1) * P2(f.mant) + r) == r * P2(e - 1)
  {
    var w := P2(f.mant);
    var k := (e - 1) * w + r;
    if r < w {
      assert k == r;
      assert P2(0) == 1;
    } else if r < 2 * w {
      assert k == e * w + (r - w);
      DivUnique(k, w, e, r - w);
      assert k >= w by { MulMono(1, e, w); }
    } else {
      assert k == (e + 1) * w + 0;
      DivUnique(k, w, e + 1, 0);
      assert k >= w by { MulMono(1, e + 1, w); }
      assert w * P2(e) == w * (2 * P2(e - 1)) == 2 * w * P2(e - 1);
    }
  }

  // Every index has an exponent e and a significand r < 2^(mant+1) as in MagAt.
  lemma Binade(f: Format, k: nat) returns (e: nat, r: nat)
    ensures e >= 1 && r < 2 * P2(f.mant) && (e == 1 || P2(f.mant) <= r)
    ensures k == (e - 1) * P2(f.mant) + r
  {
    var w := P2(f.mant);
    if k < w {
      e, r := 1, k;
      assert (e - 1) * w == 0;
    } else {
      DivMod(k, w);
      DivGe(k, w, 1);
      e, r := k / w, w + k % w;
      assert (e - 1) * w == e * w - w;
    }
  }

  lemma MagStep(f: Format, k: nat)
    ensures Mag(f, k) < Mag(f, k + 1)
  {
    hide Mag;
    var e, r := Binade(f, k);
    MagAt(f, e, r);
    MagAt(f, e, r + 1);
    Distribute(r + 1, r, P2(e - 1));
  }

  lemma {:induction false} MagMono(f: Format, j: nat, k: nat)
    requires j <= k
    ensures Mag(f, j) <= Mag(f, k)
    ensures j < k ==> Mag(f, j) < Mag(f, k)
    decreases k
  {
    if j < k {
      MagMono(f, j, k - 1);
      MagStep(f, k - 1);
    }
  }

  // ----- rounding is total and single-valued -----

  lemma MagZero(f: Format, x: Exact, q: pos)
    ensures Cmp(x, Mag(f, 0), q) >= 0
  {
    assert Mag(f, 0) == 0;
  }

  lemma {:induction false} FloorFrom(f: Format, x: Exact, q: pos, hi: nat) returns (lo: nat)
    requires Cmp(x, Mag(f, hi), q) < 0
    ensures Cmp(x, Mag(f, lo), q) >= 0 && Cmp(x, Mag(f, lo + 1), q) < 0
    decreases hi
  {
    assert hi > 0 by { MagZero(f, x, q); }
    hide Cmp, Mag;
    if Cmp(x, Mag(f, hi - 1), q) >= 0 {
      lo := hi - 1;
    } else {
      lo := FloorFrom(f, x, q, hi - 1);
    }
  }

  lemma {:induction false} MagAtLeast(f: Format, k: nat)
    ensures k <= Mag(f, k)
  {
    if k > 0 {
      MagAtLeast(f, k - 1);
      MagStep(f, k - 1);
    }
  }

  lemma Floor(f: Format, x: Exact, q: pos) returns (lo: nat)
    ensures Cmp(x, Mag(f, lo), q) >= 0 && Cmp(x, Mag(f, lo + 1), q) < 0
  {
    var hi := match x case Ratio(n, d) => n * q + 1 case Root(a) => a * (q * q) + 1;
    MagAtLeast(f, hi);
    CmpMono(x, hi, Mag(f, hi), q);
    assert Cmp(x, hi, q) < 0 by {
      match x
      case Ratio(n, d) => MulMono(1, d, hi);
      case Root(a) => MulMono(1, hi, hi);
    }
    lo := FloorFrom(f, x, q, hi);
  }

  lemma RoundsExists(f: Format, rm: Rounding, sign: bit, x: Exact, q: pos) returns (k: nat)
    ensures Rounds(f, rm, sign, x, q, k)
  {
    hide Cmp, Mag;
    var lo := Floor(f, x, q);
    MagStep(f, lo);
    var a, b := Mag(f, lo), Mag(f, lo + 1);
    if ToNearest(rm) {
      var mid := Cmp(x, a + b, 2 * q);
      CmpScale(x, a, q, 2);
      CmpScale(x, b, q, 2);
      if mid < 0 || (mid == 0 && rm == RNE && lo % 2 == 0) {
        k := lo;
        if lo > 0 {
          MagStep(f, lo - 1);
          CmpStrict(x, Mag(f, lo - 1) + a, a * 2, 2 * q);
        }
      } else {
        k := lo + 1;
        MagStep(f, k);
        CmpStrict(x, b * 2, b + Mag(f, k + 1), 2 * q);
      }
    } else if AwayFromZero(rm, sign) {
      k := if Cmp(x, a, q) == 0 then lo else lo + 1;
      if k == lo && lo > 0 {
        MagStep(f, lo - 1);
        CmpStrict(x, Mag(f, lo - 1), a, q);
      }
    } else {
      k := lo;
    }
  }

  lemma RoundsOrder(f: Format, rm: Rounding, sign: bit, x: Exact, q: pos, j: nat, k: nat)
    requires j < k
    requires Rounds(f, rm, sign, x, q, j)
    ensures !Rounds(f, rm, sign, x, q, k)
  {
    hide Cmp, Mag;
    if ToNearest(rm) {
      // the midpoint above j is at or below the midpoint below k
      MagMono(f, j, k - 1);
      MagMono(f, j + 1, k);
      CmpMono(x, Mag(f, j) + Mag(f, j + 1), Mag(f, k - 1) + Mag(f, k), 2 * q);
      if j + 1 < k {
        MagMono(f, j, k - 1);
        CmpStrict(x, Mag(f, j) + Mag(f, j + 1), Mag(f, k - 1) + Mag(f, k), 2 * q);
      }
    } else if AwayFromZero(rm, sign) {
      MagMono(f, j, k - 1);
      CmpMono(x, Mag(f, j), Mag(f, k - 1), q);
    } else {
      MagMono(f, j + 1, k);
      CmpMono(x, Mag(f, j + 1), Mag(f, k), q);
    }
  }

  /** The rounded result is unique, so it can be named. */
  lemma RoundsUnique(f: Format, rm: Rounding, sign: bit, x: Exact, q: pos, j: nat, k: nat)
    requires Rounds(f, rm, sign, x, q, j) && Rounds(f, rm, sign, x, q, k)
    ensures j == k
  {
    if j < k {
      RoundsOrder(f, rm, sign, x, q, j, k);
    } else if k < j {
      RoundsOrder(f, rm, sign, x, q, k, j);
    }
  }

  ghost function RoundIndex(f: Format, rm: Rounding, sign: bit, x: Exact, q: pos): (k: nat)
    ensures Rounds(f, rm, sign, x, q, k)
  {
    assert exists k: nat :: Rounds(f, rm, sign, x, q, k) by {
      var k := RoundsExists(f, rm, sign, x, q);
    }
    var k: nat :| Rounds(f, rm, sign, x, q, k);
    k
  }

  /** To nearest: no other float is nearer to x (x is on k's side of the midpoint of k and j),
      and one equally near loses the tie. */
  lemma NearestOfAll(f: Format, rm: Rounding, sign: bit, x: Exact, q: pos, k: nat, j: nat)
    requires ToNearest(rm) && Rounds(f, rm, sign, x, q, k) && j != k
    ensures var mid := Cmp(x, Mag(f, k) + Mag(f, j), 2 * q);
      && (j > k ==> mid <= 0)
      && (j < k ==> mid >= 0)
      && (mid == 0 ==> (if rm == RNE then k % 2 == 0 else k > j))
  {
    hide Cmp, Mag;
    if j > k {
      MagMono(f, k + 1, j);
      if j > k + 1 { CmpStrict(x, Mag(f, k) + Mag(f, k + 1), Mag(f, k) + Mag(f, j), 2 * q); }
    } else {
      MagMono(f, j, k - 1);
      if j < k - 1 { CmpStrict(x, Mag(f, j) + Mag(f, k), Mag(f, k - 1) + Mag(f, k), 2 * q); }
    }
  }

  /** Directed: the result is the smallest float at or above x away from zero, the
      largest at or below x toward zero. */
  lemma DirectedBound(f: Format, rm: Rounding, sign: bit, x: Exact, q: pos, k: nat, j: nat)
    requires !ToNearest(rm) && Rounds(f, rm, sign, x, q, k)
    ensures AwayFromZero(rm, sign) ==> (Cmp(x, Mag(f, j), q) <= 0 <==> k <= j)
    ensures !AwayFromZero(rm, sign) ==> (Cmp(x, Mag(f, j), q) >= 0 <==> j <= k)
  {
    hide Cmp, Mag;
    if AwayFromZero(rm, sign) {
      if k <= j {
        MagMono(f, k, j);
        CmpMono(x, Mag(f, k), Mag(f, j), q);
      } else {
        MagMono(f, j, k - 1);
        CmpMono(x, Mag(f, j), Mag(f, k - 1), q);
      }
    } else {
      if j <= k {
        MagMono(f, j, k);
        CmpMono(x, Mag(f, j), Mag(f, k), q);
      } else {
        MagMono(f, k + 1, j);
        CmpMono(x, Mag(f, k + 1), Mag(f, j), q);
      }
    }
  }

  // ----- the rounded result and its exceptions (sections 4.3 and 7) -----

  datatype Outcome = Outcome(bits: nat, flags: Flags)

  function Pack(f: Format, sign: bit, k: nat): nat { sign * f.SignBit() + k }

  function QuietNaN(f: Format): nat { f.Inf() + P2(f.mant - 1) }

  // Tininess is detected after rounding: with one more binade below, x would still
  // round below the smallest normal 2^mant. (Only the binade just below can reach it.)
  ghost predicate Tiny(f: Format, rm: Rounding, sign: bit, x: Exact) {
    RoundIndex(f, rm, sign, x, 2) < 2 * P2(f.mant)
  }

  ghost function RoundedTo(f: Format, rm: Rounding, sign: bit, x: Exact): (o: Outcome) {
    var k := RoundIndex(f, rm, sign, x, 1);
    if k >= f.Inf() then
      Outcome(Pack(f, sign, if ToNearest(rm) || AwayFromZero(rm, sign) then f.Inf() else f.Inf() - 1),
              NONE.(overflow := true, inexact := true))
    else
      var inexact := Cmp(x, Mag(f, k), 1) != 0;
      Outcome(Pack(f, sign, k), NONE.(inexact := inexact, underflow := inexact && Tiny(f, rm, sign, x)))
  }
}
