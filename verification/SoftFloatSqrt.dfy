// sqrtrem_u and sqrt_sf: the Newton iteration and the correctly rounded square root.
module SoftFloatSqrt {
  import opened Powers
  import opened Ieee754
  import opened IeeeOps
  import opened SoftFloatRound
  import opened SoftFloatMul
  import opened SoftFloatDiv

  // ----- Newton's iteration on integers -----

  lemma SquareMono(a: nat, b: nat)
    ensures a <= b ==> a * a <= b * b
    ensures a < b ==> a * a < b * b
  {
    if a <= b { MulMono(a, b, a); MulMono(a, b, b); }
    if a < b { MulStrict(a, b, b); }
  }

  /** One Newton step never goes below the root, by the inequality of the two means. */
  lemma NewtonAbove(a: nat, s: pos, q: nat, r: nat, u: nat)
    requires a == q * s + r && r < s
    requires u == (q + s) / 2
    ensures a < (u + 1) * (u + 1)
  {
    var t := q + 1;
    // 4 t s <= (t + s)^2 <= (2 (u + 1))^2
    assert (t + s) * (t + s) - 4 * (t * s) == (t - s) * (t - s) by { MeansSquare(t, s); }
    NotNegative(t - s);
    SquareMono(t + s, 2 * (u + 1));
    Square(2, u + 1);
    Distribute(q, 1, s);
  }

  lemma NotNegative(d: int)
    ensures d * d >= 0
  {}

  lemma MeansSquare(t: int, s: int)
    ensures (t + s) * (t + s) - 4 * (t * s) == (t - s) * (t - s)
  {
    Distribute(t, s, t + s);
    Distribute(t, s, t - s);
  }

  // When the step stops decreasing, s is the integer square root.
  lemma NewtonStop(a: nat, s: pos, q: nat, r: nat)
    requires a == q * s + r && s <= (q + s) / 2
    ensures s * s <= a
  {
    MulMono(s, q, s);
  }

  // The high word stays below every iterate, as divrem_u demands.
  lemma HighBelow(f: Format, a1: nat, a0: nat, s: nat)
    requires a1 < P2(f.Size() - 2) && s >= 1
    requires a1 * P2(f.Size()) + a0 < (s + 1) * (s + 1)
    ensures a1 < s
  {
    var n := P2(f.Size());
    P2Mono(f.Size() - 2, f.Size());
    P2Mono(2, f.Size() - 2);
    P2Small();
    assert n == 4 * P2(f.Size() - 2) by { P2Add(2, f.Size() - 2); }
    if s <= a1 {
      SquareMono(s + 1, a1 + 1);
      assert (a1 + 1) * (a1 + 1) == a1 * a1 + 2 * a1 + 1;
      MulMono(a1 + 3, n, a1);
      Distribute(a1, 3, a1);
    }
  }

  // The sum of quotient and iterate fits the word.
  lemma StepFits(n: pos, a: nat, s: nat, q: nat)
    requires 1 <= s <= 2 * n && q * s <= a < (s + 1) * (s + 1) && a + 2 <= 4 * (n * n)
    ensures q + s < 4 * n
  {
    if s == 2 * n {
      Comm4(2, n, 2, n);
      if q >= 2 * n { MulMono(2 * n, q, s); }
    } else if s == 2 * n - 1 {
      if q >= s + 2 { MulMono(s + 2, q, s); Around(2 * n); Comm4(2, n, 2, n); }
    } else if q >= s + 3 {
      MulMono(s + 3, q, s);
      Distribute(s, 3, s);
      Distribute(s, 1, s + 1);
    }
  }

  lemma Around(t: nat)
    requires t >= 1
    ensures (t + 1) * (t - 1) == t * t - 1
  {
    Distribute(t, 1, t - 1);
  }

  // ----- the first guess -----

  function Operand(f: Format, a1: nat, a0: nat): nat { a1 * P2(f.Size()) + a0 }

  function GuessBits(f: Format, a1: nat, a0: nat): nat {
    if a1 != 0 then f.Size() + BitLen(a1 - 1) else if a0 != 0 then BitLen(a0 - 1) else 0
  }

  // The power of two the iteration starts from.
  function Guess(f: Format, a1: nat, a0: nat): nat { P2((GuessBits(f, a1, a0) + 1) / 2) }

  // The guess is below the root: the iteration will stop at once.
  ghost predicate Short(f: Format, a1: nat, a0: nat) {
    (Guess(f, a1, a0) + 1) * (Guess(f, a1, a0) + 1) <= Operand(f, a1, a0)
  }

  // Without the low word, 2^l is at least the operand, so the guess is at least its root.
  lemma FirstGuess(f: Format, a1: nat, a0: nat)
    requires a1 < P2(f.Size() - 2) && IsWord(f, a0) && a1 + a0 > 0
    ensures var u := Guess(f, a1, a0);
      && 1 <= u <= P2(f.Size() - 1)
      && a1 * P2(f.Size()) <= u * u && (a1 == 0 ==> a0 <= u * u)
  {
    hide P2, BitLen;
    var l := GuessBits(f, a1, a0);
    var h := (l + 1) / 2;
    P2Add(h, h);
    P2Mono(l, h + h);
    if a1 != 0 {
      BitLenBounds(a1 - 1);
      BitLenAtMost(a1 - 1, f.Size() - 2);
      P2Add(f.Size(), BitLen(a1 - 1));
      MulMono(a1, P2(BitLen(a1 - 1)), P2(f.Size()));
    } else {
      BitLenBounds(a0 - 1);
      BitLenAtMost(a0 - 1, f.Size());
    }
    P2Mono(h, f.Size() - 1);
  }

  /** With a zero word, high or low, the guess is not short. */
  lemma ZeroWordNotShort(f: Format, a1: nat, a0: nat)
    requires a1 < P2(f.Size() - 2) && IsWord(f, a0) && (a1 == 0 || a0 == 0)
    ensures !Short(f, a1, a0)
  {
    hide P2, GuessBits;
    if a1 + a0 > 0 {
      FirstGuess(f, a1, a0);
      SquareMono(Guess(f, a1, a0), Guess(f, a1, a0) + 1);
    }
  }

  // A short guess is at most half the largest one, and above the high word.
  lemma ShortGuess(f: Format, a1: nat, a0: nat)
    requires a1 < P2(f.Size() - 2) && IsWord(f, a0) && Short(f, a1, a0)
    ensures var g, n := Guess(f, a1, a0), P2(f.Size() - 2);
      && a1 > 0 && 2 <= g <= n && a1 < g && Operand(f, a1, a0) < g * g + 4 * n
  {
    hide P2, BitLen;
    var g, n := Guess(f, a1, a0), P2(f.Size() - 2);
    P2Small();
    P2Add(2, f.Size() - 2);
    P2Add(1, f.Size() - 2);
    P2Mono(2, f.Size() - 2);
    if a1 == 0 { ZeroWordNotShort(f, 0, a0); }
    FirstGuess(f, a1, a0);
    ShortRange(n, a1, a0, g);
    var h := (GuessBits(f, a1, a0) + 1) / 2;
    if g > n {
      assert h > f.Size() - 2 by { if h <= f.Size() - 2 { P2Mono(h, f.Size() - 2); } }
      P2Mono(f.Size() - 1, h);
    }
  }

  lemma ShortRange(n: pos, a1: nat, a0: nat, g: nat)
    requires n >= 4 && 0 < a1 < n && a0 < 4 * n && a1 * (4 * n) <= g * g
    requires (g + 1) * (g + 1) <= a1 * (4 * n) + a0
    ensures a1 < g && g >= 2 && g < 2 * n
  {
    if g <= a1 {
      SquareMono(g, a1);
      MulStrict(a1, 4 * n, a1);
    }
    MulMono(a1 + 1, n, 4 * n);
    Distribute(a1, 1, 4 * n);
    assert n * (4 * n) == (2 * n) * (2 * n) by { Comm4(2, n, 2, n); Assoc(4, n, n); }
    SquareLess(g + 1, 2 * n);
  }

  lemma SquareLess(x: nat, y: nat)
    requires x * x < y * y
    ensures x < y
  {
    if y <= x { SquareMono(y, x); }
  }

  // From a short guess the very first step does not decrease, and does not wrap.
  lemma ShortStep(n: pos, a: nat, g: nat, q: nat, r: nat)
    requires n >= 4 && 2 <= g <= n && (g + 1) * (g + 1) <= a < g * g + 4 * n && a == q * g + r && r < g
    ensures g <= q && q + g < 4 * n
  {
    SquareMono(g, g + 1);
    Distribute(q, 1, g);
    if q < g { MulMono(q + 1, g, g); }
    var d := q - g;
    Distribute(q, g, g);
    assert d * g < 4 * n;
    if q + g >= 4 * n {
      MulMono(4 * n - 2 * g, d, g);
      Parabola(n, g);
    }
  }

  lemma Parabola(n: nat, g: nat)
    requires n >= 4 && 2 <= g <= n
    ensures (4 * n - 2 * g) * g >= 4 * n
  {
    // (2n - g) g - 2 (2n - 2) == (g - 2)(2n - 2 - g)
    var x, y := g - 2, 2 * n - 2 - g;
    MulMono(0, x, y);
    assert x * y == (2 * n - g) * g - 2 * (2 * n - 2) by { ParabolaSplit(n, g); }
    assert (4 * n - 2 * g) * g == 2 * ((2 * n - g) * g) by { Assoc(2, 2 * n - g, g); }
  }

  lemma ParabolaSplit(n: int, g: int)
    ensures (g - 2) * (2 * n - 2 - g) == (2 * n - g) * g - 2 * (2 * n - 2)
  {
    var y := 2 * n - g;
    Distribute(g, 2, y - 2);
    Distribute(y, 2, g);
  }

  lemma BitLenAtMost(a: nat, n: nat)
    requires a < P2(n)
    ensures BitLen(a) <= n
  {
    hide P2;
    BitLenBounds(a);
    if BitLen(a) > n { P2Mono(n, BitLen(a) - 1); }
  }

  // The largest operand: the sum of quotient and iterate will wrap to zero.
  ghost predicate Largest(f: Format, a1: nat, a0: nat) { Operand(f, a1, a0) + 1 == P2(2 * f.Size() - 2) }

  /** The Newton loop returns the integer square root if and only if the first guess is not short,
      and always tells whether its square is the operand; only for the largest operand it comes to
      the failing assertion of the division. */
  method SqrtremU(f: Format, a1: nat, a0: nat) returns (ok: bool, s: nat, inexact: bool)
    requires a1 < P2(f.Size() - 2) && IsWord(f, a0)
    ensures ok <==> !Largest(f, a1, a0)
    ensures ok ==> var a := Operand(f, a1, a0);
      && s * s <= a && (a < (s + 1) * (s + 1) <==> !Short(f, a1, a0))
      && (inexact <==> s * s != a)
  {
    hide P2, BitLen;
    Quarters(f);
    if a1 == 0 && a0 == 0 {
      P2Small();
      MulMono(4, P2(f.Size() - 2), P2(f.Size() - 2));
      return true, 0, false;
    }
    var l := Length(f, a1, a0);
    var u: nat := P2((l + 1) / 2);
    FirstGuess(f, a1, a0);
    ok, s := Newton(f, a1, a0, u);
    if !ok { return false, 0, false; }
    var sq1, sq0 := MulU(f, s, s);
    WordsEqual(f, sq1, sq0, a1, a0);
    inexact := sq0 != a0 || sq1 != a1;
  }

  lemma Quarters(f: Format)
    ensures var n := P2(f.Size() - 2);
      n >= 4 && P2(f.Size()) == 4 * n && P2(f.Size() - 1) == 2 * n && P2(2 * f.Size() - 2) == 4 * (n * n)
  {
    hide P2;
    P2Small();
    P2Add(1, f.Size() - 2);
    P2Add(2, f.Size() - 2);
    P2Add(f.Size(), f.Size() - 2);
    P2Mono(2, f.Size() - 2);
    Assoc(4, P2(f.Size() - 2), P2(f.Size() - 2));
  }

  // 2^l is at least the operand without its low word
  method Length(f: Format, a1: nat, a0: nat) returns (l: nat)
    requires a1 < P2(f.Size() - 2) && IsWord(f, a0) && a1 + a0 > 0
    ensures l == GuessBits(f, a1, a0)
  {
    hide P2, BitLen;
    P2Mono(f.Size() - 2, f.Size());
    if a1 != 0 {
      LenFits(f, a1 - 1);
      l := 2 * f.Size() - Clz(f.Size(), a1 - 1);
    } else {
      LenFits(f, a0 - 1);
      l := f.Size() - Clz(f.Size(), a0 - 1);
    }
  }

  method Newton(f: Format, a1: nat, a0: nat, u0: nat) returns (ok: bool, s: nat)
    requires a1 < P2(f.Size() - 2) && IsWord(f, a0) && 0 < Operand(f, a1, a0)
    requires u0 == Guess(f, a1, a0) && 1 <= u0 <= P2(f.Size() - 1)
    ensures ok <==> !Largest(f, a1, a0)
    ensures ok ==> 1 <= s <= P2(f.Size() - 1) && s * s <= Operand(f, a1, a0)
    ensures ok ==> (Operand(f, a1, a0) < (s + 1) * (s + 1) <==> !Short(f, a1, a0))
  {
    hide P2, BitLen, Guess, Short, Largest;
    ghost var n, a := P2(f.Size() - 2), Operand(f, a1, a0);
    Quarters(f);
    ShortIs(f, a1, a0);
    LargestStarts(f, a1, a0);
    var u := u0;
    while true
      invariant 0 <= u <= P2(f.Size() - 1)
      invariant if Largest(f, a1, a0) then u == 2 * n || u == 2 * n - 1 || u == 0
                else u >= 1 && if Short(f, a1, a0) then u == u0 else a < (u + 1) * (u + 1)
      decreases u
    {
      s := u;
      if !Largest(f, a1, a0) {
        if Short(f, a1, a0) { ShortGuess(f, a1, a0); } else { HighBelow(f, a1, a0, s); }
      }
      // the assertion of divrem_u
      if !(a1 < s) { return false, s; }
      var q, r := DivremU(f, a1, a0, s);
      u := (q + s) % P2(f.Size()) / 2;
      if Largest(f, a1, a0) {
        LargestStep(n, a, s, q, r, u);
      } else {
        if Short(f, a1, a0) { ShortStep(n, a, s, q, r); } else { StepFits(n, a, s, q); }
        DivUnique(q + s, P2(f.Size()), 0, q + s);
        NewtonAbove(a, s, q, r, u);
      }
      if u >= s {
        NewtonStop(a, s, q, r);
        return true, s;
      }
      if !Largest(f, a1, a0) { RootPositive(a, u); }
    }
  }

  lemma LargestStarts(f: Format, a1: nat, a0: nat)
    requires a1 < P2(f.Size() - 2) && IsWord(f, a0)
    ensures var n := P2(f.Size() - 2);
      if Largest(f, a1, a0) then Guess(f, a1, a0) == 2 * n && Operand(f, a1, a0) == 4 * (n * n) - 1
      else Operand(f, a1, a0) + 2 <= 4 * (n * n)
  {
    hide P2, BitLen, Guess;
    var n := P2(f.Size() - 2);
    Quarters(f);
    MulMono(a1 + 1, n, 4 * n);
    Distribute(a1, 1, 4 * n);
    Assoc(4, n, n);
    if Largest(f, a1, a0) {
      LargestWraps(f);
      Distribute(n - 1 - a1, a1, 4 * n);
      if a1 < n - 1 { MulMono(1, n - 1 - a1, 4 * n); }
    }
  }

  lemma LargestStep(n: nat, a: nat, s: nat, q: nat, r: nat, u: nat)
    requires n >= 4 && a == 4 * (n * n) - 1 && (s == 2 * n || s == 2 * n - 1) && a == q * s + r && r < s
    requires u == (q + s) % (4 * n) / 2
    ensures u == (if s == 2 * n then 2 * n - 1 else 0) && u < s
  {
    LargestSteps(n);
    DivUnique(a, s, q, r);
    if s == 2 * n { DivUnique(4 * n - 1, 4 * n, 0, 4 * n - 1); } else { DivUnique(4 * n, 4 * n, 1, 0); }
  }

  lemma ShortIs(f: Format, a1: nat, a0: nat)
    ensures Short(f, a1, a0) <==> (Guess(f, a1, a0) + 1) * (Guess(f, a1, a0) + 1) <= Operand(f, a1, a0)
  {}

  /** A short guess exists for every format: high word 1, low word all ones. */
  lemma ShortExample(f: Format)
    ensures Short(f, 1, P2(f.Size()) - 1)
  {
    hide P2;
    var h := f.Size() / 2;
    P2Add(h, h);
    P2Mono(2, h);
    P2Small();
    assert GuessBits(f, 1, P2(f.Size()) - 1) == f.Size() == h + h;
    HalfSquare(P2(h));
  }

  lemma HalfSquare(u: nat)
    requires u >= 4
    ensures (u + 1) * (u + 1) <= 2 * (u * u) - 1
  {
    MulMono(4, u, u);
    Distribute(u, 1, u + 1);
  }

  lemma ZeroLowFits(f: Format, a1: nat)
    requires a1 < P2(f.Size() - 2)
    ensures Operand(f, a1, 0) + 1 < P2(2 * f.Size() - 2) && !Short(f, a1, 0)
  {
    hide P2, Short, Guess;
    Quarters(f);
    ZeroWordNotShort(f, a1, 0);
    P2Add(f.Size() - 2, f.Size());
    MulMono(a1 + 1, P2(f.Size() - 2), P2(f.Size()));
    Distribute(a1, 1, P2(f.Size()));
  }

  /** The operand left out: its second iterate makes the sum of quotient and iterate exactly 2^size. */
  lemma LargestWraps(f: Format)
    ensures var a1, a0, g := P2(f.Size() - 2) - 1, P2(f.Size()) - 1, P2(f.Size() - 1);
      && Operand(f, a1, a0) + 1 == P2(2 * f.Size() - 2) && Guess(f, a1, a0) == g && g > 1
      && var a := Operand(f, a1, a0);
         (a / g + g) / 2 == g - 1 && a / (g - 1) + (g - 1) == P2(f.Size())
  {
    hide P2, BitLen;
    Quarters(f);
    var n := P2(f.Size() - 2);
    LargestLength(f);
    Distribute(n, -1, 4 * n);
    Assoc(4, n, n);
    LargestSteps(n);
  }

  lemma LargestLength(f: Format)
    ensures P2(f.Size() - 2) >= 4 && BitLen(P2(f.Size() - 2) - 2) == f.Size() - 2
  {
    hide P2, BitLen;
    Quarters(f);
    NearTop(f.Size() - 2);
  }

  // just below a power of two
  lemma NearTop(k: nat)
    requires k >= 3 && P2(k) >= 4
    ensures BitLen(P2(k) - 2) == k
  {
    hide P2, BitLen;
    var b := BitLen(P2(k) - 2);
    BitLenBounds(P2(k) - 2);
    BitLenAtMost(P2(k) - 2, k);
    P2Small();
    P2Add(1, k - 1);
    P2Mono(2, k - 1);
    if b <= k - 1 { P2Mono(b, k - 1); }
  }

  lemma LargestSteps(n: nat)
    requires n >= 4
    ensures var a, g := 4 * (n * n) - 1, 2 * n;
      a / g == g - 1 && (a / g + g) / 2 == g - 1 && a / (g - 1) + (g - 1) == 4 * n
  {
    Comm4(2, n, 2, n);
    Around(2 * n);
    Distribute(2 * n, -1, 2 * n);
    DivUnique(4 * (n * n) - 1, 2 * n, 2 * n - 1, 2 * n - 1);
    DivUnique(4 * (n * n) - 1, 2 * n - 1, 2 * n + 1, 0);
  }

  lemma LenFits(f: Format, a: nat)
    requires IsWord(f, a)
    ensures 0 <= Clz(f.Size(), a) <= f.Size() && Clz(f.Size(), a) == f.Size() - BitLen(a)
  {
    BitLenAtMost(a, f.Size());
  }

  lemma RootPositive(a: nat, u: nat)
    requires 0 < a < (u + 1) * (u + 1)
    ensures u >= 1
  {}

  lemma WordsEqual(f: Format, h: nat, l: nat, h': nat, l': nat)
    requires IsWord(f, l) && IsWord(f, l')
    ensures h * P2(f.Size()) + l == h' * P2(f.Size()) + l' <==> h == h' && l == l'
  {
    DivUnique(h * P2(f.Size()) + l, P2(f.Size()), h, l);
    DivUnique(h' * P2(f.Size()) + l', P2(f.Size()), h', l');
  }

  // ----- the square root as a float -----

  // The integer root of A lies in the cell of the exact root whenever b v^2 == A u^2.
  lemma RootCell(s: nat, a: nat, b: nat, u: pos, v: pos)
    requires s * s <= a < (s + 1) * (s + 1)
    requires b * (v * v) == a * (u * u)
    ensures Cell(OrBit(s, s * s != a), 2, Root(b), u, v)
  {
    hide Cell, Cmp;
    var x := Root(b);
    if s * s == a {
      RootCmp(s, a, b, u, v);
      CellExact(s, 2, x, u, v);
    } else {
      var m := OrBit(s, true);
      assert m % 2 == 1;
      var h := m / 2;
      SquareMono(2 * h, s);
      SquareMono(s + 1, 2 * h + 2);
      RootCmp(2 * h, a, b, u, v);
      RootCmp(2 * h + 2, a, b, u, v);
      assert h * 2 == 2 * h && (h + 1) * 2 == 2 * h + 2;
      CellOf(m, 2, x, u, v, h, 1);
    }
  }

  lemma RootCmp(p: nat, a: nat, b: nat, u: pos, v: pos)
    requires b * (v * v) == a * (u * u)
    ensures Sgn(Cmp(Root(b), p * u, v)) == Sgn(a - p * p)
  {
    Square(p, u);
    Distribute(a, p * p, u * u);
    SgnScale(a - p * p, u * u);
  }

  // ma 2^UnitExp v^2 == sa 2^c u^2 for the unit u/v == 2^i, when the exponents agree.
  lemma RootScale2(ma: nat, ea: int, sa: nat, k: nat, c: nat, i: int)
    requires ma * Den(ea - 1) == sa * Num(ea - 1)
    requires ea - 1 + k == 2 * i + c
    ensures var u, v := Num(i), Den(i);
      ma * P2(k) * (v * v) == sa * P2(c) * (u * u)
  {
    hide IsPow, P2;
    var u, v, n, d := Num(i), Den(i), Num(ea - 1), Den(ea - 1);
    IsPowBase(ea - 1);
    IsPowNat(k);
    IsPowNat(c);
    IsPowInverse(i);
    IsPowMul(ea - 1, k, n, d, P2(k), 1);
    IsPowMul(-i, -i, v, u, v, u);
    IsPowMul(ea - 1 + k, -i + -i, n * P2(k), d, v * v, u * u);
    IsPowMul(ea - 1 + k - 2 * i, 0 - c, n * P2(k) * (v * v), d * (u * u), 1, P2(c));
    PowZero(n * P2(k) * (v * v), d * (u * u) * P2(c));
    calc {
      ma * P2(k) * (v * v) * d;
      { Assoc(ma, P2(k), v * v); Assoc(ma, P2(k) * (v * v), d); Assoc(ma, d, P2(k) * (v * v)); }
      ma * d * (P2(k) * (v * v));
      { Assoc(sa, n, P2(k) * (v * v)); Assoc(n, P2(k), v * v); }
      sa * (n * P2(k) * (v * v));
      sa * (d * (u * u) * P2(c));
      { Assoc(d, u * u, P2(c)); Assoc(sa, d, u * u * P2(c)); Assoc(sa, u * u * P2(c), d);
        assert u * u * P2(c) == P2(c) * (u * u); }
      sa * (P2(c) * (u * u)) * d;
      { Assoc(sa, P2(c), u * u); }
      sa * P2(c) * (u * u) * d;
    }
    Cancel(ma * P2(k) * (v * v), sa * P2(c) * (u * u), d);
  }

  lemma PowZero(u: pos, v: pos)
    requires IsPow(0, u, v)
    ensures u == v
  {
    P2Small();
  }

  lemma RootRange(f: Format, s: nat, a1: nat)
    requires P2(f.Size() - 4) <= a1 < P2(f.Size() - 2)
    requires s * s <= a1 * P2(f.Size()) < (s + 1) * (s + 1)
    ensures P2(f.Size() - 2) <= s && s + 1 <= P2(f.Size() - 1)
  {
    hide P2;
    var n, z := f.Size(), P2(f.Size());
    P2Add(n - 4, n);
    P2Add(n - 2, n);
    P2Add(n - 2, n - 2);
    P2Add(n - 1, n - 1);
    MulMono(P2(n - 4), a1, z);
    MulStrict(a1, P2(n - 2), z);
    if s < P2(n - 2) { SquareMono(s + 1, P2(n - 2)); }
    if s >= P2(n - 1) { SquareMono(P2(n - 1), s); }
  }

  lemma SqrtFacts(f: Format, ma: nat, ea: int, sa: nat, h: int, p: nat, s: nat)
    returns (u: pos, v: pos)
    requires NormOf(f, ma, ea, sa) && p <= 1 && ea - Bias(f) == 2 * h + p
    requires var a := sa * P2(p) * P2(f.Size() - 4 - f.mant) * P2(f.Size());
      s * s <= a < (s + 1) * (s + 1)
    requires P2(f.Size() - 4) <= sa * P2(p) * P2(f.Size() - 4 - f.mant) < P2(f.Size() - 2)
    ensures var a := sa * P2(p) * P2(f.Size() - 4 - f.mant) * P2(f.Size());
      var m := OrBit(s, s * s != a);
      && Scaled(f, h + Bias(f), u, v)
      && Cell(m, P2(1), Root(Times(ma, P2(UnitExp(f)))), u, v)
      && P2(f.mant + 1 + 1) <= m < P2(f.Size() - 1)
  {
    hide Cell, IsPow, P2;
    var z := f.Size();
    var i, c := h + Bias(f) - 1 - Rnd(f), p + (z - 4 - f.mant) + z;
    u, v := Num(i), Den(i);
    IsPowBase(i);
    P2Add(p, z - 4 - f.mant);
    P2Add(p + (z - 4 - f.mant), z);
    Assoc(sa, P2(p), P2(z - 4 - f.mant));
    Assoc(sa, P2(p + (z - 4 - f.mant)), P2(z));
    RootScale2(ma, ea, sa, UnitExp(f), c, i);
    RootCell(s, sa * P2(c), ma * P2(UnitExp(f)), u, v);
    RootRange(f, s, sa * P2(p) * P2(z - 4 - f.mant));
    P2Small();
    P2Add(1, z - 2);
    P2Mono(f.mant + 2, z - 2);
    OrBitBelow(s, s * s != sa * P2(c), P2(z - 2));
  }

  /** sqrt_sf for every word, in every rounding mode. */
  method SqrtSf(f: Format, a: nat, rm: Rounding, fl: Flags) returns (r: nat, fl': Flags)
    requires IsWord(f, a)
    ensures r == Sqrt(f, a, rm).bits
    ensures fl' == Raise(fl, Sqrt(f, a, rm).flags)
  {
    hide RoundedTo, Decode, P2, ExpField, MantField, SignOf, IsSigNaN, Cell, IsPow;
    fl' := fl;
    DecodeFields(f, a);
    NaNTests(f, a);
    ZeroFields(f, a);
    WordOf(f, a);
    Fields(f, a);
    var aSign := SignOf(f, a);
    if ExpField(f, a) == f.ExpMask() {
      if MantField(f, a) != 0 {
        if IsSigNaN(f, a) {
          fl' := fl'.(invalid := true);
        }
        return QuietNaN(f), fl';
      } else if aSign != 0 {
        return QuietNaN(f), fl'.(invalid := true);
      } else {
        return a, fl';
      }
    }
    if aSign != 0 {
      if ExpField(f, a) == 0 && MantField(f, a) == 0 {
        return a, fl';
      }
      return QuietNaN(f), fl'.(invalid := true);
    }
    var zero, aExp, aMant := NormalizedOperand(f, a);
    if zero {
      return Pack(f, 0, 0), fl';
    }
    r, fl' := SqrtFinite(f, Decode(f, a).mag, aExp, aMant, rm, fl);
  }

  method SqrtFinite(f: Format, ghost mag: nat, ea: int, sa: nat, rm: Rounding, fl: Flags) returns (r: nat, fl': Flags)
    requires NormOf(f, mag, ea, sa)
    ensures var o := RoundedTo(f, rm, 0, Root(Times(mag, P2(UnitExp(f)))));
      r == o.bits && fl' == Raise(fl, o.flags)
  {
    hide RoundedTo, P2, Cell, Scaled, Shl, OrBit, Short;
    var aExp, aMant := ea - Bias(f), sa;
    // an odd exponent gives one power to the significand
    var p := 0;
    if aExp % 2 != 0 {
      aExp, p := aExp - 1, 1;
    }
    var h := aExp / 2;
    RadicandRange(f, sa, p);
    aMant := Shl(f, Shl(f, aMant, p), f.Size() - 4 - f.mant);
    ZeroLowFits(f, aMant);
    var ok, s, inexact := SqrtremU(f, aMant, 0);
    assert ok;
    ghost var u, v := SqrtFacts(f, mag, ea, sa, h, p, s);
    r, fl' := NormalizeSf(f, 0, h + Bias(f), OrBit(s, inexact), rm, fl, 1, Root(Times(mag, P2(UnitExp(f)))), u, v);
  }

  lemma RadicandRange(f: Format, sa: nat, p: nat)
    requires P2(f.mant) <= sa < 2 * P2(f.mant) && p <= 1
    ensures Shl(f, sa, p) == sa * P2(p)
    ensures Shl(f, sa * P2(p), f.Size() - 4 - f.mant) == sa * P2(p) * P2(f.Size() - 4 - f.mant)
    ensures P2(f.Size() - 4) <= sa * P2(p) * P2(f.Size() - 4 - f.mant) < P2(f.Size() - 2)
  {
    hide P2;
    var c := f.Size() - 4 - f.mant;
    P2Small();
    ShiftFits(f, sa, p);
    P2Add(f.mant, c);
    P2Add(f.mant + 2, c);
    P2Add(2, f.mant);
    var t := sa * P2(p);
    assert P2(f.mant) <= t < 4 * P2(f.mant) by { MulMono(1, P2(p), sa); MulMono(P2(p), 2, sa); }
    MulMono(P2(f.mant), t, P2(c));
    MulStrict(t, 4 * P2(f.mant), P2(c));
    P2Mono(f.Size() - 2, f.Size());
    ShlFits(f, t, c);
  }
}
