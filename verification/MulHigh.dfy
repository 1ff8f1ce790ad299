// The high word of a product from half words (include/dromajo_template.h): mulhu,
// mulh and mulhsu for hosts without a double-width integer.
module MulHigh {
  import opened Powers
  import opened SoftFloatMul
  import opened IeeeOps

  // A word has two halves of base h, so words are below h * h.
  function MulHU(h: pos, a: nat, b: nat): nat {
    var a0, a1, b0, b1 := Lo(a, h), Hi(a, h), Lo(b, h), Hi(b, h);
    var r00, r01, r10, r11 := Times(a0, b0), Times(a0, b1), Times(a1, b0), Times(a1, b1);
    var c := Carry1(r00, r01, r10, h);
    var c2 := Carry2(c, r01, r10, r11, h);
    var r3 := Lo(Hi(c2, h) + Hi(r11, h), h);
    TwoDigits(r3, Lo(c2, h), h)
  }

  /** mulhu is the high word of the unsigned product. */
  lemma MulHUCorrect(h: pos, a: nat, b: nat)
    requires h >= 4 && a < h * h && b < h * h
    ensures MulHU(h, a, b) == a * b / (h * h)
    ensures 0 <= MulHU(h, a, b) < h * h
  {
    hide Hi, Lo, Carry1, Carry2, Times, TwoDigits;
    MulSteps(a, b, h);
    var a0, a1, b0, b1 := Lo(a, h), Hi(a, h), Lo(b, h), Hi(b, h);
    var r00, r01, r10, r11 := Times(a0, b0), Times(a0, b1), Times(a1, b0), Times(a1, b1);
    var c := Carry1(r00, r01, r10, h);
    var c2 := Carry2(c, r01, r10, r11, h);
    var top := Hi(c2, h) + Hi(r11, h);
    LoSmall(top, h);
    var hi, lo := TwoDigits(top, Lo(c2, h), h), TwoDigits(Lo(c, h), Lo(r00, h), h);
    TimesIs(hi, h * h);
    TimesIs(a, b);
    DivUnique(a * b, h * h, hi, lo);
  }

  // ----- signed operands -----

  predicate Negative(n: pos, a: nat) { 2 * a >= n }

  // The two's complement value of a word below n.
  function SignedOf(n: pos, a: nat): int { if Negative(n, a) then a - n else a }

  // mulh and mulhsu as written: each negative operand is subtracted from the high word.
  function MulH(h: pos, a: nat, b: nat): int {
    (MulHU(h, a, b) - (if Negative(h * h, a) then a else 0) - (if Negative(h * h, b) then b else 0)) % (h * h)
  }

  function MulHSU(h: pos, a: nat, b: nat): int {
    (MulHU(h, a, b) - (if Negative(h * h, a) then a else 0)) % (h * h)
  }

  lemma ModShift(x: int, k: int, n: pos)
    ensures (x + k * n) % n == x % n && (x + k * n) / n == x / n + k
  {
    var q, r := x / n, x % n;
    assert x == q * n + r && 0 <= r < n;
    Distribute(q, k, n);
    FloorUnique(x + k * n, n, q + k, r);
  }

  lemma FloorUnique(x: int, n: pos, q: int, r: int)
    requires x == q * n + r && 0 <= r < n
    ensures x / n == q && x % n == r
  {
    var d := x / n - q;
    assert x / n * n + x % n == q * n + r;
    Distribute(x / n, q, n);
    if d >= 1 { MulMono(1, d, n); } else if d <= -1 { MulMono(1, -d, n); }
  }

  // The high word of the signed product: subtract the other operand for each negative one.
  lemma SignedHigh(n: pos, a: nat, b: nat, na: int, nb: int)
    requires 0 <= na <= 1 && 0 <= nb <= 1
    ensures (a - na * n) * (b - nb * n) / n == a * b / n - na * b - nb * a + na * nb * n
    ensures (a - na * n) * (b - nb * n) / n % n == (a * b / n - na * b - nb * a) % n
  {
    var k := -na * b - nb * a + na * nb * n;
    assert (a - na * n) * (b - nb * n) == a * b + k * n by { SignedProduct(n, a, b, na, nb); }
    ModShift(a * b, k, n);
    ModShift(a * b / n - na * b - nb * a, na * nb, n);
  }

  lemma SignedProduct(n: int, a: int, b: int, na: int, nb: int)
    requires 0 <= na <= 1 && 0 <= nb <= 1
    ensures (a - na * n) * (b - nb * n) == a * b + (-na * b - nb * a + na * nb * n) * n
  {
    if na == 0 && nb == 0 {
    } else if na == 0 {
      Distribute(b, n, a);
    } else if nb == 0 {
      Distribute(a, n, b);
    } else {
      Distribute(a, n, b - n);
      Distribute(b, n, a);
      Distribute(b, n, n);
      Distribute(n - a, b, n);
    }
  }

  lemma ModEqual(n: pos, x: int, a: nat, b: nat)
    requires a < n && b < n
    ensures (x - a) % n == (x - b) % n <==> a == b
  {
    var i, j := (x - a) / n, (x - b) / n;
    if (x - a) % n == (x - b) % n {
      Distribute(i, j, n);
      if i - j >= 1 { MulMono(1, i - j, n); } else if i - j <= -1 { MulMono(1, j - i, n); }
    }
  }

  /** mulh as written is the signed high word exactly when the operands have the same sign:
      it subtracts the negative operand itself where the other one is due. */
  lemma MulHCorrectIff(h: pos, a: nat, b: nat)
    requires h >= 4 && a < h * h && b < h * h
    ensures var n := h * h;
      MulH(h, a, b) == SignedOf(n, a) * SignedOf(n, b) / n % n <==> (Negative(n, a) <==> Negative(n, b))
  {
    hide MulHU;
    var n := h * h;
    MulHUCorrect(h, a, b);
    var na, nb := if Negative(n, a) then 1 else 0, if Negative(n, b) then 1 else 0;
    SignedHigh(n, a, b, na, nb);
    assert SignedOf(n, a) == a - na * n && SignedOf(n, b) == b - nb * n;
    ModEqual(n, a * b / n, a, b);
  }

  /** mulhsu as written is the signed-unsigned high word exactly when the signed operand is
      not negative or both operands are the same word. */
  lemma MulHSUCorrectIff(h: pos, a: nat, b: nat)
    requires h >= 4 && a < h * h && b < h * h
    ensures var n := h * h;
      MulHSU(h, a, b) == SignedOf(n, a) * b / n % n <==> !Negative(n, a) || a == b
  {
    hide MulHU;
    var n := h * h;
    MulHUCorrect(h, a, b);
    var na := if Negative(n, a) then 1 else 0;
    SignedHigh(n, a, b, na, 0);
    assert SignedOf(n, a) == a - na * n && b == b - 0 * n;
    ModEqual(n, a * b / n, a, b);
  }

  /** -1 times 2 (any even word size): both return 2 where the high word is -1. */
  lemma MulHCounterexample(h: pos)
    requires h >= 4 && h % 2 == 0
    ensures var n := h * h;
      n - 1 < n && SignedOf(n, n - 1) == -1 && SignedOf(n, 2) == 2
      && MulH(h, n - 1, 2) == 2 && MulHSU(h, n - 1, 2) == 2 && -1 * 2 / n % n == n - 1
  {
    hide MulHU;
    var n := h * h;
    MulMono(4, h, h);
    MulHUCorrect(h, n - 1, 2);
    FloorUnique((n - 1) * 2, n, 1, n - 2);
    FloorUnique(1 - (n - 1), n, -1, 2);
    FloorUnique(-2, n, -1, n - 2);
    FloorUnique(-1, n, -1, n - 1);
  }
}
