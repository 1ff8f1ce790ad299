// Powers of two and the word-level operations built from them.
module Powers {

  type pos = n: nat | n > 0 witness 1

  function P2(n: nat): (p: nat)
    ensures p >= 1
  {
    if n == 0 then 1 else 2 * P2(n - 1)
  }

  lemma P2Small()
    ensures P2(0) == 1 && P2(1) == 2 && P2(2) == 4 && P2(3) == 8 && P2(4) == 16 && P2(5) == 32
  {}

  lemma {:induction false} P2Add(a: nat, b: nat)
    ensures P2(a + b) == P2(a) * P2(b)
  {
    if a > 0 {
      P2Add(a - 1, b);
      assert P2(a + b) == 2 * P2(a - 1 + b);
    }
  }

  lemma {:induction false} P2Mono(a: nat, b: nat)
    requires a <= b
    ensures P2(a) <= P2(b)
    ensures a < b ==> 2 * P2(a) <= P2(b)
    decreases b
  {
    if a < b {
      P2Mono(a, b - 1);
    }
  }

  // Elementary facts about products and quotients, used as named steps.

  lemma Assoc(a: int, b: int, c: int)
    ensures a * (b * c) == (a * b) * c
  {}

  lemma Distribute(a: int, b: int, c: int)
    ensures (a - b) * c == a * c - b * c
    ensures (a + b) * c == a * c + b * c
  {}

  lemma Square(a: int, b: int)
    ensures (a * b) * (a * b) == (a * a) * (b * b)
  {
    Assoc(a * b, a, b);
    Assoc(a, b, a);
    Assoc(a * a, b, b);
    assert (a * b) * a == (a * a) * b by { Assoc(a, a, b); }
  }

  lemma MulMono(a: nat, b: nat, c: nat)
    requires a <= b
    ensures a * c <= b * c
    ensures c * a <= c * b
  {}

  lemma MulStrict(a: nat, b: nat, c: pos)
    requires a < b
    ensures a * c < b * c
    ensures c * a < c * b
  {}

  lemma DivMod(x: nat, d: pos)
    ensures x == x / d * d + x % d && 0 <= x % d < d && 0 <= x / d
  {}

  lemma DivUnique(x: nat, d: pos, q: nat, r: nat)
    requires x == q * d + r && r < d
    ensures x / d == q && x % d == r
  {
    DivMod(x, d);
    if q < x / d {
      MulMono(q + 1, x / d, d);
    } else if x / d < q {
      MulMono(x / d + 1, q, d);
    }
  }

  lemma DivLt(x: nat, d: pos, n: nat)
    requires x < n * d
    ensures x / d < n
  {
    DivMod(x, d);
    if x / d >= n {
      MulMono(n, x / d, d);
    }
  }

  lemma DivGe(x: nat, d: pos, n: nat)
    requires n * d <= x
    ensures n <= x / d
  {
    DivMod(x, d);
    if x / d < n {
      MulMono(x / d + 1, n, d);
    }
  }

  /** Dividing in two steps is dividing by the product; the remainders combine. */
  lemma DivDiv(x: nat, a: pos, b: pos)
    ensures a * b > 0
    ensures x / (a * b) == x / a / b
    ensures x % (a * b) == x / a % b * a + x % a
  {
    DivMod(x, a);
    DivMod(x / a, b);
    var q, r := x / a / b, x / a % b;
    assert x / a == q * b + r;
    assert x / a * a == (q * b + r) * a;
    assert (q * b + r) * a == q * b * a + r * a;
    assert q * b * a == q * (a * b) by { assert q * b * a == q * (b * a); }
    MulMono(r, b - 1, a);
    assert (b - 1) * a == a * b - a;
    assert a * b > 0;
    DivUnique(x, a * b, q, r * a + x % a);
  }

  // ----- powers of two with a negative exponent, as fractions -----

  // u / v == 2^i
  ghost predicate IsPow(i: int, u: pos, v: pos) {
    if i >= 0 then u == v * P2(i) else u * P2(-i) == v
  }

  function Num(i: int): pos { if i >= 0 then P2(i) else 1 }

  function Den(i: int): pos { if i >= 0 then 1 else P2(-i) }

  lemma IsPowBase(i: int)
    ensures IsPow(i, Num(i), Den(i))
  {}

  lemma IsPowInverse(i: int)
    ensures IsPow(-i, Den(i), Num(i))
  {}

  lemma IsPowScale(i: int, u: pos, v: pos, c: pos)
    requires IsPow(i, u, v)
    ensures c * u > 0 && c * v > 0 && IsPow(i, c * u, c * v)
  {
    if i >= 0 { Assoc(c, v, P2(i)); } else { Assoc(c, u, P2(-i)); }
  }

  lemma IsPowNat(n: nat)
    ensures IsPow(n, P2(n), 1) && IsPow(0 - n, 1, P2(n))
  {}

  lemma Comm4(a: int, b: int, c: int, d: int)
    ensures (a * b) * (c * d) == (a * c) * (b * d)
  {
    Assoc(a * b, c, d);
    assert a * b * c == a * c * b by { Assoc(a, b, c); Assoc(a, c, b); }
    Assoc(a * c, b, d);
  }

  /** 2^i * 2^j == 2^(i+j) for integers i and j. */
  lemma IsPowMul(i: int, j: int, u: pos, v: pos, s: pos, t: pos)
    requires IsPow(i, u, v) && IsPow(j, s, t)
    ensures u * s > 0 && v * t > 0 && IsPow(i + j, u * s, v * t)
  {
    hide P2;
    assert u * s > 0 && v * t > 0;
    if i >= 0 && j >= 0 {
      P2Add(i, j);
      Comm4(v, P2(i), t, P2(j));
    } else if i < 0 && j < 0 {
      P2Add(-i, -j);
      Comm4(u, P2(-i), s, P2(-j));
    } else if i >= 0 {
      IsPowMixed(i, -j, u, v, s, t);
    } else {
      IsPowMixed(j, -i, s, t, u, v);
    }
  }

  lemma IsPowMixed(i: nat, j: nat, u: pos, v: pos, s: pos, t: pos)
    requires u == v * P2(i) && s * P2(j) == t
    ensures u * s > 0 && v * t > 0 && IsPow(i - j, u * s, v * t)
  {
    // u s 2^j == v t 2^i
    assert u * (s * P2(j)) == v * P2(i) * t;
    if i >= j {
      P2Add(i - j, j);
      assert u * s * P2(j) == v * t * P2(i - j) * P2(j) by {
        Assoc(u, s, P2(j));
        Assoc(v * t, P2(i - j), P2(j));
        Assoc(v, P2(i), t);
        Assoc(v, t, P2(i));
      }
      Cancel(u * s, v * t * P2(i - j), P2(j));
    } else {
      P2Add(j - i, i);
      assert u * s * P2(j - i) * P2(i) == v * t * P2(i) by {
        Assoc(u, s, P2(j));
        Assoc(u * s, P2(j - i), P2(i));
        Assoc(v, P2(i), t);
        Assoc(v, t, P2(i));
      }
      Cancel(u * s * P2(j - i), v * t, P2(i));
    }
  }

  lemma Cancel(a: int, b: int, c: pos)
    requires a * c == b * c
    ensures a == b
  {
    var t := a - b;
    Distribute(a, b, c);
    assert t * c == 0;
  }
}
