// Physical memory protection of src/riscv_cpu.cpp: the pmpcfg and pmpaddr registers, the
// compacted list unpacked from them, and the check of an access against that list.
module Pmp {
  import opened Basics
  import opened Powers

  const PMP_N := 8
  const ENTRIES := 16

  // Four pmpcfg words (1 and 3 do not exist in RV64) and sixteen pmpaddr registers.
  datatype Csrs = Csrs(cfg: seq<nat>, addr: seq<nat>)

  // An unpacked entry: the interval [lo, hi) and its configuration byte.
  datatype Region = Region(lo: nat, hi: nat, cfg: nat)

  datatype Access = Load | Store | Execute

  // Two of the privilege levels of the architecture.
  const PRV_S := 1
  const PRV_M := 3

  function Byte(w: nat, i: nat): (b: nat)
    ensures b < 256
  {
    DivMod(w, P2(8 * i));
    w / P2(8 * i) % 256
  }

  function Mode(c: nat): nat { c / 8 % 4 }
  function Locked(c: nat): bool { c / 128 % 2 == 1 }
  const OFF := 0
  const TOR := 1
  const NA4 := 2
  const NAPOT := 3

  // The two reserved bits of a configuration byte cleared.
  function Writable(c: nat): nat { c / 128 * 128 + c % 32 }

  function Cfg(s: Csrs, i: nat): (b: nat)
    requires |s.cfg| == 4
    ensures b < 256
  {
    if i < 8 then Byte(s.cfg[0], i) else Byte(s.cfg[2], i - 8)
  }

  // What every reachable register file satisfies.
  ghost predicate Wf(s: Csrs) {
    && |s.cfg| == 4 && |s.addr| == ENTRIES && s.cfg[2] == 0
    && (forall i :: 0 <= i < 8 ==> Writable(Byte(s.cfg[0], i)) == Byte(s.cfg[0], i))
    && (forall i :: 0 <= i < ENTRIES ==> s.addr[i] < P2(38))
  }

  // ----- what the registers mean: section 3.6.1 of RISC-V Privileged v1.11 -----

  function TrailingOnes(a: nat): nat {
    if a % 2 == 0 then 0 else 1 + TrailingOnes(a / 2)
  }

  // Byte address x belongs to entry i.
  ghost predicate InEntry(s: Csrs, i: nat, x: nat)
    requires |s.cfg| == 4 && |s.addr| == ENTRIES && i < ENTRIES
  {
    var m, a := Mode(Cfg(s, i)), 4 * s.addr[i];
    if m == OFF then false
    else if m == TOR then (if i == 0 then 0 else 4 * s.addr[i - 1]) <= x < a
    else if m == NA4 then a <= x < a + 4
    else x / P2(TrailingOnes(s.addr[i]) + 3) == a / P2(TrailingOnes(s.addr[i]) + 3)
  }

  // ----- register writes -----

  datatype Write = CfgWrite(c: nat, val: nat) | AddrWrite(i: nat, val: nat)

  ghost predicate WriteOk(w: Write) {
    match w
    case CfgWrite(c, v) => c == 0 || c == 2
    case AddrWrite(i, v) => i < ENTRIES
  }

  // The byte a write of val leaves in place i: a locked byte stays.
  function Chosen(w: nat, val: nat, i: nat): (c: nat)
    ensures c < 256
  {
    Writable(if Locked(Byte(w, i)) then Byte(w, i) else Byte(val, i))
  }

  // The first n chosen bytes, put together.
  function CfgWord(w: nat, val: nat, n: nat): nat {
    if n == 0 then 0
    else
      MulMono(0, Chosen(w, val, n - 1), P2(8 * (n - 1)));
      CfgWord(w, val, n - 1) + Chosen(w, val, n - 1) * P2(8 * (n - 1))
  }

  lemma {:induction false} CfgWordByte(w: nat, val: nat, n: nat, i: nat)
    requires i < n
    ensures CfgWord(w, val, n) < P2(8 * n) && Byte(CfgWord(w, val, n), i) == Chosen(w, val, i)
  {
    hide P2, Byte, Chosen;
    var lo, c := CfgWord(w, val, n - 1), Chosen(w, val, n - 1);
    CfgWordFits(w, val, n - 1);
    CfgWordFits(w, val, n);
    if i == n - 1 {
      TopByte(lo, c, n - 1);
    } else {
      CfgWordByte(w, val, n - 1, i);
      LowByte(lo, c, n - 1, i);
    }
  }

  lemma {:induction false} CfgWordFits(w: nat, val: nat, n: nat)
    ensures CfgWord(w, val, n) < P2(8 * n)
  {
    hide P2, Byte, Chosen;
    if n == 0 {
      P2Small();
    } else {
      CfgWordFits(w, val, n - 1);
      var c := Chosen(w, val, n - 1);
      P2Add(8, 8 * (n - 1));
      P256();
      MulMono(c, 255, P2(8 * (n - 1)));
    }
  }

  lemma TopByte(lo: nat, c: nat, i: nat)
    requires lo < P2(8 * i) && c < 256
    ensures Byte(lo + c * P2(8 * i), i) == c
  {
    hide P2;
    DivUnique(lo + c * P2(8 * i), P2(8 * i), c, lo);
  }

  lemma LowByte(lo: nat, c: nat, n: nat, i: nat)
    requires i < n
    ensures Byte(lo + c * P2(8 * n), i) == Byte(lo, i)
  {
    hide P2;
    var d: nat := n - 1 - i;
    P2Add(8 * i, 8 * (n - i));
    P2Add(8 * d, 8);
    P256();
    Regroup(c, P2(8 * i), P2(8 * (n - i)), P2(8 * d));
    ShiftedIn(lo, c * P2(8 * d), P2(8 * i));
  }

  lemma Regroup(c: nat, p: nat, q: nat, r: nat)
    requires q == r * 256
    ensures c * (p * q) == c * r * 256 * p
  {
    Assoc(c, r, 256);
    Assoc(c, q, p);
  }

  lemma P256()
    ensures P2(8) == 256
  {
    P2Small();
    P2Add(4, 4);
  }

  lemma ShiftedIn(lo: nat, k: nat, p: pos)
    ensures (lo + k * 256 * p) / p % 256 == lo / p % 256
  {
    DivMod(lo, p);
    Distribute(lo / p, k * 256, p);
    DivUnique(lo + k * 256 * p, p, lo / p + k * 256, lo % p);
  }

  /** One register write. */
  function Apply(s: Csrs, w: Write): (s': Csrs)
    requires |s.cfg| == 4 && |s.addr| == ENTRIES && WriteOk(w)
    ensures |s'.cfg| == 4 && |s'.addr| == ENTRIES
  {
    match w
    case CfgWrite(c, v) =>
      if PMP_N <= c / 2 * 8 then s else s.(cfg := s.cfg[c := CfgWord(s.cfg[c], v, 8)])
    case AddrWrite(i, v) =>
      if PMP_N <= i || Locked(Cfg(s, i)) || (i < 7 && Mode(Cfg(s, i + 1)) == TOR && Locked(Cfg(s, i + 1))) then s
      else DivMod(v, P2(38)); s.(addr := s.addr[i := v % P2(38)])
  }

  function ApplyAll(s: Csrs, ws: seq<Write>): (s': Csrs)
    requires |s.cfg| == 4 && |s.addr| == ENTRIES && forall w :: w in ws ==> WriteOk(w)
    ensures |s'.cfg| == 4 && |s'.addr| == ENTRIES
  {
    if ws == [] then s else Apply(ApplyAll(s, ws[..|ws| - 1]), ws[|ws| - 1])
  }

  lemma WritableTwice(c: nat)
    ensures Writable(Writable(c)) == Writable(c)
  {
    DivUnique(Writable(c), 128, c / 128, c % 32);
    DivUnique(Writable(c), 32, 4 * (c / 128), c % 32);
  }

  lemma ApplyWf(s: Csrs, w: Write)
    requires Wf(s) && WriteOk(w)
    ensures Wf(Apply(s, w))
  {
    hide P2, Byte, CfgWord, Writable, Locked, Mode;
    if w.CfgWrite? && w.c == 0 {
      forall i | 0 <= i < 8 ensures var b := Byte(Apply(s, w).cfg[0], i); Writable(b) == b {
        CfgWordByte(s.cfg[0], w.val, 8, i);
        WritableTwice(Byte(s.cfg[0], i));
        WritableTwice(Byte(w.val, i));
      }
    }
    if w.AddrWrite? { DivMod(w.val, P2(38)); }
  }

  // What entry i is decided by is the same in s and s'.
  ghost predicate SameEntry(s: Csrs, s': Csrs, i: nat)
    requires |s.cfg| == 4 && |s.addr| == ENTRIES && |s'.cfg| == 4 && |s'.addr| == ENTRIES && i < ENTRIES
  {
    && Cfg(s', i) == Cfg(s, i) && s'.addr[i] == s.addr[i]
    && (Mode(Cfg(s, i)) == TOR && i > 0 ==> s'.addr[i - 1] == s.addr[i - 1])
  }

  lemma LockedStep(s: Csrs, w: Write, i: nat)
    requires Wf(s) && WriteOk(w) && i < ENTRIES && Locked(Cfg(s, i))
    ensures SameEntry(s, Apply(s, w), i)
  {
    hide P2, Byte, CfgWord;
    if i >= 8 { ZeroByte(i - 8); }
    if w.CfgWrite? && w.c == 0 { CfgWordByte(s.cfg[0], w.val, 8, i); }
  }

  lemma ZeroByte(i: nat)
    ensures Byte(0, i) == 0
  {
    hide P2;
    DivUnique(0, P2(8 * i), 0, 0);
  }

  /** Locking is permanent: over any sequence of register writes a locked entry keeps its
      configuration, its address and, when it is a top-of-range entry, its lower bound; so it
      covers the same addresses for ever. */
  lemma {:induction false} LockedForever(s: Csrs, ws: seq<Write>, i: nat)
    requires Wf(s) && (forall w :: w in ws ==> WriteOk(w)) && i < ENTRIES && Locked(Cfg(s, i))
    ensures Wf(ApplyAll(s, ws)) && SameEntry(s, ApplyAll(s, ws), i)
    ensures forall x: nat :: InEntry(ApplyAll(s, ws), i, x) <==> InEntry(s, i, x)
  {
    hide P2, Byte, Apply;
    if ws != [] {
      var t := ApplyAll(s, ws[..|ws| - 1]);
      LockedForever(s, ws[..|ws| - 1], i);
      LockedStep(t, ws[|ws| - 1], i);
      ApplyWf(t, ws[|ws| - 1]);
    }
  }

  // ----- the unpacked list -----

  function NapotLo(a: nat): (lo: nat) {
    DivMod(4 * a, P2(TrailingOnes(a) + 3));
    4 * a / P2(TrailingOnes(a) + 3) * P2(TrailingOnes(a) + 3)
  }

  function Bounds(s: Csrs, i: nat): (r: Region)
    requires |s.cfg| == 4 && |s.addr| == ENTRIES && i < ENTRIES
  {
    var c, a := Cfg(s, i), s.addr[i];
    if Mode(c) == TOR then Region(if i == 0 then 0 else 4 * s.addr[i - 1], 4 * a, c)
    else if Mode(c) == NA4 then Region(4 * a, 4 * a + 4, c)
    else Region(NapotLo(a), NapotLo(a) + P2(TrailingOnes(a) + 3), c)
  }

  // The active entries among the first n, in order.
  function Unpacked(s: Csrs, n: nat): (rs: seq<Region>)
    requires |s.cfg| == 4 && |s.addr| == ENTRIES && n <= ENTRIES
    ensures |rs| <= n
  {
    if n == 0 then []
    else if Mode(Cfg(s, n - 1)) == OFF then Unpacked(s, n - 1)
    else Unpacked(s, n - 1) + [Bounds(s, n - 1)]
  }

  /** An unpacked interval is exactly the set of addresses its entry covers. */
  lemma BoundsCover(s: Csrs, i: nat, x: nat)
    requires |s.cfg| == 4 && |s.addr| == ENTRIES && i < ENTRIES && Mode(Cfg(s, i)) != OFF
    ensures Bounds(s, i).lo <= x < Bounds(s, i).hi <==> InEntry(s, i, x)
  {
    hide P2, Byte, Mode, TrailingOnes;
    assert Mode(Cfg(s, i)) < 4 by { ModeRange(Cfg(s, i)); }
    if Mode(Cfg(s, i)) == NAPOT {
      SameBlock(x, 4 * s.addr[i], P2(TrailingOnes(s.addr[i]) + 3));
    }
  }

  lemma ModeRange(c: nat)
    ensures Mode(c) < 4
  {}

  lemma SameBlock(x: nat, a: nat, p: pos)
    ensures a / p * p <= x < a / p * p + p <==> x / p == a / p
  {
    DivMod(x, p);
    DivMod(a, p);
    if a / p * p <= x < a / p * p + p { DivUnique(x, p, a / p, x - a / p * p); }
  }

  /** Decoding inverts the encoding of every naturally aligned power-of-two region of at
      least eight bytes. */
  lemma NapotInverse(base: nat, k: nat)
    requires k >= 3 && base % P2(k) == 0
    ensures var a := base / 4 + P2(k - 3) - 1; NapotLo(a) == base && TrailingOnes(a) + 3 == k
  {
    hide P2;
    DivMod(base, P2(k));
    var n := base / P2(k);
    P2Add(2, k - 2);
    P2Add(1, k - 3);
    P2Add(3, k - 3);
    P2Small();
    var h := P2(k - 3);
    assert P2(k) == 8 * h;
    assert base == 4 * (n * (2 * h)) by { Assoc(n, 4, 2 * h); assert n * (8 * h) == 4 * (n * (2 * h)); }
    ZeroThenOnesValue(n, k - 3);
    TrailingOnesOf(n, k - 3);
    var a := base / 4 + h - 1;
    assert a == n * (2 * h) + h - 1;
    DivUnique(4 * a, P2(k), n, 4 * h - 4);
  }

  // n, a zero bit, and t one bits.
  function ZeroThenOnes(n: nat, t: nat): nat { if t == 0 then 2 * n else 2 * ZeroThenOnes(n, t - 1) + 1 }

  lemma {:induction false} ZeroThenOnesValue(n: nat, t: nat)
    ensures ZeroThenOnes(n, t) == n * (2 * P2(t)) + P2(t) - 1
  {
    if t > 0 {
      ZeroThenOnesValue(n, t - 1);
      Twice(n, P2(t - 1));
    }
  }

  lemma Twice(n: nat, q: nat)
    ensures n * (2 * (2 * q)) == 2 * (n * (2 * q))
  {
    Assoc(n, 2, 2 * q);
  }

  lemma {:induction false} TrailingOnesOf(n: nat, t: nat)
    ensures TrailingOnes(ZeroThenOnes(n, t)) == t
  {
    if t > 0 { TrailingOnesOf(n, t - 1); }
  }

  lemma {:induction false} TrailingOnesAt(a: nat, j: nat)
    requires j < TrailingOnes(a)
    ensures a / P2(j) % 2 == 1
  {
    if j > 0 {
      TrailingOnesAt(a / 2, j - 1);
      DivDiv(a, 2, P2(j - 1));
    }
  }

  lemma {:induction false} TrailingOnesEnd(a: nat)
    ensures a / P2(TrailingOnes(a)) % 2 == 0
    ensures P2(TrailingOnes(a)) <= a + 1
  {
    if a % 2 == 1 {
      TrailingOnesEnd(a / 2);
      DivDiv(a, 2, P2(TrailingOnes(a / 2)));
    }
  }

  // A 38-bit register keeps every intermediate value of the decoding below 2^64.
  lemma Within38(a: nat)
    requires a < P2(38)
    ensures TrailingOnes(a) <= 38
    ensures 4 * a < WORD && 4 * a + P2(TrailingOnes(a) + 3) < WORD
  {
    hide P2, TrailingOnes;
    var t := TrailingOnes(a);
    TrailingOnesEnd(a);
    if t > 38 { P2Mono(38, t); }
    P2Mono(t + 3, 41);
    P2Add(2, 38);
    P2Small();
    P2Mono(40, 41);
    P2Mono(41, 42);
    P2Mono(42, 64);
    WordBits();
  }

  lemma WordBits()
    ensures P2(64) == WORD
  {
    hide P2;
    P2Small();
    P2Add(4, 4);
    P2Add(8, 8);
    P2Add(16, 16);
    P2Add(32, 32);
  }

  /** The trailing-ones count and the 64-bit mask arithmetic of a NAPOT entry. */
  method DecodeNapot(a: nat) returns (lo: nat, hi: nat)
    requires a < WORD
    ensures a < P2(38) ==> lo == NapotLo(a) && hi == lo + P2(TrailingOnes(a) + 3)
  {
    hide P2, TrailingOnes;
    var j: nat := 0;
    while j < 64 && a / P2(j) % 2 != 0
      invariant j <= TrailingOnes(a)
    {
      if j == TrailingOnes(a) { TrailingOnesEnd(a); }
      j := j + 1;
    }
    if j < TrailingOnes(a) && j < 64 { TrailingOnesAt(a, j); }
    if a < P2(38) { Within38(a); }
    lo, hi := NapotMask(a, j + 3);
  }

  method NapotMask(a: nat, j: nat) returns (lo: nat, hi: nat)
    ensures 4 * a + P2(j) < WORD && j < 64 ==> lo == 4 * a / P2(j) * P2(j) && hi == lo + P2(j)
  {
    hide P2;
    if j >= 64 { return 0, WORD - 1; }
    var v := 4 * a % WORD;
    DivMod(v, P2(j));
    lo := Floor(v, P2(j));
    hi := (lo + P2(j)) % WORD;
    if 4 * a + P2(j) < WORD { FloorFits(4 * a, P2(j)); }
    if hi <= lo { hi := WORD - 1; }
  }

  // x with the bits below p cleared
  function Floor(x: nat, p: pos): nat { DivMod(x, p); x / p * p }

  lemma FloorFits(x: nat, p: pos)
    requires x + p < WORD
    ensures x % WORD == x && Floor(x, p) <= x && (Floor(x, p) + p) % WORD == Floor(x, p) + p
  {
    DivMod(x, p);
  }

  // ----- checking an access -----

  predicate Hits(r: Region, paddr: nat, size: nat) { r.lo <= paddr + size - 1 && paddr < r.hi }

  predicate Allows(c: nat, a: Access) {
    match a
    case Load => c % 2 == 1
    case Store => c / 2 % 2 == 1
    case Execute => c / 4 % 2 == 1
  }

  // The first entry of the list that hits.
  function FirstHit(rs: seq<Region>, paddr: nat, size: nat): Option<Region> {
    if rs == [] then None
    else
      var h := FirstHit(rs[..|rs| - 1], paddr, size);
      if h.Some? then h
      else if Hits(rs[|rs| - 1], paddr, size) then Some(rs[|rs| - 1]) else None
  }

  // What the deciding configuration, if any, means at a privilege level.
  function Verdict(c: Option<nat>, priv: nat, a: Access): bool {
    match c
    case None => priv == PRV_M
    case Some(c) => (priv == PRV_M && !Locked(c)) || Allows(c, a)
  }

  function CfgOf(r: Option<Region>): Option<nat> {
    match r case None => None case Some(r) => Some(r.cfg)
  }

  // The level an access is checked at.
  function EffectivePriv(priv: nat, mprv: bool, mpp: nat, a: Access): nat {
    if mprv && a != Execute then mpp else priv
  }

  function ListOk(rs: seq<Region>, priv: nat, addrLen: nat, paddr: nat, size: nat, a: Access): bool {
    paddr < P2(addrLen) && Verdict(CfgOf(FirstHit(rs, paddr, size)), priv, a)
  }

  ghost predicate Touches(s: Csrs, i: nat, paddr: nat, size: nat)
    requires |s.cfg| == 4 && |s.addr| == ENTRIES && i < ENTRIES
  {
    exists x: nat :: paddr <= x < paddr + size && InEntry(s, i, x)
  }

  // The lowest-numbered of the first n entries that the access touches.
  ghost function Lowest(s: Csrs, n: nat, paddr: nat, size: nat): (r: Option<nat>)
    requires |s.cfg| == 4 && |s.addr| == ENTRIES && n <= ENTRIES
    ensures r.Some? ==> r.value < n && Mode(Cfg(s, r.value)) != OFF && Touches(s, r.value, paddr, size)
  {
    if n == 0 then None
    else
      var r := Lowest(s, n - 1, paddr, size);
      if r.Some? then r else if Touches(s, n - 1, paddr, size) then Some(n - 1) else None
  }

  // An inverted or empty top-of-range interval that lies strictly inside the access.
  ghost predicate Straddles(s: Csrs, i: nat, paddr: nat, size: nat)
    requires |s.cfg| == 4 && |s.addr| == ENTRIES && i < ENTRIES
  {
    Mode(Cfg(s, i)) != OFF && Bounds(s, i).hi <= Bounds(s, i).lo && Hits(Bounds(s, i), paddr, size)
  }

  /** The overlap test of an unpacked entry agrees with the registers exactly when the access
      does not straddle an empty region. */
  lemma HitsIff(s: Csrs, i: nat, paddr: nat, size: nat)
    requires |s.cfg| == 4 && |s.addr| == ENTRIES && i < ENTRIES && Mode(Cfg(s, i)) != OFF && size > 0
    ensures (Hits(Bounds(s, i), paddr, size) <==> Touches(s, i, paddr, size)) <==> !Straddles(s, i, paddr, size)
  {
    hide P2, Byte, Mode, InEntry, Bounds;
    var r := Bounds(s, i);
    if Touches(s, i, paddr, size) {
      var x: nat :| paddr <= x < paddr + size && InEntry(s, i, x);
      BoundsCover(s, i, x);
    }
    if r.lo < r.hi && Hits(r, paddr, size) {
      BoundsCover(s, i, if r.lo < paddr then paddr else r.lo);
    }
  }

  /** An aligned access of at most four bytes never straddles one. */
  lemma SmallNeverStraddles(s: Csrs, i: nat, paddr: nat, size: nat)
    requires |s.cfg| == 4 && |s.addr| == ENTRIES && i < ENTRIES
    requires (size == 1 || size == 2 || size == 4) && paddr % size == 0
    ensures !Straddles(s, i, paddr, size)
  {
    hide P2, Byte, Mode, TrailingOnes, NapotLo;
    if Straddles(s, i, paddr, size) {
      var lo, v := Bounds(s, i).lo, s.addr[i];
      NoRoomBelow(paddr, size, v);
    }
  }

  lemma NoRoomBelow(paddr: nat, size: nat, v: nat)
    requires (size == 1 || size == 2 || size == 4) && paddr % size == 0 && paddr < 4 * v
    ensures paddr + size <= 4 * v
  {}

  // Entry 1 a top-of-range entry from 4 to 4.
  function EmptyRegion(): Csrs { Csrs([8 * 256, 0, 0, 0], seq(ENTRIES, i => if i < 2 then 1 else 0)) }

  /** An eight-byte load over an empty region between its halves is decided by that region. */
  lemma StraddleExample()
    ensures Wf(EmptyRegion()) && Straddles(EmptyRegion(), 1, 0, 8) && !Touches(EmptyRegion(), 1, 0, 8)
  {
    hide Byte, P2, Touches;
    var s := EmptyRegion();
    EmptyRegionWf();
    StraddleBytes();
    assert Bounds(s, 1) == Region(4, 4, 8);
    HitsIff(s, 1, 0, 8);
  }

  lemma EmptyRegionWf()
    ensures Wf(EmptyRegion())
  {
    hide Byte, P2, Writable;
    var s := EmptyRegion();
    forall i | 0 <= i < 8 ensures Writable(Byte(s.cfg[0], i)) == Byte(s.cfg[0], i) {
      StraddleBytes2(i);
    }
    P2Mono(1, 38);
    P2Small();
  }

  lemma StraddleBytes()
    ensures Byte(8 * 256, 1) == 8
  {
    P256();
  }

  lemma StraddleBytes2(i: nat)
    ensures Writable(Byte(8 * 256, i)) == Byte(8 * 256, i)
  {
    hide P2;
    P256();
    P2Small();
    if i >= 2 {
      P2Mono(16, 8 * i);
      P2Add(8, 8);
      DivUnique(8 * 256, P2(8 * i), 0, 8 * 256);
    }
  }

  // How many entries come before the one that should decide.
  ghost function Ahead(s: Csrs, n: nat, paddr: nat, size: nat): (k: nat)
    requires |s.cfg| == 4 && |s.addr| == ENTRIES && n <= ENTRIES
    ensures k <= n
  {
    var r := Lowest(s, n, paddr, size);
    if r.Some? then r.value else n
  }

  // None of the first k entries is straddled.
  ghost predicate Clean(s: Csrs, k: nat, paddr: nat, size: nat)
    requires |s.cfg| == 4 && |s.addr| == ENTRIES && k <= ENTRIES
  {
    forall i :: 0 <= i < k ==> !Straddles(s, i, paddr, size)
  }

  ghost function Deciding(s: Csrs, n: nat, paddr: nat, size: nat): Option<Region>
    requires |s.cfg| == 4 && |s.addr| == ENTRIES && n <= ENTRIES
  {
    var r := Lowest(s, n, paddr, size);
    if r.Some? then Some(Bounds(s, r.value)) else None
  }

  /** The compacted list decides as the registers do if and only if the access straddles no entry before
      the lowest-numbered one it touches, or none at all where it touches none. */
  lemma ListDecides(s: Csrs, n: nat, paddr: nat, size: nat)
    requires |s.cfg| == 4 && |s.addr| == ENTRIES && n <= ENTRIES && size > 0
    ensures FirstHit(Unpacked(s, n), paddr, size) == Deciding(s, n, paddr, size)
            <==> Clean(s, Ahead(s, n, paddr, size), paddr, size)
  {
    hide P2, Byte, Mode, Cfg, InEntry, Bounds, Straddles, Touches, FirstHit, Unpacked, Clean, Lowest;
    ListFirst(s, n, paddr, size);
    var r := Lowest(s, n, paddr, size);
    if r.Some? { TouchedNotEmpty(s, r.value, paddr, size); }
  }

  // An entry that is touched is not empty; one that is straddled is.
  lemma TouchedNotEmpty(s: Csrs, i: nat, paddr: nat, size: nat)
    requires |s.cfg| == 4 && |s.addr| == ENTRIES && i < ENTRIES && Touches(s, i, paddr, size) && Mode(Cfg(s, i)) != OFF
    ensures Bounds(s, i).lo < Bounds(s, i).hi && !Straddles(s, i, paddr, size)
  {
    hide P2, Byte, Mode, InEntry, Bounds;
    var x: nat :| paddr <= x < paddr + size && InEntry(s, i, x);
    BoundsCover(s, i, x);
  }

  // The first hit: the deciding entry, or else an empty one ahead of it.
  lemma {:induction false} ListFirst(s: Csrs, n: nat, paddr: nat, size: nat)
    requires |s.cfg| == 4 && |s.addr| == ENTRIES && n <= ENTRIES && size > 0
    ensures var f := FirstHit(Unpacked(s, n), paddr, size);
      if Clean(s, Ahead(s, n, paddr, size), paddr, size) then f == Deciding(s, n, paddr, size)
      else f.Some? && f.value.hi <= f.value.lo
  {
    hide P2, Byte, Mode, Cfg, InEntry, Bounds, Straddles, Touches, Hits, FirstHit;
    if n == 0 {
      NoHit(paddr, size);
    } else {
      ListFirst(s, n - 1, paddr, size);
      if Mode(Cfg(s, n - 1)) == OFF {
        OffTouchesNothing(s, n - 1, paddr, size);
      } else {
        HitNext(Unpacked(s, n - 1), Bounds(s, n - 1), paddr, size);
        HitsIff(s, n - 1, paddr, size);
        if Touches(s, n - 1, paddr, size) {
          TouchedNotEmpty(s, n - 1, paddr, size);
        } else if Straddles(s, n - 1, paddr, size) {
          StraddledEmpty(s, n - 1, paddr, size);
        }
      }
    }
  }

  lemma StraddledEmpty(s: Csrs, i: nat, paddr: nat, size: nat)
    requires |s.cfg| == 4 && |s.addr| == ENTRIES && i < ENTRIES && Straddles(s, i, paddr, size)
    ensures Bounds(s, i).hi <= Bounds(s, i).lo
  {}

  lemma NoHit(paddr: nat, size: nat)
    ensures FirstHit([], paddr, size) == None
  {}

  lemma HitNext(rs: seq<Region>, r: Region, paddr: nat, size: nat)
    ensures FirstHit(rs + [r], paddr, size) ==
            var t := FirstHit(rs, paddr, size); if t.Some? then t else if Hits(r, paddr, size) then Some(r) else None
  {
    assert (rs + [r])[..|rs + [r]| - 1] == rs;
  }

  lemma OffTouchesNothing(s: Csrs, i: nat, paddr: nat, size: nat)
    requires |s.cfg| == 4 && |s.addr| == ENTRIES && i < ENTRIES && Mode(Cfg(s, i)) == OFF
    ensures !Touches(s, i, paddr, size) && !Straddles(s, i, paddr, size)
  {
    hide P2, Byte, Mode;
  }

  lemma {:induction false} FirstHitPrefix(rs: seq<Region>, k: nat, paddr: nat, size: nat)
    requires k <= |rs| && FirstHit(rs[..k], paddr, size).Some?
    ensures FirstHit(rs, paddr, size) == FirstHit(rs[..k], paddr, size)
  {
    if k == |rs| {
      assert rs[..k] == rs;
    } else {
      var t := rs[..|rs| - 1];
      assert t[..k] == rs[..k];
      FirstHitPrefix(t, k, paddr, size);
    }
  }

  /** The protection state of one hart. */
  class PmpUnit {
    const csrCfg: array<nat>
    const csrAddr: array<nat>
    const list: array<Region>
    var n: nat

    ghost function Regs(): Csrs
      reads csrCfg, csrAddr
    {
      Csrs(csrCfg[..], csrAddr[..])
    }

    ghost predicate Shaped() {
      csrCfg.Length == 4 && csrAddr.Length == ENTRIES && list.Length == ENTRIES && csrCfg != csrAddr
    }

    ghost predicate Valid()
      reads this, csrCfg, csrAddr, list
    {
      Shaped() && Wf(Regs()) && n <= ENTRIES && list[..n] == Unpacked(Regs(), ENTRIES)
    }

    constructor ()
      ensures Valid() && Regs() == Csrs(seq(4, _ => 0), seq(ENTRIES, _ => 0))
      ensures fresh(csrCfg) && fresh(csrAddr) && fresh(list)
    {
      csrCfg := new nat[4](_ => 0);
      csrAddr := new nat[ENTRIES](_ => 0);
      list := new Region[ENTRIES](_ => Region(0, 0, 0));
      n := 0;
      new;
      hide P2, Byte, Mode, Bounds;
      assert csrCfg[..] == seq(4, _ => 0) && csrAddr[..] == seq(ENTRIES, _ => 0);
      NothingActive(Regs(), ENTRIES);
      forall i | 0 <= i < 8 ensures Writable(Byte(csrCfg[0], i)) == Byte(csrCfg[0], i) { ZeroByte(i); }
    }

    /** unpack_pmpaddrs */
    method UnpackPmpAddrs()
      requires Shaped() && Wf(Regs())
      modifies this`n, list
      ensures Valid()
    {
      hide P2, Byte, Wf, NapotLo, TrailingOnes;
      n := 0;
      for i := 0 to ENTRIES
        invariant n <= i && list[..n] == Unpacked(Regs(), i)
      {
        ghost var s := Regs();
        var cfg := if i < 8 then Byte(csrCfg[0], i) else Byte(csrCfg[2], i - 8);
        ModeRange(cfg);
        if Mode(cfg) != OFF {
          list[n] := EntryBounds(i, cfg);
          n := n + 1;
          assert list[..n] == list[..n - 1] + [Bounds(s, i)];
        }
      }
    }

    method EntryBounds(i: nat, cfg: nat) returns (r: Region)
      requires Shaped() && Wf(Regs()) && i < ENTRIES && cfg == Cfg(Regs(), i) && Mode(cfg) != OFF
      ensures r == Bounds(Regs(), i)
    {
      hide P2, Byte, TrailingOnes, NapotLo;
      ModeRange(cfg);
      var a := csrAddr[i];
      if Mode(cfg) == TOR {
        return Region(if i == 0 then 0 else 4 * csrAddr[i - 1], 4 * a, cfg);
      } else if Mode(cfg) == NA4 {
        return Region(4 * a, 4 * a + 4, cfg);
      }
      Within38(a);
      var lo, hi := DecodeNapot(a);
      return Region(lo, hi, cfg);
    }

    /** A write to pmpcfg0 or pmpcfg2. */
    method WriteCfg(c: nat, val: nat)
      requires Valid() && (c == 0 || c == 2)
      modifies this`n, list, csrCfg
      ensures Valid() && Regs() == Apply(old(Regs()), CfgWrite(c, val))
    {
      hide P2, Byte, Wf, Locked, Unpacked, Writable;
      if PMP_N <= c / 2 * 8 { return; }
      ghost var s := Regs();
      var orig := csrCfg[c];
      var newVal: nat := 0;
      for i := 0 to 8
        modifies {}
        invariant newVal == CfgWord(orig, val, i)
      {
        var cfg := Byte(orig, i);
        if !Locked(cfg) { cfg := Byte(val, i); }
        cfg := Writable(cfg);
        newVal := newVal + cfg * P2(8 * i);
      }
      csrCfg[c] := newVal;
      assert Regs() == Apply(s, CfgWrite(c, val));
      ApplyWf(s, CfgWrite(c, val));
      UnpackPmpAddrs();
    }

    /** A write to pmpaddr0..15. */
    method WriteAddr(i: nat, val: nat) returns (unpacked: bool)
      requires Valid() && i < ENTRIES
      modifies this`n, list, csrAddr
      ensures Valid() && Regs() == Apply(old(Regs()), AddrWrite(i, val))
      ensures !unpacked ==> Regs() == old(Regs()) && n == old(n) && list[..n] == old(list[..n])
    {
      hide P2, Byte, Wf, Locked, Unpacked, Writable, Mode;
      if PMP_N <= i { return false; }
      ghost var s := Regs();
      if Locked(Byte(csrCfg[i / 8], i)) { return false; }
      // beyond byte 7 the shifted word is zero, which is neither top-of-range nor locked
      if i < 7 && Mode(Byte(csrCfg[i / 8], i + 1)) == TOR && Locked(Byte(csrCfg[i / 8], i + 1)) { return false; }
      DivMod(val, P2(38));
      csrAddr[i] := val % P2(38);
      assert Regs() == Apply(s, AddrWrite(i, val));
      ApplyWf(s, AddrWrite(i, val));
      UnpackPmpAddrs();
      return true;
    }

    /** riscv_cpu_pmp_access_ok: the verdict of the lowest-numbered register entry that the
        access touches. */
    method AccessOk(paddr: nat, size: nat, a: Access, priv: nat, mprv: bool, mpp: nat, addrLen: nat) returns (ok: bool)
      requires Valid() && size > 0
      ensures ok == ListOk(list[..n], EffectivePriv(priv, mprv, mpp, a), addrLen, paddr, size, a)
      ensures Clean(Regs(), Ahead(Regs(), ENTRIES, paddr, size), paddr, size) ==>
                ok == (paddr < P2(addrLen) &&
                       var r := Lowest(Regs(), ENTRIES, paddr, size);
                       Verdict(if r.Some? then Some(Cfg(Regs(), r.value)) else None,
                               EffectivePriv(priv, mprv, mpp, a), a))
    {
      hide P2, Byte, Wf, Locked, Unpacked, Writable, Mode, Bounds, Allows, Straddles, Touches, Clean;
      ghost var s := Regs();
      ListDecides(s, ENTRIES, paddr, size);
      DecidedCfg(s, paddr, size);
      if paddr >= P2(addrLen) { return false; }
      var p := if mprv && a != Execute then mpp else priv;
      for i := 0 to n
        invariant FirstHit(list[..i], paddr, size) == None
      {
        assert list[..i + 1][..i] == list[..i];
        if list[i].lo <= paddr + size - 1 && paddr < list[i].hi {
          assert list[..n][..i + 1] == list[..i + 1];
          FirstHitPrefix(list[..n], i + 1, paddr, size);
          if p != PRV_M || Locked(list[i].cfg) { return Allows(list[i].cfg, a); }
          return true;
        }
      }
      return p == PRV_M;
    }
  }

  lemma DecidedCfg(s: Csrs, paddr: nat, size: nat)
    requires |s.cfg| == 4 && |s.addr| == ENTRIES
    ensures var r := Lowest(s, ENTRIES, paddr, size); r.Some? ==> Bounds(s, r.value).cfg == Cfg(s, r.value)
  {
    hide P2, Byte, Mode, Lowest, TrailingOnes, NapotLo;
  }

  lemma {:induction false} NothingActive(s: Csrs, n: nat)
    requires |s.cfg| == 4 && |s.addr| == ENTRIES && n <= ENTRIES && s.cfg[0] == 0 && s.cfg[2] == 0
    ensures Unpacked(s, n) == []
  {
    hide P2, Byte, Bounds;
    if n > 0 {
      NothingActive(s, n - 1);
      ZeroByte(if n - 1 < 8 then n - 1 else n - 1 - 8);
    }
  }

  lemma {:induction false} InList(s: Csrs, n: nat, i: nat)
    requires |s.cfg| == 4 && |s.addr| == ENTRIES && i < n <= ENTRIES && Mode(Cfg(s, i)) != OFF
    ensures Bounds(s, i) in Unpacked(s, n)
  {
    hide P2, Byte, Mode, Bounds;
    if i == n - 1 {
      assert Unpacked(s, n)[|Unpacked(s, n)| - 1] == Bounds(s, i);
    } else {
      InList(s, n - 1, i);
    }
  }

  /** A locked active entry stays in the unpacked list, with the same interval and
      permissions, whatever is written later. */
  lemma LockedStaysUnpacked(s: Csrs, ws: seq<Write>, i: nat)
    requires Wf(s) && (forall w :: w in ws ==> WriteOk(w)) && i < ENTRIES
    requires Locked(Cfg(s, i)) && Mode(Cfg(s, i)) != OFF
    ensures Bounds(s, i) in Unpacked(ApplyAll(s, ws), ENTRIES)
  {
    hide P2, Byte, Mode, ApplyAll, TrailingOnes, NapotLo, InEntry, Unpacked, Locked;
    LockedForever(s, ws, i);
    InList(ApplyAll(s, ws), ENTRIES, i);
  }
}
