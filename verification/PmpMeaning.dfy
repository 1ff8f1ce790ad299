// What a write to the protection registers of src/riscv_cpu.cpp leaves in them, byte by byte, and which
// region a written entry then covers.
module PmpMeaning {
  import opened Basics
  import opened Powers
  import opened Pmp

  // Byte i of a configuration word.
  function CfgByte(w: nat, i: nat): nat { DivMod(w, P2(8 * i)); w / P2(8 * i) % 256 }

  /** A locked byte stays; of any other the two reserved bits are cleared and all the rest is taken. */
  lemma CfgWriteTakes(s: Csrs, v: nat, i: nat)
    requires Wf(s) && i < 8
    ensures var s' := Apply(s, CfgWrite(0, v));
      var b, x, b' := CfgByte(s.cfg[0], i), CfgByte(v, i), CfgByte(s'.cfg[0], i);
      && (b / 128 == 1 ==> b' == b)
      && (b / 128 == 0 ==> b' % 32 == x % 32 && b' / 32 % 4 == 0 && b' / 128 == x / 128)
      && s'.addr == s.addr && s'.cfg[1..] == s.cfg[1..] && Apply(s, CfgWrite(2, v)) == s
  {
    hide P2, CfgWord, CfgByte, Byte, Writable, Locked, Chosen;
    CfgWordByte(s.cfg[0], v, 8, i);
    SameBytes(s.cfg[0], i);
    SameBytes(v, i);
    SameBytes(CfgWord(s.cfg[0], v, 8), i);
    ChosenIs(s.cfg[0], v, i);
    ByteParts(CfgByte(v, i));
  }

  lemma SameBytes(w: nat, i: nat)
    ensures Byte(w, i) == CfgByte(w, i) < 256
  {
    hide P2;
  }

  lemma ChosenIs(w: nat, v: nat, i: nat)
    ensures var b := CfgByte(w, i); Chosen(w, v, i) == Writable(if b / 128 == 1 then b else CfgByte(v, i))
  {
    hide P2, Writable;
    OneBit(Byte(w, i));
  }

  lemma ByteParts(x: nat)
    requires x < 256
    ensures var b := Writable(x); b % 32 == x % 32 && b / 32 % 4 == 0 && b / 128 == x / 128
  {
    DivUnique(Writable(x), 32, 4 * (x / 128), x % 32);
    DivUnique(Writable(x), 128, x / 128, x % 32);
  }

  // A write to pmpaddr i is refused: no such entry, its byte locked, or the next one a locked top of range.
  ghost predicate Refused(s: Csrs, i: nat)
    requires |s.cfg| == 4
  {
    || i >= 8 || CfgByte(s.cfg[0], i) / 128 == 1
    || (i < 7 && CfgByte(s.cfg[0], i + 1) / 128 == 1 && CfgByte(s.cfg[0], i + 1) / 8 % 4 == 1)
  }

  /** An address write takes the low 38 bits, into its own register alone, unless refused. */
  lemma AddrWriteTakes(s: Csrs, i: nat, v: nat)
    requires Wf(s) && i < ENTRIES
    ensures var s' := Apply(s, AddrWrite(i, v));
      && s'.cfg == s.cfg && (forall j :: 0 <= j < ENTRIES && j != i ==> s'.addr[j] == s.addr[j])
      && s'.addr[i] == if Refused(s, i) then s.addr[i] else v % 0x40_0000_0000
  {
    hide P2;
    Pow38();
    OneBit(Byte(s.cfg[0], i));
    OneBit(Byte(s.cfg[0], i + 1));
  }

  lemma OneBit(b: nat)
    requires b < 256
    ensures b / 128 % 2 == b / 128
  {}

  lemma Pow38()
    ensures P2(38) == 0x40_0000_0000
  {
    hide P2;
    P2Small();
    P2Add(4, 4);
    P2Add(8, 8);
    P2Add(16, 16);
    P2Add(32, 4);
    P2Add(36, 2);
  }

  /** What an entry covers, by its mode: nothing, from the register before to its own, or four bytes; and for
      the last mode the aligned power of two its trailing ones tell. */
  lemma Covers(s: Csrs, i: nat, x: nat)
    requires Wf(s) && i < 8
    ensures var b, a := CfgByte(s.cfg[0], i), s.addr[i];
      && (b / 8 % 4 == 0 ==> !InEntry(s, i, x))
      && (b / 8 % 4 == 1 ==> (InEntry(s, i, x) <==> (if i == 0 then 0 else 4 * s.addr[i - 1]) <= x < 4 * a))
      && (b / 8 % 4 == 2 ==> (InEntry(s, i, x) <==> 4 * a <= x < 4 * a + 4))
  {
    hide P2, TrailingOnes, CfgByte, Byte;
    SameBytes(s.cfg[0], i);
  }

  lemma CoversPower(s: Csrs, i: nat, base: nat, k: nat, x: nat)
    requires Wf(s) && i < 8 && k >= 3 && base % P2(k) == 0
    requires CfgByte(s.cfg[0], i) / 8 % 4 == 3 && s.addr[i] == base / 4 + P2(k - 3) - 1
    ensures InEntry(s, i, x) <==> base <= x < base + P2(k)
  {
    hide P2, TrailingOnes, CfgByte, Byte;
    SameBytes(s.cfg[0], i);
    NapotInverse(base, k);
    SameBlock(x, 4 * s.addr[i], P2(k));
  }

  /** Writing the encoding of an aligned power-of-two region and then its byte makes the entry cover exactly
      that region, with the permissions written. */
  lemma WrittenRegion(s: Csrs, i: nat, base: nat, k: nat, v: nat, x: nat)
    requires Wf(s) && i < 8 && !Refused(s, i)
    requires k >= 3 && base % P2(k) == 0 && base + P2(k) <= 0x100_0000_0000 && CfgByte(v, i) / 8 % 4 == 3
    ensures var t := Apply(Apply(s, AddrWrite(i, base / 4 + P2(k - 3) - 1)), CfgWrite(0, v));
      && (InEntry(t, i, x) <==> base <= x < base + P2(k))
      && Cfg(t, i) % 8 == CfgByte(v, i) % 8 && (Locked(Cfg(t, i)) <==> CfgByte(v, i) / 128 == 1)
  {
    hide P2, Apply, InEntry, CfgByte, Byte, Locked, Writable;
    var a := base / 4 + P2(k - 3) - 1;
    var s' := Apply(s, AddrWrite(i, a));
    ApplyWf(s, AddrWrite(i, a));
    AddrWriteTakes(s, i, a);
    ApplyWf(s', CfgWrite(0, v));
    CfgWriteTakes(s', v, i);
    var t := Apply(s', CfgWrite(0, v));
    EncodingFits(base, k);
    SameByte(s', i);
    BitParts(CfgByte(t.cfg[0], i), CfgByte(v, i));
    SameByte(t, i);
    CoversPower(t, i, base, k, x);
  }

  lemma SameByte(s: Csrs, i: nat)
    requires |s.cfg| == 4 && i < 8
    ensures Cfg(s, i) == CfgByte(s.cfg[0], i) < 256 && (Locked(Cfg(s, i)) <==> Cfg(s, i) / 128 == 1)
  {
    hide P2;
    OneBit(Byte(s.cfg[0], i));
  }

  lemma BitParts(b: nat, x: nat)
    requires b % 32 == x % 32
    ensures b / 8 % 4 == x / 8 % 4 && b % 8 == x % 8
  {
    ThirtyTwo(b);
    ThirtyTwo(x);
  }

  lemma ThirtyTwo(b: nat)
    ensures b / 8 % 4 == b % 32 / 8 && b % 8 == b % 32 % 8
  {
    var q, r := b / 32, b % 32;
    DivUnique(b, 8, 4 * q + r / 8, r % 8);
  }

  lemma EncodingFits(base: nat, k: nat)
    requires k >= 3 && base % P2(k) == 0 && base + P2(k) <= 0x100_0000_0000
    ensures (base / 4 + P2(k - 3) - 1) % 0x40_0000_0000 == base / 4 + P2(k - 3) - 1
  {
    hide P2;
    P2Add(3, k - 3);
    P2Small();
    var a := base / 4 + P2(k - 3) - 1;
    DivUnique(a, 0x40_0000_0000, 0, a);
  }
}
