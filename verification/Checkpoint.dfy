// The whole boot ROM: the items of a checkpoint in order, the builder that emits them, and the
// state a hart is in after running them.
module Checkpoint {
  import opened Basics
  import opened BootRomIsa
  import opened BootRom

  const ROM_WORDS: nat := 2048
  const DATA_START: nat := 704      // 0xB00 bytes

  // ----- a list of items in the ROM -----

  function CodeLen(its: seq<Item>): nat {
    if its == [] then 0 else CodeLen(its[..|its| - 1]) + CodeWords(its[|its| - 1])
  }

  function DataLen(its: seq<Item>): nat {
    if its == [] then 0 else DataLen(its[..|its| - 1]) + DataWords(its[|its| - 1])
  }

  // Every item is where the emitter puts it: after all earlier ones, code from word 0 up and
  // data from DATA_START up.
  ghost predicate Laid(rom: seq<nat>, its: seq<Item>) {
    its != [] ==>
      var pre, it := its[..|its| - 1], its[|its| - 1];
      Laid(rom, pre) && ItemOk(it) && ItemAt(rom, CodeLen(pre), DATA_START + DataLen(pre), it)
  }

  // The effects of the items, one after the other.
  function Effects(its: seq<Item>, s: Cpu): (t: Cpu)
    requires |s.x| == 32 && forall it :: it in its ==> ItemOk(it)
    ensures |t.x| == 32
  {
    if its == [] then s
    else
      var pre := its[..|its| - 1];
      assert its[|its| - 1] in its;
      Effect(its[|its| - 1], DATA_START + DataLen(pre), Effects(pre, s))
  }

  lemma {:induction false} LaidOk(rom: seq<nat>, its: seq<Item>)
    requires Laid(rom, its)
    ensures forall it :: it in its ==> ItemOk(it)
  {
    hide ItemOk, ItemAt;
    if its != [] {
      LaidOk(rom, its[..|its| - 1]);
      assert its == its[..|its| - 1] + [its[|its| - 1]];
    }
  }

  // The prologue, where there is one, lets hart 0 pass.
  ghost predicate Booting(s: Cpu, its: seq<Item>) {
    |s.x| == 32 && s.x[0] == 0 && (HangNonzeroHart in its ==> ReadCsr(s, MHARTID) == 0)
  }

  ghost predicate NoHartWrite(its: seq<Item>) { forall it :: it in its ==> !WritesCsr(it, MHARTID) }

  predicate WritesCsr(it: Item, c: nat) {
    match it
    case Csr64(n, v) => n == c
    case Csr12(n, v) => n == c
    case SaveX1 => c == DSCRATCH
    case _ => false
  }

  // fflags, frm, fcsr and the floating-point registers
  predicate UsesFpu(it: Item) {
    match it
    case Csr64(n, v) => 1 <= n <= 3
    case Csr12(n, v) => 1 <= n <= 3
    case FpReg(i, lo, hi) => true
    case _ => false
  }

  // Written itself, or through another number or use.
  predicate Touches(it: Item, c: nat) {
    WritesCsr(it, c) || (UsesFpu(it) && (c == MSTATUS || (1 <= c <= 3 && !it.FpReg?)))
  }

  predicate WritesReg(it: Item, r: nat) {
    match it
    case Csr64(n, v) => r == 1
    case Csr12(n, v) => r == 1
    case Reg(n, v) => r == n
    case Io64(a, v) => r == 1 || r == 2
    case FpReg(i, lo, hi) => r == 1
    case SaveX1 => false
    case RestoreX1 => r == 1
    case HangNonzeroHart => r == 10
  }

  /** Running the ROM from its first word has the effects of the items, and ends behind their code. */
  lemma {:induction false} RunItems(rom: seq<nat>, its: seq<Item>, s: Cpu)
    requires Laid(rom, its) && Booting(s, its) && s.pc == ROM_BASE && NoHartWrite(its)
    ensures forall it :: it in its ==> ItemOk(it)
    ensures exists n: nat :: Steps(rom, s, n) == Some(Effects(its, s))
    ensures var t := Effects(its, s);
      t.x[0] == 0 && ReadCsr(t, MHARTID) == ReadCsr(s, MHARTID) && t.pc == ROM_BASE + 4 * CodeLen(its)
  {
    hide Steps, ItemAt, CodeWords, DataWords, ItemOk;
    LaidOk(rom, its);
    if its == [] {
      NoSteps(rom, s);
    } else {
      var pre, it := its[..|its| - 1], its[|its| - 1];
      assert it in its;
      RunItems(rom, pre, s);
      var t, d := Effects(pre, s), DATA_START + DataLen(pre);
      var n: nat :| Steps(rom, s, n) == Some(t);
      RunItem(rom, t, CodeLen(pre), d, it);
      StepsAdd(rom, s, n, StepCount(it));
      Keeps(it, d, t, 0, MHARTID);
      EffectPc(it, d, t);
    }
  }

  lemma NoSteps(rom: seq<nat>, s: Cpu)
    requires |s.x| == 32
    ensures Steps(rom, s, 0) == Some(s)
  {}

  lemma EffectPc(it: Item, d: nat, s: Cpu)
    requires |s.x| == 32 && ItemOk(it)
    ensures var t := Effect(it, d, s);
      t.pc == s.pc + 4 * CodeWords(it) && t.compressed == s.compressed && t.masks == s.masks
  {}

  // An item leaves alone the registers and control registers it does not write.
  lemma Keeps(it: Item, d: nat, s: Cpu, r: nat, c: nat)
    requires |s.x| == 32 && ItemOk(it) && r < 32
    ensures !WritesReg(it, r) ==> Effect(it, d, s).x[r] == s.x[r]
    ensures !Touches(it, c) ==> ReadCsr(Effect(it, d, s), c) == ReadCsr(s, c)
    ensures ItemOk(it) && r == 0 ==> !WritesReg(it, r)
  {
    hide Legal, Signed;
  }

  // What the effects leave in register r or control register c is what they were after item k
  // if no later item writes them.
  lemma {:induction false} KeepsAfter(its: seq<Item>, s: Cpu, k: nat, r: nat, c: nat)
    requires |s.x| == 32 && (forall it :: it in its ==> ItemOk(it)) && k <= |its| && r < 32
    ensures (forall j :: k <= j < |its| ==> !WritesReg(its[j], r)) ==> Effects(its, s).x[r] == Effects(its[..k], s).x[r]
    ensures (forall j :: k <= j < |its| ==> !Touches(its[j], c)) ==>
              ReadCsr(Effects(its, s), c) == ReadCsr(Effects(its[..k], s), c)
  {
    hide Effect, Effects, ItemOk, WritesReg, Touches, ReadCsr, DataLen;
    if k == |its| {
      assert its[..k] == its;
    } else {
      var pre, it := its[..|its| - 1], its[|its| - 1];
      assert it in its && pre[..k] == its[..k] && its[..|its|] == its;
      EffectsNext(its, s, |its| - 1);
      KeepsAfter(pre, s, k, r, c);
      Keeps(it, DATA_START + DataLen(pre), Effects(pre, s), r, c);
    }
  }

  // ----- the checkpoint -----

  // The saved state: csr gives the value to restore into each control register number.
  datatype Saved = Saved(pc: nat, priv: nat, x: seq<nat>, csr: nat -> nat, fp: seq<nat>,
                         ncpus: nat, clint: nat, timecmp: nat, mtime: nat) {
    // whether the floating-point unit is on
    predicate Fs() { FsOf(csr(MSTATUS)) != 0 }

    function Fcsr(): nat { csr(FRM) * 32 + csr(FFLAGS) }
  }

  ghost predicate SavedOk(v: Saved) {
    && v.pc < WORD && v.priv < 4 && |v.x| == 32 && v.x[0] == 0 && |v.fp| == 32
    && (forall i :: 0 <= i < 32 ==> v.x[i] < WORD && v.fp[i] < WORD)
    && (forall c :: v.csr(c) < WORD) && v.csr(FFLAGS) < 32 && v.csr(FRM) < 8
    && v.clint % 8 == 0 && v.clint + 0xbff8 < WORD && v.timecmp < WORD && v.mtime < WORD
  }

  function FpItems(v: Saved, n: nat): seq<Item>
    requires |v.x| == 32 && |v.fp| == 32 && n <= 32
  {
    if n == 0 then [] else FpItems(v, n - 1) + [FpReg(n - 1, v.fp[n - 1] % W32, v.x[n - 1] / W32)]
  }

  function CounterItems(v: Saved, n: nat): seq<Item> {
    if n <= 3 then []
    else CounterItems(v, n - 1) + [Csr12(0xb00 + (n - 1), 0), Csr64(0x320 + (n - 1), v.csr(0x320 + (n - 1)))]
  }

  function PmpItems(v: Saved, n: nat): seq<Item> {
    if n == 0 then [] else PmpItems(v, n - 1) + [Csr64(0x3b0 + (n - 1), v.csr(0x3b0 + (n - 1)))]
  }

  // Registers lo..n-1.
  function RegItems(v: Saved, lo: nat, n: nat): seq<Item>
    requires |v.x| == 32 && n <= 32
  {
    if n <= lo then [] else RegItems(v, lo, n - 1) + [Reg(n - 1, v.x[n - 1])]
  }

  function C64(v: Saved, c: nat): Item { Csr64(c, v.csr(c)) }

  function C12(v: Saved, c: nat): Item { Csr12(c, v.csr(c)) }

  function Front(v: Saved): seq<Item> {
    (if v.ncpus == 1 then [HangNonzeroHart] else [])
    + [Csr64(DPC, v.pc), Csr12(DCSR, 0x600 + v.priv), C64(v, 0x300), C64(v, 0x301)]
  }

  function FpPart(v: Saved): seq<Item>
    requires |v.x| == 32 && |v.fp| == 32
  {
    if v.Fs() then [C12(v, FFLAGS), C12(v, FRM), Csr12(FCSR, v.Fcsr())] + FpItems(v, 32) else []
  }

  function Traps(v: Saved): seq<Item> {
    [C64(v, 0x7a0), C64(v, 0x302), C64(v, 0x303), C64(v, 0x304), C64(v, 0x305), C64(v, 0x105),
     C12(v, 0x320), C12(v, 0x306), C12(v, 0x106)]
  }

  function Scratches(v: Saved): seq<Item> {
    [C64(v, 0x3a0), C64(v, 0x3a2), C64(v, 0x340), C64(v, 0x341), C64(v, 0x342), C64(v, 0x343),
     C64(v, 0x140), C64(v, 0x141), C64(v, 0x142), C64(v, 0x143), C64(v, 0x344)]
  }

  function Timers(v: Saved): seq<Item> {
    [Io64(v.clint + 0x4000, v.timecmp), C64(v, 0xb02), C64(v, 0xb00), Io64(v.clint + 0xbff8, v.mtime)]
  }

  function Last(v: Saved): seq<Item>
    requires |v.x| == 32
  {
    [Reg(1, v.x[1]), Reg(2, v.x[2]), SaveX1, C64(v, 0x180), RestoreX1]
  }

  function Early(v: Saved): seq<Item>
    requires |v.x| == 32 && |v.fp| == 32
  {
    Front(v) + FpPart(v) + CounterItems(v, 32) + Traps(v) + PmpItems(v, 16) + Scratches(v)
  }

  /** The items of a checkpoint, in the order they are emitted. */
  function Program(v: Saved): seq<Item>
    requires |v.x| == 32 && |v.fp| == 32
  {
    Early(v) + RegItems(v, 3, 32) + Timers(v) + Last(v)
  }

  // What comes after the floating-point part.
  function Behind(v: Saved): seq<Item>
    requires |v.x| == 32
  {
    CounterItems(v, 32) + Traps(v) + PmpItems(v, 16) + Scratches(v) + RegItems(v, 3, 32) + Timers(v) + Last(v)
  }

  lemma ProgramParts(v: Saved)
    requires |v.x| == 32 && |v.fp| == 32
    ensures Program(v) == Front(v) + FpPart(v) + Behind(v)
  {
    hide Front, FpPart, CounterItems, Traps, PmpItems, Scratches, RegItems, Timers, Last;
  }

  // ----- no control register is written twice -----

  // Where in the program a control register is written.
  function Rank(c: nat): nat {
    if c == DPC then 0 else if c == DCSR then 1 else if c == 0x300 then 2 else if c == 0x301 then 3
    else if 1 <= c <= 3 then 3 + c
    else if 0xb03 <= c < 0xb20 then 10 + 2 * (c - 0xb00)
    else if 0x323 <= c < 0x340 then 11 + 2 * (c - 0x320)
    else if c == 0x7a0 then 100 else if 0x302 <= c <= 0x305 then 101 + (c - 0x302) else if c == 0x105 then 105
    else if c == 0x320 then 106 else if c == 0x306 then 107 else if c == 0x106 then 108
    else if 0x3b0 <= c < 0x3c0 then 110 + (c - 0x3b0)
    else if c == 0x3a0 then 130 else if c == 0x3a2 then 131
    else if 0x340 <= c <= 0x343 then 132 + (c - 0x340) else if 0x140 <= c <= 0x143 then 136 + (c - 0x140)
    else if c == 0x344 then 140 else if c == 0xb02 then 150 else if c == 0xb00 then 151
    else if c == DSCRATCH then 160 else if c == 0x180 then 161
    else 1000
  }

  function CsrOf(it: Item): Option<nat> {
    match it
    case Csr64(n, v) => Some(n)
    case Csr12(n, v) => Some(n)
    case SaveX1 => Some(DSCRATCH)
    case _ => None
  }

  // The control registers of the items have ranks from lo up to hi, in increasing order.
  ghost predicate Band(its: seq<Item>, lo: nat, hi: nat) {
    && (forall i :: 0 <= i < |its| && CsrOf(its[i]).Some? ==> lo <= Rank(CsrOf(its[i]).value) < hi)
    && (forall i, j :: 0 <= i < j < |its| && CsrOf(its[i]).Some? && CsrOf(its[j]).Some? ==>
          Rank(CsrOf(its[i]).value) < Rank(CsrOf(its[j]).value))
  }

  lemma BandJoin(a: seq<Item>, b: seq<Item>, lo: nat, m: nat, hi: nat)
    requires Band(a, lo, m) && Band(b, m, hi) && lo <= m <= hi
    ensures Band(a + b, lo, hi)
  {
    hide Rank, CsrOf;
  }

  lemma {:induction false} FpBand(v: Saved, n: nat)
    requires |v.x| == 32 && |v.fp| == 32 && n <= 32
    ensures Band(FpItems(v, n), 7, 7)
  {
    hide Rank;
    if n > 0 { FpBand(v, n - 1); }
  }

  lemma {:induction false} CounterBand(v: Saved, n: nat)
    requires n <= 32
    ensures Band(CounterItems(v, n), 10, 10 + 2 * n)
  {
    if n > 3 {
      CounterBand(v, n - 1);
      var i := n - 1;
      var next := [Csr12(0xb00 + i, 0), Csr64(0x320 + i, v.csr(0x320 + i))];
      BandJoin(CounterItems(v, i), next, 10, 10 + 2 * i, 10 + 2 * n);
    }
  }

  lemma {:induction false} PmpBand(v: Saved, n: nat)
    requires n <= 16
    ensures Band(PmpItems(v, n), 110, 110 + n)
  {
    if n > 0 {
      PmpBand(v, n - 1);
      BandJoin(PmpItems(v, n - 1), [Csr64(0x3b0 + (n - 1), v.csr(0x3b0 + (n - 1)))], 110, 109 + n, 110 + n);
    }
  }

  lemma {:induction false} RegBand(v: Saved, lo: nat, n: nat)
    requires |v.x| == 32 && n <= 32
    ensures Band(RegItems(v, lo, n), 150, 150) && |RegItems(v, lo, n)| == if n <= lo then 0 else n - lo
    ensures forall i :: 0 <= i < |RegItems(v, lo, n)| ==> RegItems(v, lo, n)[i] == Reg(lo + i, v.x[lo + i])
  {
    hide Rank;
    if n > lo { RegBand(v, lo, n - 1); }
  }

  lemma EarlyBand(v: Saved)
    requires |v.x| == 32 && |v.fp| == 32
    ensures Band(Early(v), 0, 150)
  {
    hide FpItems, CounterItems, PmpItems, Rank, Band, Front, Traps, Scratches, FpPart;
    CounterBand(v, 32);
    PmpBand(v, 16);
    FpPartBand(v);
    FrontBand(v);
    TrapsBand(v);
    ScratchBand(v);
    BandJoin(Front(v), FpPart(v), 0, 4, 7);
    WidenBand(CounterItems(v, 32), 10, 74, 7, 100);
    BandJoin(Front(v) + FpPart(v), CounterItems(v, 32), 0, 7, 100);
    BandJoin(Front(v) + FpPart(v) + CounterItems(v, 32), Traps(v), 0, 100, 110);
    WidenBand(PmpItems(v, 16), 110, 126, 110, 130);
    BandJoin(Front(v) + FpPart(v) + CounterItems(v, 32) + Traps(v), PmpItems(v, 16), 0, 110, 130);
    BandJoin(Front(v) + FpPart(v) + CounterItems(v, 32) + Traps(v) + PmpItems(v, 16), Scratches(v), 0, 130, 150);
  }

  lemma FrontBand(v: Saved)
    ensures Band(Front(v), 0, 4)
  {}

  lemma TrapsBand(v: Saved)
    ensures Band(Traps(v), 100, 110)
  {
    hide Rank;
    TrapRanks();
  }

  lemma TrapRanks()
    ensures Rank(0x7a0) == 100 && Rank(0x302) == 101 && Rank(0x303) == 102 && Rank(0x304) == 103 && Rank(0x305) == 104
    ensures Rank(0x105) == 105 && Rank(0x320) == 106 && Rank(0x306) == 107 && Rank(0x106) == 108
  {}

  lemma ScratchBand(v: Saved)
    ensures Band(Scratches(v), 130, 150)
  {
    hide Band, Rank;
    var a, b := [C64(v, 0x3a0), C64(v, 0x3a2)], [C64(v, 0x340), C64(v, 0x341), C64(v, 0x342), C64(v, 0x343)];
    var c := [C64(v, 0x140), C64(v, 0x141), C64(v, 0x142), C64(v, 0x143), C64(v, 0x344)];
    ScratchParts(v);
    BandJoin(a, b, 130, 132, 136);
    BandJoin(a + b, c, 130, 136, 150);
    assert a + b + c == Scratches(v);
  }

  lemma ScratchParts(v: Saved)
    ensures Band([C64(v, 0x3a0), C64(v, 0x3a2)], 130, 132)
    ensures Band([C64(v, 0x340), C64(v, 0x341), C64(v, 0x342), C64(v, 0x343)], 132, 136)
    ensures Band([C64(v, 0x140), C64(v, 0x141), C64(v, 0x142), C64(v, 0x143), C64(v, 0x344)], 136, 150)
  {
    hide Rank;
    ScratchRanks();
  }

  lemma ScratchRanks()
    ensures Rank(0x3a0) == 130 && Rank(0x3a2) == 131
    ensures Rank(0x340) == 132 && Rank(0x341) == 133 && Rank(0x342) == 134 && Rank(0x343) == 135
    ensures Rank(0x140) == 136 && Rank(0x141) == 137 && Rank(0x142) == 138 && Rank(0x143) == 139 && Rank(0x344) == 140
  {}

  lemma FpPartBand(v: Saved)
    requires |v.x| == 32 && |v.fp| == 32
    ensures Band(FpPart(v), 4, 7)
  {
    hide FpItems;
    if v.Fs() {
      FpBand(v, 32);
      BandJoin([C12(v, FFLAGS), C12(v, FRM), Csr12(FCSR, v.Fcsr())], FpItems(v, 32), 4, 7, 7);
    }
  }

  lemma WidenBand(its: seq<Item>, lo: nat, hi: nat, lo': nat, hi': nat)
    requires Band(its, lo, hi) && lo' <= lo && hi <= hi'
    ensures Band(its, lo', hi')
  {
    hide Rank;
  }

  lemma ProgramBand(v: Saved)
    requires |v.x| == 32 && |v.fp| == 32
    ensures Band(Program(v), 0, 200)
  {
    hide Early, RegItems;
    EarlyBand(v);
    RegBand(v, 3, 32);
    assert Band(Timers(v), 150, 160) && Band(Last(v), 160, 200);
    hide Rank, Band, Timers, Last;
    BandJoin(Early(v), RegItems(v, 3, 32), 0, 150, 150);
    BandJoin(Early(v) + RegItems(v, 3, 32), Timers(v), 0, 150, 160);
    BandJoin(Early(v) + RegItems(v, 3, 32) + Timers(v), Last(v), 0, 160, 200);
  }

  // In a band, an item's control register is written by no other item.
  lemma WrittenOnce(its: seq<Item>, lo: nat, hi: nat, k: nat, j: nat, c: nat)
    requires Band(its, lo, hi) && k < |its| && j < |its| && j != k && WritesCsr(its[k], c)
    ensures !WritesCsr(its[j], c)
  {
    hide Rank;
  }

  lemma NeverWritten(its: seq<Item>, lo: nat, hi: nat, c: nat)
    requires Band(its, lo, hi) && Rank(c) >= hi
    ensures forall it :: it in its ==> !WritesCsr(it, c)
  {
    hide Rank;
    forall it | it in its ensures !WritesCsr(it, c) {
      var i :| 0 <= i < |its| && its[i] == it;
    }
  }

  // ----- the end of the program -----

  // The effects of the first k + 1 items are those of item k after the first k.
  lemma EffectsNext(its: seq<Item>, s: Cpu, k: nat)
    requires |s.x| == 32 && (forall it :: it in its ==> ItemOk(it)) && k < |its|
    ensures ItemOk(its[k])
    ensures Effects(its[..k + 1], s) == Effect(its[k], DATA_START + DataLen(its[..k]), Effects(its[..k], s))
  {
    hide ItemOk, Effect, DataLen;
    assert its[k] in its;
    assert its[..k + 1][..k] == its[..k] && its[..k + 1][k] == its[k];
  }

  // The value a Reg item gives its register, and a Csr64 item its control register.
  lemma {:induction false} AfterItem(its: seq<Item>, s: Cpu, k: nat)
    requires |s.x| == 32 && (forall it :: it in its ==> ItemOk(it)) && k < |its|
    ensures its[k].Reg? ==> its[k].rn < 32 && Effects(its[..k + 1], s).x[its[k].rn] == its[k].val
    ensures (its[k].Csr64? || its[k].Csr12?) && !(1 <= its[k].csr <= 3) ==>
      ReadCsr(Effects(its[..k + 1], s), its[k].csr)
        == Legal(s.masks, s.compressed, its[k].csr, ReadCsr(Effects(its[..k], s), its[k].csr),
                 if its[k].Csr64? then its[k].val else SignExt12(its[k].val))
  {
    hide Effects, Legal, SignExt12;
    var pre := its[..k];
    EffectsNext(its, s, k);
    EffectsCompressed(pre, s);
  }

  lemma LowPriv(masks: Masks, was: nat, v: nat, compressed: bool)
    ensures Legal(masks, compressed, DCSR, was, SignExt12(v)) % 4 == v % 4
  {
    var i := Signed(v % 4096, 4096);
    assert i % 4 == v % 4;
    WrapLow(i);
    FieldLow(was, Wrap(i));
  }

  lemma WrapLow(i: int)
    ensures Wrap(i) % 4 == i % 4
  {
    var k := i / WORD * (WORD / 4);
    assert Wrap(i) == i - 4 * k;
    LowOf(i, k);
  }

  lemma LowOf(i: int, k: int)
    ensures (i - 4 * k) % 4 == i % 4
  {}

  lemma FieldLow(was: nat, val: nat)
    ensures (was / 2048 * 2048 + val / 512 % 4 * 512 + was / 4 % 128 * 4 + val % 4) % 4 == val % 4
  {
    var k := was / 2048 * 512 + val / 512 % 4 * 128 + was / 4 % 128;
    assert was / 2048 * 2048 + val / 512 % 4 * 512 + was / 4 % 128 * 4 == 4 * k;
  }

  lemma {:induction false} EffectsCompressed(its: seq<Item>, s: Cpu)
    requires |s.x| == 32 && (forall it :: it in its ==> ItemOk(it))
    ensures Effects(its, s).compressed == s.compressed && Effects(its, s).masks == s.masks
  {
    hide ItemOk, Effect;
    if its != [] {
      var pre, it := its[..|its| - 1], its[|its| - 1];
      assert it in its;
      EffectsCompressed(pre, s);
      EffectPc(it, DATA_START + DataLen(pre), Effects(pre, s));
    }
  }

  // A register item that no later item disturbs decides the register.
  lemma RegisterEnds(its: seq<Item>, s: Cpu, k: nat)
    requires |s.x| == 32 && (forall it :: it in its ==> ItemOk(it)) && k < |its| && its[k].Reg? && its[k].rn < 32
    requires forall j :: k < j < |its| ==> !WritesReg(its[j], its[k].rn)
    ensures Effects(its, s).x[its[k].rn] == its[k].val
  {
    hide ItemOk, Effects, WritesReg;
    AfterItem(its, s, k);
    KeepsAfter(its, s, k + 1, its[k].rn, 0);
  }

  lemma HighRegister(v: Saved, s: Cpu, r: nat)
    requires |v.x| == 32 && |v.fp| == 32 && |s.x| == 32 && (forall it :: it in Program(v) ==> ItemOk(it)) && 3 <= r < 32
    ensures Effects(Program(v), s).x[r] == v.x[r]
  {
    hide Early, RegItems, Effects, ItemOk;
    RegBand(v, 3, 32);
    var p, e := Program(v), Early(v);
    var k := |e| + (r - 3);
    assert p[k] == RegItems(v, 3, 32)[r - 3];
    forall j | k < j < |p| ensures !WritesReg(p[j], r) {
      if j < |e| + 29 { assert p[j] == RegItems(v, 3, 32)[j - |e|]; }
    }
    RegisterEnds(p, s, k);
  }

  lemma LowRegisters(v: Saved, s: Cpu)
    requires |v.x| == 32 && |v.fp| == 32 && |s.x| == 32 && (forall it :: it in Program(v) ==> ItemOk(it))
    ensures Effects(Program(v), s).x[2] == v.x[2] && Effects(Program(v), s).x[1] == v.x[1]
  {
    hide Program, Effects, ItemOk, Effect, ReadCsr, DataLen, WritesReg, Touches;
    var p := Program(v);
    var n := |p|;
    LastPlaces(v);
    RegisterEnds(p, s, n - 4);
    // x1 goes through dscratch
    assert p[..n] == p;
    EffectsNext(p, s, n - 1);
    assert p[..n - 1][..n - 2] == p[..n - 2];
    KeepsAfter(p[..n - 1], s, n - 2, 1, DSCRATCH);
    SavedX1(v, s);
    FromScratch(DATA_START + DataLen(p[..n - 1]), Effects(p[..n - 1], s));
  }

  lemma LastPlaces(v: Saved)
    requires |v.x| == 32 && |v.fp| == 32
    ensures var p, n := Program(v), |Program(v)|;
      && n >= 5 && p[n - 4] == Reg(2, v.x[2]) && p[n - 1] == RestoreX1
      && (forall j :: n - 4 < j < n ==> !WritesReg(p[j], 2))
      && !Touches(p[n - 2], DSCRATCH)
  {
    hide Early, RegItems, Timers;
  }

  lemma FromScratch(d: nat, s: Cpu)
    requires |s.x| == 32
    ensures Effect(RestoreX1, d, s).x[1] == ReadCsr(s, DSCRATCH)
  {}

  lemma SavedX1(v: Saved, s: Cpu)
    requires |v.x| == 32 && |v.fp| == 32 && |s.x| == 32 && (forall it :: it in Program(v) ==> ItemOk(it))
    ensures forall it :: it in Program(v)[..|Program(v)| - 2] ==> ItemOk(it)
    ensures ReadCsr(Effects(Program(v)[..|Program(v)| - 2], s), DSCRATCH) == v.x[1]
  {
    hide Early, RegItems, Effects, ItemOk, Timers, FsDirty;
    var p := Program(v);
    var n := |p|;
    var upto := p[..n - 3];
    EffectsNext(p, s, n - 3);
    assert upto[n - 5] == Reg(1, v.x[1]) && upto[n - 4] == Reg(2, v.x[2]);
    RegisterEnds(upto, s, n - 5);
  }

  const DRET_WORD: nat := 0x7b200073

  ghost predicate Restored(s: Cpu, t: Cpu, v: Saved)
    requires |v.x| == 32 && |v.fp| == 32
  {
    && t.x == v.x && t.pc == v.pc && t.priv == v.priv && ControlRestored(s, t, v) && FloatsRestored(t, v)
    && t.acts == s.acts + ActsOf(Program(v)) && !t.stopped
  }

  // Each control register holds what one write of its saved value leaves in it, the narrow ones a
  // write of twelve bits of it.
  ghost predicate ControlRestored(s: Cpu, t: Cpu, v: Saved) {
    && (forall c :: Recovered(c) ==> ReadCsr(t, c) == s.masks.after(c, ReadCsr(s, c), v.csr(c)))
    && (forall c :: Narrow(c) ==> ReadCsr(t, c) == s.masks.after(c, ReadCsr(s, c), SignExt12(v.csr(c))))
    && (forall c :: 0xb03 <= c < 0xb20 ==> ReadCsr(t, c) == s.masks.after(c, ReadCsr(s, c), 0))
    && ReadCsr(t, MSTATUS) == RestoredStatus(s, v)
    && (v.Fs() ==> ReadCsr(t, FFLAGS) == v.csr(FFLAGS) && ReadCsr(t, FRM) == v.csr(FRM) && ReadCsr(t, FCSR) == v.Fcsr())
  }

  // What the write of mstatus leaves, marked dirty by the floating-point state restored after it.
  function RestoredStatus(s: Cpu, v: Saved): nat {
    var m := s.masks.after(MSTATUS, ReadCsr(s, MSTATUS), v.csr(MSTATUS));
    if v.Fs() then FsDirty(m) else m
  }

  // A write of mstatus takes FS as given, and the summary follows it.
  ghost predicate TakesFs(m: Masks) {
    forall was, val ::
      FsOf(m.after(MSTATUS, was, val)) == FsOf(val) && (FsOf(val) == 3 ==> Summary(m.after(MSTATUS, was, val)))
  }

  /** mstatus stays as its own write leaves it exactly if the saved FS is off or dirty. */
  lemma StatusRestoredIff(s: Cpu, v: Saved)
    requires TakesFs(s.masks)
    ensures RestoredStatus(s, v) == s.masks.after(MSTATUS, ReadCsr(s, MSTATUS), v.csr(MSTATUS))
            <==> FsOf(v.csr(MSTATUS)) == 0 || FsOf(v.csr(MSTATUS)) == 3
  {
    hide FsOf, FsDirty, Summary;
    var m := s.masks.after(MSTATUS, ReadCsr(s, MSTATUS), v.csr(MSTATUS));
    assert FsOf(m) == FsOf(v.csr(MSTATUS));
    DirtyIff(m);
  }

  // The floating-point registers have their upper halves from the integer ones.
  ghost predicate FloatsRestored(t: Cpu, v: Saved)
    requires |v.x| == 32 && |v.fp| == 32
  {
    v.Fs() ==> forall i :: 0 <= i < 32 ==> ReadF(t, i) == RestoredF(v, i)
  }

  // The control registers recovered through a 12-bit immediate.
  predicate Narrow(c: nat) { c == 0x320 || c == 0x306 || c == 0x106 }

  function RestoredF(v: Saved, i: nat): nat
    requires |v.x| == 32 && |v.fp| == 32 && i < 32
  {
    v.fp[i] % W32 + W32 * (v.x[i] / W32)
  }

  /** A floating-point register comes back exactly if its upper half is that of the integer register
      of the same number. */
  lemma FpRestoredIff(v: Saved, i: nat)
    requires |v.x| == 32 && |v.fp| == 32 && i < 32
    ensures RestoredF(v, i) == v.fp[i] <==> v.fp[i] / W32 == v.x[i] / W32
  {
    var a, b := v.fp[i], v.x[i] / W32;
    assert a == a % W32 + W32 * (a / W32);
  }

  lemma {:induction false} FpIn(v: Saved, n: nat, i: nat)
    requires |v.x| == 32 && |v.fp| == 32 && i < n <= 32
    ensures |FpItems(v, n)| == n && FpItems(v, n)[i] == FpReg(i, v.fp[i] % W32, v.x[i] / W32)
  {
    if i < n - 1 { FpIn(v, n - 1, i); } else if n > 1 { FpIn(v, n - 1, 0); }
  }

  // The control registers with an item of all 64 bits, dpc aside.
  predicate Listed(c: nat) { Recovered(c) || c == MSTATUS || c == MIP || c == MINSTRET || c == MCYCLE }

  const MIP: nat := 0x344
  const MCYCLE: nat := 0xb00
  const MINSTRET: nat := 0xb02

  // Those among them that nothing changes but a write of their own number: not mstatus, not the
  // counters, which run, and not mip, which follows the timer.
  predicate Recovered(c: nat) {
    || c == 0x301 || 0x323 <= c < 0x340 || c == 0x7a0 || 0x302 <= c <= 0x305 || c == 0x105
    || 0x3b0 <= c < 0x3c0 || c == 0x3a0 || c == 0x3a2 || 0x340 <= c <= 0x343 || 0x140 <= c <= 0x143
    || c == 0x180
  }

  /** The program has an item for each of them, with its own saved value. */
  lemma RecoveredIn(v: Saved, c: nat)
    requires |v.x| == 32 && |v.fp| == 32 && Listed(c)
    ensures C64(v, c) in Program(v)
  {
    hide FpPart, CounterItems, PmpItems, RegItems, C64;
    if 0x323 <= c < 0x340 {
      CounterIn(v, 32, c - 0x320);
      assert C64(v, c) in CounterItems(v, 32);
    } else if 0x3b0 <= c < 0x3c0 {
      PmpIn(v, 16, c - 0x3b0);
      assert C64(v, c) in PmpItems(v, 16);
    } else {
      ListedIn(v, c);
    }
    PartsIn(v, C64(v, c));
  }

  lemma {:induction false} CounterIn(v: Saved, n: nat, i: nat)
    requires 3 <= i < n
    ensures C64(v, 0x320 + i) in CounterItems(v, n)
  {
    if i < n - 1 { CounterIn(v, n - 1, i); }
  }

  lemma {:induction false} PmpIn(v: Saved, n: nat, i: nat)
    requires i < n
    ensures C64(v, 0x3b0 + i) in PmpItems(v, n)
  {
    if i < n - 1 { PmpIn(v, n - 1, i); }
  }

  lemma ListedIn(v: Saved, c: nat)
    requires |v.x| == 32 && Listed(c) && !(0x323 <= c < 0x340) && !(0x3b0 <= c < 0x3c0)
    ensures C64(v, c) in Front(v) || C64(v, c) in Traps(v) || C64(v, c) in Scratches(v) || C64(v, c) in Timers(v)
            || C64(v, c) in Last(v)
  {
    hide C64;
  }

  lemma PartsIn(v: Saved, it: Item)
    requires |v.x| == 32 && |v.fp| == 32
    requires it in Front(v) || it in CounterItems(v, 32) || it in Traps(v) || it in PmpItems(v, 16)
             || it in Scratches(v) || it in Timers(v) || it in Last(v)
    ensures it in Program(v)
  {
    hide Front, FpPart, CounterItems, Traps, PmpItems, Scratches, RegItems, Timers, Last;
  }

  /** and one for each of the narrow ones. */
  lemma NarrowIn(v: Saved, c: nat)
    requires |v.x| == 32 && |v.fp| == 32 && Narrow(c)
    ensures C12(v, c) in Program(v)
  {
    hide Front, FpPart, CounterItems, PmpItems, Scratches, RegItems, Timers, Last, C12, C64;
    assert C12(v, c) in Traps(v);
    PartsIn(v, C12(v, c));
  }

  // A control register is left as its only item wrote it.
  lemma CsrEnds(v: Saved, s: Cpu, k: nat)
    requires |v.x| == 32 && |v.fp| == 32 && |s.x| == 32 && (forall it :: it in Program(v) ==> ItemOk(it))
             && k < |Program(v)|
    ensures var it := Program(v)[k];
      (it.Csr64? || it.Csr12?) && !(1 <= it.csr <= 3) && it.csr != MSTATUS ==>
        ReadCsr(Effects(Program(v), s), it.csr)
          == Legal(s.masks, s.compressed, it.csr, ReadCsr(s, it.csr), if it.Csr64? then it.val else SignExt12(it.val))
  {
    hide Program, Effects, ItemOk, Band, ReadCsr, Legal, SignExt12;
    var p := Program(v);
    ProgramBand(v);
    AfterItem(p, s, k);
    if (p[k].Csr64? || p[k].Csr12?) && !(1 <= p[k].csr <= 3) && p[k].csr != MSTATUS {
      forall j | k < j < |p| ensures !Touches(p[j], p[k].csr) { WrittenOnce(p, 0, 200, k, j, p[k].csr); }
      KeepsAfter(p, s, k + 1, 0, p[k].csr);
      forall j | 0 <= j < k ensures !Touches(p[..k][j], p[k].csr) { WrittenOnce(p, 0, 200, k, j, p[k].csr); }
      KeepsAfter(p[..k], s, 0, 0, p[k].csr);
      assert p[..k][..0] == [];
      assert Effects(p[..k][..0], s) == s by { NoEffects(s); }
    }
  }

  lemma NoEffects(s: Cpu)
    requires |s.x| == 32
    ensures Effects([], s) == s
  {}

  // Where the program writes dpc and dcsr.
  lemma FrontPlaces(v: Saved)
    requires |v.x| == 32 && |v.fp| == 32
    ensures var h := if v.ncpus == 1 then 1 else 0;
      && h + 2 < |Program(v)| && Program(v)[h] == Csr64(DPC, v.pc) && Program(v)[h + 1] == Csr12(DCSR, 0x600 + v.priv)
      && Program(v)[h + 2] == C64(v, MSTATUS) && (h == 1 ==> Program(v)[0] == HangNonzeroHart)
  {
    hide FpPart, Behind, Program;
    ProgramParts(v);
  }

  /** The generated ROM is a correct compilation of the checkpoint: a hart that starts at its first
      word, in machine mode and, for a single-hart machine, with number 0, reaches the saved pc and
      privilege with the saved registers and control registers, having stored the two timer values. */
  lemma BootRestores(v: Saved, rom: seq<nat>, s: Cpu)
    requires SavedOk(v) && Laid(rom, Program(v)) && CodeLen(Program(v)) < |rom| && rom[CodeLen(Program(v))] == DRET_WORD
    requires Booting(s, Program(v)) && s.pc == ROM_BASE && v.pc % (if s.compressed then 2 else 4) == 0
    ensures exists n: nat :: Steps(rom, s, n).Some? && Restored(s, Steps(rom, s, n).value, v)
  {
    hide Program, Effects, Steps, Step, Band, Laid, ItemOk, CodeLen, Rank, Decode, ReadCsr, Restored;
    var p := Program(v);
    ProgramBand(v);
    assert Rank(MHARTID) >= 200 by { HartRank(); }
    NeverWritten(p, 0, 200, MHARTID);
    RunItems(rom, p, s);
    var t := Effects(p, s);
    var n: nat :| Steps(rom, s, n) == Some(t);
    StepsAdd(rom, s, n, 1);
    OneStep(rom, t);
    StepAt(rom, t, CodeLen(p));
    DretWord();
    RestoredByDret(v, s);
  }

  lemma HartRank()
    ensures Rank(MHARTID) >= 200
  {}

  lemma DretWord()
    ensures Decode(DRET_WORD) == DRET
  {
    hide Decode;
    assert DRET_WORD == Word(0x73, 0, 0, 0, 0x7b2);
    DecodeWord(0x73, 0, 0, 0, 0x7b2);
  }

  lemma RestoredByDret(v: Saved, s: Cpu)
    requires SavedOk(v) && |s.x| == 32 && (forall it :: it in Program(v) ==> ItemOk(it))
    requires Effects(Program(v), s).x[0] == 0 && v.pc % (if s.compressed then 2 else 4) == 0
    ensures Restored(s, Returned(Effects(Program(v), s)), v)
  {
    hide Program, Effects, ItemOk, ReadCsr, ControlRestored, FloatsRestored, ActsOf, Returned, Restored;
    RegistersEnd(v, s);
    EffectsActs(Program(v), s);
    ReturnState(v, s);
    ControlEnds(v, s);
    FloatsEnd(v, s);
    TogetherRestored(s, Effects(Program(v), s), v);
  }

  lemma TogetherRestored(s: Cpu, t: Cpu, v: Saved)
    requires |v.x| == 32 && |v.fp| == 32 && t.x == v.x && ControlRestored(s, t, v) && FloatsRestored(t, v)
    requires ReadCsr(t, DPC) == v.pc && ReadCsr(t, DCSR) % 4 == v.priv
    requires t.acts == s.acts + ActsOf(Program(v))
    ensures Restored(s, Returned(t), v)
  {
    hide ReadCsr, ControlRestored, FloatsRestored, Returned, ActsOf, Program;
    AfterDret(s, t, v);
  }

  lemma RegistersEnd(v: Saved, s: Cpu)
    requires SavedOk(v) && |s.x| == 32 && (forall it :: it in Program(v) ==> ItemOk(it))
             && Effects(Program(v), s).x[0] == 0
    ensures Effects(Program(v), s).x == v.x
  {
    hide Program, Effects, ItemOk;
    forall r | 0 <= r < 32 ensures Effects(Program(v), s).x[r] == v.x[r] {
      if r >= 3 { HighRegister(v, s, r); } else { LowRegisters(v, s); }
    }
  }

  lemma ControlEnds(v: Saved, s: Cpu)
    requires SavedOk(v) && |s.x| == 32 && (forall it :: it in Program(v) ==> ItemOk(it))
    ensures ControlRestored(s, Effects(Program(v), s), v)
  {
    hide Program, Effects, ItemOk, ReadCsr, SignExt12, Recovered, Narrow, RestoredStatus;
    var t := Effects(Program(v), s);
    forall c | Recovered(c) ensures ReadCsr(t, c) == s.masks.after(c, ReadCsr(s, c), v.csr(c)) { WideEnds(v, s, c); }
    forall c | Narrow(c) ensures ReadCsr(t, c) == s.masks.after(c, ReadCsr(s, c), SignExt12(v.csr(c))) {
      NarrowEnds(v, s, c);
    }
    forall c | 0xb03 <= c < 0xb20 ensures ReadCsr(t, c) == s.masks.after(c, ReadCsr(s, c), 0) { ResetEnds(v, s, c); }
    StatusEnds(v, s);
    if v.Fs() { FpStatusEnds(v, s); }
  }

  lemma FloatsEnd(v: Saved, s: Cpu)
    requires |v.x| == 32 && |v.fp| == 32 && |s.x| == 32 && (forall it :: it in Program(v) ==> ItemOk(it))
    ensures FloatsRestored(Effects(Program(v), s), v)
  {
    hide Program, Effects, ItemOk, ReadF, RestoredF;
    forall i | v.Fs() && 0 <= i < 32 ensures ReadF(Effects(Program(v), s), i) == RestoredF(v, i) { FpEnds(v, s, i); }
  }

  lemma AfterDret(s: Cpu, t: Cpu, v: Saved)
    requires |v.x| == 32 && |v.fp| == 32
    requires ControlRestored(s, t, v) && FloatsRestored(t, v)
    ensures var u := Returned(t);
      && ControlRestored(s, u, v) && FloatsRestored(u, v)
      && u.x == t.x && u.acts == t.acts && !u.stopped && u.pc == ReadCsr(t, DPC) && u.priv == ReadCsr(t, DCSR) % 4
  {
    hide Recovered, Narrow, SignExt12, RestoredF, RestoredStatus, ReadCsr, ReadF;
    var u := Returned(t);
    forall c ensures ReadCsr(u, c) == ReadCsr(t, c) && ReadF(u, c) == ReadF(t, c) { SameReads(t, u, c); }
  }

  lemma SameReads(t: Cpu, u: Cpu, c: nat)
    requires t.csr == u.csr && t.f == u.f
    ensures ReadCsr(u, c) == ReadCsr(t, c) && ReadF(u, c) == ReadF(t, c)
  {}

  // dpc and the privilege in dcsr
  lemma ReturnState(v: Saved, s: Cpu)
    requires SavedOk(v) && |s.x| == 32 && (forall it :: it in Program(v) ==> ItemOk(it))
    requires v.pc % (if s.compressed then 2 else 4) == 0
    ensures var t := Effects(Program(v), s); ReadCsr(t, DPC) == v.pc && ReadCsr(t, DCSR) % 4 == v.priv
  {
    hide Program, Effects, ItemOk, ReadCsr, SignExt12;
    FrontPlaces(v);
    var h := if v.ncpus == 1 then 1 else 0;
    CsrEnds(v, s, h);
    CsrEnds(v, s, h + 1);
    LowPriv(s.masks, ReadCsr(s, DCSR), 0x600 + v.priv, s.compressed);
  }

  lemma WideEnds(v: Saved, s: Cpu, c: nat)
    requires |v.x| == 32 && |v.fp| == 32 && |s.x| == 32 && (forall it :: it in Program(v) ==> ItemOk(it))
             && Recovered(c)
    ensures ReadCsr(Effects(Program(v), s), c) == s.masks.after(c, ReadCsr(s, c), v.csr(c))
  {
    hide Program, Effects, ItemOk, ReadCsr, SignExt12;
    RecoveredIn(v, c);
    var k :| 0 <= k < |Program(v)| && Program(v)[k] == C64(v, c);
    CsrEnds(v, s, k);
  }

  // The event counters are reset.
  lemma ResetEnds(v: Saved, s: Cpu, c: nat)
    requires |v.x| == 32 && |v.fp| == 32 && |s.x| == 32 && (forall it :: it in Program(v) ==> ItemOk(it))
    requires 0xb03 <= c < 0xb20
    ensures ReadCsr(Effects(Program(v), s), c) == s.masks.after(c, ReadCsr(s, c), 0)
  {
    hide Program, Effects, ItemOk, ReadCsr, SignExt12, CounterItems;
    ResetIn(v, 32, c - 0xb00);
    PartsIn(v, Csr12(c, 0));
    var k :| 0 <= k < |Program(v)| && Program(v)[k] == Csr12(c, 0);
    CsrEnds(v, s, k);
    SignExt12Iff(0);
  }

  lemma {:induction false} ResetIn(v: Saved, n: nat, i: nat)
    requires 3 <= i < n
    ensures Csr12(0xb00 + i, 0) in CounterItems(v, n)
  {
    if i < n - 1 { ResetIn(v, n - 1, i); }
  }

  lemma NarrowEnds(v: Saved, s: Cpu, c: nat)
    requires |v.x| == 32 && |v.fp| == 32 && |s.x| == 32 && (forall it :: it in Program(v) ==> ItemOk(it)) && Narrow(c)
    ensures ReadCsr(Effects(Program(v), s), c) == s.masks.after(c, ReadCsr(s, c), SignExt12(v.csr(c)))
  {
    hide Program, Effects, ItemOk, ReadCsr, SignExt12;
    NarrowIn(v, c);
    var k :| 0 <= k < |Program(v)| && Program(v)[k] == C12(v, c);
    CsrEnds(v, s, k);
  }

  // ----- mstatus and the floating-point status -----

  lemma KeepsStatus(it: Item, d: nat, s: Cpu)
    requires |s.x| == 32 && ItemOk(it) && !WritesCsr(it, MSTATUS)
    ensures var m := ReadCsr(s, MSTATUS); ReadCsr(Effect(it, d, s), MSTATUS) == if UsesFpu(it) then FsDirty(m) else m
  {
    hide Legal, Signed, FsDirty;
  }

  // Once marked, mstatus stays marked.
  lemma {:induction false} StatusAfter(its: seq<Item>, s: Cpu, k: nat)
    requires |s.x| == 32 && (forall it :: it in its ==> ItemOk(it)) && k <= |its|
    requires forall j :: k <= j < |its| ==> !WritesCsr(its[j], MSTATUS)
    ensures var m := ReadCsr(Effects(its[..k], s), MSTATUS);
      ReadCsr(Effects(its, s), MSTATUS) == if exists j :: k <= j < |its| && UsesFpu(its[j]) then FsDirty(m) else m
  {
    hide Effect, Effects, ItemOk, ReadCsr, UsesFpu, WritesCsr, DataLen, FsDirty;
    if k == |its| {
      assert its[..k] == its;
    } else {
      var n, pre := |its| - 1, its[..|its| - 1];
      assert its[n] in its && pre[..k] == its[..k] && its[..|its|] == its;
      assert forall j :: k <= j < n ==> pre[j] == its[j];
      EffectsNext(its, s, n);
      StatusAfter(pre, s, k);
      KeepsStatus(its[n], DATA_START + DataLen(pre), Effects(pre, s));
      DirtyTwice(ReadCsr(Effects(its[..k], s), MSTATUS));
      SomeLast(its, pre, k);
    }
  }

  lemma SomeLast(its: seq<Item>, pre: seq<Item>, k: nat)
    requires k < |its| && pre == its[..|its| - 1]
    ensures (exists j :: k <= j < |its| && UsesFpu(its[j])) <==>
            UsesFpu(its[|its| - 1]) || exists j :: k <= j < |pre| && UsesFpu(pre[j])
  {
    hide UsesFpu;
    forall j | k <= j < |its| - 1 ensures pre[j] == its[j] {}
    if UsesFpu(its[|its| - 1]) { assert k <= |its| - 1 < |its|; }
    if j :| k <= j < |its| - 1 && UsesFpu(pre[j]) { assert UsesFpu(its[j]); }
  }

  lemma DirtyTwice(m: nat)
    ensures FsDirty(FsDirty(m)) == FsDirty(m)
  {
    hide FsDirty, FsOf, Summary;
    DirtyFields(m);
    DirtyIff(FsDirty(m));
  }

  lemma StatusEnds(v: Saved, s: Cpu)
    requires SavedOk(v) && |s.x| == 32 && (forall it :: it in Program(v) ==> ItemOk(it))
    ensures ReadCsr(Effects(Program(v), s), MSTATUS) == RestoredStatus(s, v)
  {
    hide Program, Effects, ItemOk, Band, ReadCsr, SignExt12, FsDirty, FsOf, UsesFpu;
    var p := Program(v);
    var k := (if v.ncpus == 1 then 1 else 0) + 2;
    ProgramBand(v);
    FrontPlaces(v);
    AfterItem(p, s, k);
    forall j | 0 <= j < k ensures !Touches(p[j], MSTATUS) { BeforeStatus(p[j], v); }
    UntouchedBefore(p, s, k, MSTATUS);
    forall j | k < j < |p| ensures !WritesCsr(p[j], MSTATUS) { WrittenOnce(p, 0, 200, k, j, MSTATUS); }
    StatusAfter(p, s, k + 1);
    FpuUse(v, k + 1);
  }

  lemma BeforeStatus(it: Item, v: Saved)
    requires it == HangNonzeroHart || it == Csr64(DPC, v.pc) || it == Csr12(DCSR, 0x600 + v.priv)
    ensures !Touches(it, MSTATUS)
  {}

  // What no item before k touches is as it was.
  lemma UntouchedBefore(p: seq<Item>, s: Cpu, k: nat, c: nat)
    requires |s.x| == 32 && (forall it :: it in p ==> ItemOk(it)) && k <= |p|
    requires forall j :: 0 <= j < k ==> !Touches(p[j], c)
    ensures ReadCsr(Effects(p[..k], s), c) == ReadCsr(s, c)
  {
    hide Effects, ItemOk, ReadCsr, Touches;
    forall j | 0 <= j < k ensures !Touches(p[..k][j], c) { assert p[..k][j] == p[j]; }
    KeepsAfter(p[..k], s, 0, 0, c);
    assert p[..k][..0] == [];
    NoEffects(s);
  }

  // The floating-point unit is used behind mstatus exactly if it is on.
  lemma FpuUse(v: Saved, k: nat)
    requires |v.x| == 32 && |v.fp| == 32 && k <= |Front(v)|
    ensures (exists j :: k <= j < |Program(v)| && UsesFpu(Program(v)[j])) <==> v.Fs()
  {
    hide Program, UsesFpu, Front;
    if v.Fs() {
      var j := FpPlace(v, 0);
      FpRegUses(Program(v)[j]);
    } else {
      forall j | 0 <= j < |Program(v)| ensures !UsesFpu(Program(v)[j]) { NoFpu(v, Program(v)[j]); }
    }
  }

  lemma NoFpu(v: Saved, it: Item)
    requires |v.x| == 32 && |v.fp| == 32 && !v.Fs() && it in Program(v)
    ensures !UsesFpu(it)
  {
    hide Program, Behind;
    ProgramParts(v);
    if it in Behind(v) { BehindNoFpu(v, it); } else { assert it in Front(v); }
  }

  // fcsr comes after fflags and frm and decides both.
  lemma FpStatusEnds(v: Saved, s: Cpu)
    requires SavedOk(v) && |s.x| == 32 && (forall it :: it in Program(v) ==> ItemOk(it)) && v.Fs()
    ensures var t := Effects(Program(v), s);
      ReadCsr(t, FFLAGS) == v.csr(FFLAGS) && ReadCsr(t, FRM) == v.csr(FRM) && ReadCsr(t, FCSR) == v.Fcsr()
  {
    hide Program, Effects, ItemOk, ReadCsr, Front, Effect, DataLen;
    var p, k := Program(v), |Front(v)| + 2;
    FcsrPlace(v);
    EffectsNext(p, s, k);
    FcsrEffect(v, DATA_START + DataLen(p[..k]), Effects(p[..k], s));
    KeepsAfter(p, s, k + 1, 0, FFLAGS);
    KeepsAfter(p, s, k + 1, 0, FRM);
    KeepsAfter(p, s, k + 1, 0, FCSR);
  }

  lemma FcsrEffect(v: Saved, d: nat, s: Cpu)
    requires |s.x| == 32 && v.csr(FFLAGS) < 32 && v.csr(FRM) < 8
    ensures var t := Effect(Csr12(FCSR, v.Fcsr()), d, s);
      ReadCsr(t, FFLAGS) == v.csr(FFLAGS) && ReadCsr(t, FRM) == v.csr(FRM) && ReadCsr(t, FCSR) == v.Fcsr()
  {
    hide FsDirty, SignExt12;
    var w := v.Fcsr();
    SignExt12Iff(w);
    assert w % 32 == v.csr(FFLAGS) && w / 32 == v.csr(FRM);
  }

  lemma FcsrPlace(v: Saved)
    requires |v.x| == 32 && |v.fp| == 32 && v.Fs()
    ensures var p, k := Program(v), |Front(v)| + 2;
      && k < |p| && p[k] == Csr12(FCSR, v.Fcsr())
      && forall j, c :: k < j < |p| && 1 <= c <= 3 ==> !Touches(p[j], c)
  {
    hide Program, Front, Behind, FpItems, Touches;
    var p, k := Program(v), |Front(v)| + 2;
    ProgramParts(v);
    FpIn(v, 32, 0);
    forall j, c | k < j < |p| && 1 <= c <= 3 ensures !Touches(p[j], c) {
      if j < k + 33 {
        FpIn(v, 32, j - k - 1);
        assert p[j] == FpItems(v, 32)[j - k - 1];
        FpKeepsStatus(p[j], c);
      } else {
        assert p[j] == Behind(v)[j - k - 33];
        BehindNoFpu(v, p[j]);
        NoFpuTouches(p[j], c);
      }
    }
  }

  lemma FpKeepsStatus(it: Item, c: nat)
    requires it.FpReg? && 1 <= c <= 3
    ensures !Touches(it, c)
  {}

  lemma NoFpuTouches(it: Item, c: nat)
    requires !UsesFpu(it) && 1 <= c <= 3
    ensures !Touches(it, c)
  {}

  lemma FpRegUses(it: Item)
    requires it.FpReg?
    ensures UsesFpu(it)
  {}

  // ----- the counters -----

  lemma KeepsStopped(it: Item, d: nat, s: Cpu)
    requires |s.x| == 32 && ItemOk(it)
    ensures Effect(it, d, s).stopped ==
            if WritesCsr(it, DCSR) then Stops(ReadCsr(Effect(it, d, s), DCSR)) else s.stopped
  {
    hide CsrsAfter, Signed, SignExt12, Stops;
  }

  lemma {:induction false} StoppedAfter(its: seq<Item>, s: Cpu, k: nat)
    requires |s.x| == 32 && (forall it :: it in its ==> ItemOk(it)) && k <= |its|
    requires forall j :: k <= j < |its| ==> !WritesCsr(its[j], DCSR)
    ensures Effects(its, s).stopped == Effects(its[..k], s).stopped
  {
    hide Effect, Effects, ItemOk, WritesCsr, DataLen;
    if k == |its| {
      assert its[..k] == its;
    } else {
      var n, pre := |its| - 1, its[..|its| - 1];
      assert its[n] in its && pre[..k] == its[..k] && its[..|its|] == its;
      EffectsNext(its, s, n);
      StoppedAfter(pre, s, k);
      KeepsStopped(its[n], DATA_START + DataLen(pre), Effects(pre, s));
    }
  }

  /** From the write of dcsr to the dret the counters stand still exactly if the saved privilege is odd:
      for a user-mode checkpoint they run. */
  lemma CountersStop(v: Saved, s: Cpu, k: nat)
    requires SavedOk(v) && |s.x| == 32 && (forall it :: it in Program(v) ==> ItemOk(it))
    requires (if v.ncpus == 1 then 1 else 0) + 2 <= k <= |Program(v)|
    ensures Effects(Program(v)[..k], s).stopped <==> v.priv % 2 == 1
  {
    hide Program, Effects, ItemOk, Band, ReadCsr, SignExt12, Effect, DataLen, Stops, Legal, SavedOk;
    Shaped(v);
    var p, h := Program(v), (if v.ncpus == 1 then 1 else 0) + 1;
    ProgramBand(v);
    FrontPlaces(v);
    AfterItem(p, s, h);
    EffectsNext(p, s, h);
    KeepsStopped(p[h], DATA_START + DataLen(p[..h]), Effects(p[..h], s));
    LowPriv(s.masks, ReadCsr(Effects(p[..h], s), DCSR), 0x600 + v.priv, s.compressed);
    forall j | h < j < k ensures !WritesCsr(p[..k][j], DCSR) { WrittenOnce(p, 0, 200, h, j, DCSR); }
    assert p[..k][..h + 1] == p[..h + 1];
    StoppedAfter(p[..k], s, h + 1);
    LowBit(ReadCsr(Effects(p[..h + 1], s), DCSR), v.priv);
  }

  lemma Shaped(v: Saved)
    requires SavedOk(v)
    ensures |v.x| == 32 && |v.fp| == 32
  {}

  lemma LowBit(d: nat, priv: nat)
    requires d % 4 == (0x600 + priv) % 4
    ensures Stops(d) <==> priv % 2 == 1
  {}

  /** With the counters stopped, minstret holds its saved value up to the dret. */
  lemma MinstretHeld(v: Saved, s: Cpu)
    requires SavedOk(v) && |s.x| == 32 && (forall it :: it in Program(v) ==> ItemOk(it)) && v.priv % 2 == 1
    ensures var t := Effects(Program(v), s);
      t.stopped && ReadCsr(t, MINSTRET) == s.masks.after(MINSTRET, ReadCsr(s, MINSTRET), v.csr(MINSTRET))
  {
    hide Program, Effects, ItemOk, ReadCsr, SignExt12;
    var p := Program(v);
    FrontPlaces(v);
    CountersStop(v, s, |p|);
    assert p[..|p|] == p;
    RecoveredIn(v, MINSTRET);
    var k :| 0 <= k < |p| && p[k] == C64(v, MINSTRET);
    CsrEnds(v, s, k);
  }

  // ----- floating-point registers -----

  predicate WritesF(it: Item, i: nat) { it.FpReg? && it.i == i }

  lemma KeepsF(it: Item, d: nat, s: Cpu, i: nat)
    requires |s.x| == 32 && ItemOk(it)
    ensures ReadF(Effect(it, d, s), i) == if WritesF(it, i) then it.lo + W32 * it.hi else ReadF(s, i)
  {
    hide Legal, Signed;
  }

  lemma {:induction false} KeepsFAfter(its: seq<Item>, s: Cpu, k: nat, i: nat)
    requires |s.x| == 32 && (forall it :: it in its ==> ItemOk(it)) && k <= |its|
    requires forall j :: k <= j < |its| ==> !WritesF(its[j], i)
    ensures ReadF(Effects(its, s), i) == ReadF(Effects(its[..k], s), i)
  {
    hide Effect, ItemOk, ReadF;
    if k == |its| {
      assert its[..k] == its;
    } else {
      var pre, it := its[..|its| - 1], its[|its| - 1];
      assert it in its && pre[..k] == its[..k];
      KeepsFAfter(pre, s, k, i);
      KeepsF(it, DATA_START + DataLen(pre), Effects(pre, s), i);
    }
  }

  lemma FpEnds(v: Saved, s: Cpu, i: nat)
    requires |v.x| == 32 && |v.fp| == 32 && |s.x| == 32 && (forall it :: it in Program(v) ==> ItemOk(it)) && v.Fs()
             && i < 32
    ensures ReadF(Effects(Program(v), s), i) == RestoredF(v, i)
  {
    hide Program, Effects, ItemOk, ReadF, Effect, DataLen, WritesF, FsOf, Front;
    var p := Program(v);
    var k := FpPlace(v, i);
    assert WritesF(p[k], i) by { FpWrites(p[k], i); }
    EffectsNext(p, s, k);
    KeepsF(p[k], DATA_START + DataLen(p[..k]), Effects(p[..k], s), i);
    KeepsFAfter(p, s, k + 1, i);
  }

  // The only item that writes floating-point register i.
  lemma FpPlace(v: Saved, i: nat) returns (k: nat)
    requires |v.x| == 32 && |v.fp| == 32 && v.Fs() && i < 32
    ensures k < |Program(v)| && Program(v)[k] == FpReg(i, v.fp[i] % W32, v.x[i] / W32)
    ensures k >= |Front(v)| && forall j :: k < j < |Program(v)| ==> !WritesF(Program(v)[j], i)
  {
    hide FpItems, Front, Behind, Program, WritesF;
    var front := |Front(v)| + 3;
    ProgramParts(v);
    k := front + i;
    FpIn(v, 32, i);
    forall j | k < j < |Program(v)| ensures !WritesF(Program(v)[j], i) {
      if j < front + 32 {
        FpIn(v, 32, j - front);
        OtherF(v, j - front, i);
        assert Program(v)[j] == FpItems(v, 32)[j - front];
      } else {
        assert Program(v)[j] == Behind(v)[j - front - 32];
        BehindNoFpu(v, Program(v)[j]);
        NoFpuWritesF(Program(v)[j], i);
      }
    }
  }

  lemma NoFpuWritesF(it: Item, i: nat)
    requires !UsesFpu(it)
    ensures !WritesF(it, i)
  {}

  lemma FpWrites(it: Item, i: nat)
    requires it.FpReg? && it.i == i
    ensures WritesF(it, i)
  {}

  lemma OtherF(v: Saved, j: nat, i: nat)
    requires |v.x| == 32 && |v.fp| == 32 && j < 32 && i != j
    ensures !WritesF(FpReg(j, v.fp[j] % W32, v.x[j] / W32), i)
  {}

  // Behind the floating-point part nothing uses the unit.
  lemma BehindNoFpu(v: Saved, it: Item)
    requires |v.x| == 32 && it in Behind(v)
    ensures !UsesFpu(it)
  {
    hide CounterItems, PmpItems, RegItems;
    NoFpLoops(v, 32);
    NoFpLoops(v, 16);
  }

  lemma {:induction false} NoFpLoops(v: Saved, n: nat)
    requires |v.x| == 32 && n <= 32
    ensures forall it :: it in CounterItems(v, n) || it in PmpItems(v, n) || it in RegItems(v, 3, n) ==> !UsesFpu(it)
  {
    if n > 0 { NoFpLoops(v, n - 1); }
  }

  /** On a single-hart machine every other hart stays in the prologue for ever. */
  lemma OtherHartsHang(v: Saved, rom: seq<nat>, s: Cpu, n: nat)
    requires |v.x| == 32 && |v.fp| == 32 && v.ncpus == 1 && Laid(rom, Program(v))
    requires |s.x| == 32 && s.x[0] == 0 && ReadCsr(s, MHARTID) != 0 && s.pc == ROM_BASE
    ensures Steps(rom, s, n).Some? && Hanging(0, s, Steps(rom, s, n).value)
  {
    hide Steps, Laid, ItemAt, FpPart, Behind, Program;
    ProgramParts(v);
    assert Program(v)[0] == HangNonzeroHart;
    FirstLaid(rom, Program(v));
    HangsForever(rom, 0, DATA_START, s, s, n);
  }

  lemma {:induction false} FirstLaid(rom: seq<nat>, its: seq<Item>)
    requires Laid(rom, its) && its != []
    ensures ItemAt(rom, 0, DATA_START, its[0])
  {
    hide ItemAt, ItemOk;
    var pre := its[..|its| - 1];
    if pre == [] { assert CodeLen(pre) == 0 && DataLen(pre) == 0; } else { FirstLaid(rom, pre); }
  }

  // ----- the acts of the program -----

  function ActsOf(its: seq<Item>): seq<Act> {
    if its == [] then []
    else ActsOf(its[..|its| - 1]) + ItemActs(its[|its| - 1])
  }

  function ItemActs(it: Item): seq<Act> {
    match it
    case Csr64(c, v) => if c == DSCRATCH then [] else [Wrote(c, v)]
    case Csr12(c, v) => if c == DSCRATCH then [] else [Wrote(c, SignExt12(v))]
    case Io64(a, v) => [Stored(a, v)]
    case _ => []
  }

  lemma EffectActs(it: Item, d: nat, s: Cpu)
    requires |s.x| == 32 && ItemOk(it)
    ensures Effect(it, d, s).acts == s.acts + ItemActs(it)
  {
    hide CsrsAfter, Signed, SignExt12;
  }

  lemma Regrouped(a: seq<Act>, b: seq<Act>, c: seq<Act>)
    ensures a + b + c == a + (b + c)
  {}

  lemma {:induction false} EffectsActs(its: seq<Item>, s: Cpu)
    requires |s.x| == 32 && forall it :: it in its ==> ItemOk(it)
    ensures Effects(its, s).acts == s.acts + ActsOf(its)
  {
    hide ItemOk, Effect, ItemActs, DataLen;
    if its != [] {
      var pre, it := its[..|its| - 1], its[|its| - 1];
      assert it in its;
      EffectsActs(pre, s);
      EffectActs(it, DATA_START + DataLen(pre), Effects(pre, s));
      Regrouped(s.acts, ActsOf(pre), ItemActs(it));
    }
  }

  lemma {:induction false} ActsJoin(a: seq<Item>, b: seq<Item>)
    ensures ActsOf(a + b) == ActsOf(a) + ActsOf(b)
  {
    if b == [] {
      assert a + b == a;
    } else {
      var n := |b| - 1;
      hide ItemActs;
      ActsJoin(a, b[..n]);
      assert (a + b)[..|a + b| - 1] == a + b[..n] && (a + b)[|a + b| - 1] == b[n];
      Regrouped(ActsOf(a), ActsOf(b[..n]), ItemActs(b[n]));
    }
  }

  lemma {:induction false} NoStores(its: seq<Item>)
    requires forall it :: it in its ==> !it.Io64?
    ensures forall a :: a in ActsOf(its) ==> a.Wrote?
  {
    hide SignExt12;
    if its != [] {
      assert its[|its| - 1] in its;
      NoStores(its[..|its| - 1]);
    }
  }

  lemma {:induction false} NoIoLoops(v: Saved, n: nat)
    requires |v.x| == 32 && |v.fp| == 32 && n <= 32
    ensures forall it :: it in FpItems(v, n) + CounterItems(v, n) + PmpItems(v, n) + RegItems(v, 3, n) ==> !it.Io64?
  {
    if n > 0 { NoIoLoops(v, n - 1); }
  }

  lemma NoIoBefore(v: Saved)
    requires |v.x| == 32 && |v.fp| == 32
    ensures forall it :: it in Early(v) + RegItems(v, 3, 32) ==> !it.Io64?
  {
    hide FpItems, CounterItems, PmpItems, RegItems;
    NoIoLoops(v, 32);
    NoIoLoops(v, 16);
  }

  // The end of the acts: timer, counters, time, and the translation root last.
  function LastActs(v: Saved): seq<Act> {
    [Stored(v.clint + 0x4000, v.timecmp), Wrote(MINSTRET, v.csr(MINSTRET)), Wrote(MCYCLE, v.csr(MCYCLE)),
     Stored(v.clint + 0xbff8, v.mtime), Wrote(0x180, v.csr(0x180))]
  }

  /** The two timer stores are the only ones, and what follows the first is fixed to the last write. */
  lemma ProgramActs(v: Saved)
    requires |v.x| == 32 && |v.fp| == 32
    ensures var before := ActsOf(Early(v) + RegItems(v, 3, 32));
      ActsOf(Program(v)) == before + LastActs(v) && forall a :: a in before ==> a.Wrote?
  {
    hide RegItems, ActsOf, Early, Timers, Last;
    NoIoBefore(v);
    NoStores(Early(v) + RegItems(v, 3, 32));
    ActsJoin(Early(v) + RegItems(v, 3, 32), Timers(v));
    ActsJoin(Early(v) + RegItems(v, 3, 32) + Timers(v), Last(v));
    TailActs(v);
  }

  lemma TailActs(v: Saved)
    requires |v.x| == 32
    ensures ActsOf(Timers(v)) + ActsOf(Last(v)) == LastActs(v)
  {
    var t, l := Timers(v), Last(v);
    Acts4(t);
    assert l == l[..1] + l[1..];
    ActsJoin(l[..1], l[1..]);
    Acts4(l[1..]);
    OneAct(l[0]);
    assert l[..1] == [l[0]];
  }

  lemma Acts4(its: seq<Item>)
    requires |its| == 4
    ensures ActsOf(its) == ItemActs(its[0]) + ItemActs(its[1]) + ItemActs(its[2]) + ItemActs(its[3])
  {
    hide ItemActs;
    assert its == [its[0]] + [its[1]] + [its[2]] + [its[3]];
    ActsJoin([its[0]] + [its[1]] + [its[2]], [its[3]]);
    ActsJoin([its[0]] + [its[1]], [its[2]]);
    ActsJoin([its[0]], [its[1]]);
    OneAct(its[0]);
    OneAct(its[1]);
    OneAct(its[2]);
    OneAct(its[3]);
  }

  lemma OneAct(it: Item)
    ensures ActsOf([it]) == ItemActs(it)
  {
    hide ItemActs;
    assert [it][..0] == [];
  }
}
