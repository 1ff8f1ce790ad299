// The checkpoint boot ROM (src/riscv_cpu.cpp): a list of recovery items, how each is laid out as
// code and data words, and what running the words does.
module BootRom {
  import opened Basics
  import opened Powers
  import opened BootRomIsa

  datatype Item =
    | Csr64(csr: nat, val: nat)
    | Csr12(csr: nat, val: nat)
    | Reg(rn: nat, val: nat)
    | Io64(addr: nat, val: nat)
    | FpReg(i: nat, lo: nat, hi: nat)
    | SaveX1
    | RestoreX1
    | HangNonzeroHart

  const MHARTID: nat := 0xf14

  predicate ItemOk(it: Item) {
    match it
    case Csr64(c, v) => c < 4096 && v < WORD
    case Csr12(c, v) => c < 4096
    case Reg(r, v) => 0 < r < 32 && v < WORD
    case Io64(a, v) => a < WORD && a % 8 == 0 && v < WORD
    case FpReg(i, lo, hi) => i < 32 && lo < W32 && hi < W32
    case _ => true
  }

  function Pair(v: nat): seq<nat> { [v % W32, v / W32] }

  // The three instructions that load word pair d into register r from code word c.
  function LoadSeq(c: nat, d: nat, r: nat): seq<nat>
    requires c <= d
  {
    [Auipc(r, 4 * (d - c)), Addi(r, 4 * (d - c)), Ld(r, r)]
  }

  /** The code words of an item emitted at code word c with its data at word d. */
  function CodeOf(it: Item, c: nat, d: nat): seq<nat>
    requires c < d
  {
    match it
    case Csr64(n, v) => LoadSeq(c, d, 1) + [Csrrw(1, n)]
    case Csr12(n, v) => [Seti(1, v % 4096), Csrrw(1, n)]
    case Reg(r, v) => LoadSeq(c, d, r)
    case Io64(a, v) =>
      // the second offset is taken after three code words and two data words
      LoadSeq(c, d, 1) + LoadSeq(c + 3, d + 2, 2) + [Sd(1, 2)]
    case FpReg(i, lo, hi) => [Auipc(1, 4 * (d - c)), Addi(1, 4 * (d - c)), Fld(i, 1)]
    case SaveX1 => [Csrrw(1, DSCRATCH)]
    case RestoreX1 => [Csrrs(1, DSCRATCH)]
    case HangNonzeroHart => [0xf1402573, 0x00050663, 0x10500073, 0xffdff06f]
  }

  function DataOf(it: Item): seq<nat> {
    match it
    case Csr64(n, v) => Pair(v)
    case Reg(r, v) => Pair(v)
    case Io64(a, v) => Pair(a) + Pair(v)
    case FpReg(i, lo, hi) => [lo, hi]
    case _ => []
  }

  function CodeWords(it: Item): nat {
    match it
    case Csr64(n, v) => 4
    case Csr12(n, v) => 2
    case Reg(r, v) => 3
    case Io64(a, v) => 7
    case FpReg(i, lo, hi) => 3
    case SaveX1 => 1
    case RestoreX1 => 1
    case HangNonzeroHart => 4
  }

  function DataWords(it: Item): nat { |DataOf(it)| }

  // What an addi from x0 makes of the low twelve bits of a value.
  function SignExt12(v: nat): nat { Wrap(Signed(v % 4096, 4096)) }

  /** Only these values survive the way through a 12-bit immediate, as 64 bits and as 32. */
  lemma SignExt12Iff(v: nat)
    ensures v < WORD ==> (SignExt12(v) == v <==> v < 2048 || v >= WORD - 2048)
    ensures v < W32 ==> (SignExt12(v) % W32 == v <==> v < 2048 || v >= W32 - 2048)
  {
    var r := v % 4096;
    if r >= 2048 { DivUnique(WORD + r - 4096, W32, W32 - 1, W32 + r - 4096); } else { DivUnique(r, W32, 0, r); }
  }

  // What an item does to the hart: the meaning its code has to have. d is where its data is.
  function Effect(it: Item, d: nat, s: Cpu): (t: Cpu)
    requires |s.x| == 32 && ItemOk(it)
    ensures |t.x| == 32
  {
    var n := s.(pc := s.pc + 4 * CodeWords(it));
    match it
    case Csr64(c, v) => WriteCsr(n.(x := n.x[1 := v]), c, v)
    case Csr12(c, v) => WriteCsr(n.(x := n.x[1 := SignExt12(v)]), c, SignExt12(v))
    case Reg(r, v) => n.(x := n.x[r := v])
    case Io64(a, v) => n.(x := n.x[1 := a][2 := v], acts := n.acts + [Stored(a, v)])
    case FpReg(i, lo, hi) => FpLoaded(n.(x := n.x[1 := ROM_BASE + 4 * d]), i, lo + W32 * hi)
    case SaveX1 => WriteCsr(n, DSCRATCH, n.x[1])
    case RestoreX1 => n.(x := n.x[1 := ReadCsr(n, DSCRATCH)])
    case HangNonzeroHart => n.(x := n.x[10 := 0])
  }

  // The words of an item are in the ROM, code before data, the data on an eight-byte boundary.
  ghost predicate ItemAt(rom: seq<nat>, c: nat, d: nat, it: Item) {
    && c + CodeWords(it) <= d && d % 2 == 0 && d + DataWords(it) <= |rom| && 1 <= d < |rom| <= 0x1000
    && c < d
    && rom[c..c + CodeWords(it)] == CodeOf(it, c, d)
    && rom[d..d + DataWords(it)] == DataOf(it)
  }

  function StepCount(it: Item): nat { if it.HangNonzeroHart? then 2 else CodeWords(it) }

  lemma PairValue(v: nat)
    requires v < WORD
    ensures Pair(v)[0] + W32 * Pair(v)[1] == v
  {}

  lemma SubSlice(s: seq<nat>, a: nat, b: nat, i: nat, j: nat)
    requires a <= b <= |s| && i <= j <= b - a
    ensures s[a..b][i..j] == s[a + i..a + j]
  {
    assert forall k :: 0 <= k < j - i ==> s[a..b][i..j][k] == s[a + i..a + j][k];
  }

  lemma RunReg(rom: seq<nat>, s: Cpu, c: nat, d: nat, r: nat, v: nat)
    requires |s.x| == 32 && 0 < r < 32 && v < WORD && s.pc == ROM_BASE + 4 * c
    requires c + 3 <= d && d % 2 == 0 && d + 2 <= |rom| <= 0x1000
    requires rom[c..c + 3] == LoadSeq(c, d, r) && rom[d..d + 2] == Pair(v)
    ensures Steps(rom, s, 3) == Some(s.(pc := s.pc + 12, x := s.x[r := v]))
  {
    hide Steps, Auipc, Addi, Ld;
    assert rom[c] == rom[c..c + 3][0] && rom[c + 1] == rom[c..c + 3][1] && rom[c + 2] == rom[c..c + 3][2];
    assert rom[d] == rom[d..d + 2][0] && rom[d + 1] == rom[d..d + 2][1];
    LoadsPair(rom, s, c, d, r);
    PairValue(v);
  }

  lemma RunCsr64(rom: seq<nat>, s: Cpu, c: nat, d: nat, n: nat, v: nat)
    requires |s.x| == 32 && s.pc == ROM_BASE + 4 * c && ItemOk(Csr64(n, v)) && ItemAt(rom, c, d, Csr64(n, v))
    ensures Steps(rom, s, 4) == Some(Effect(Csr64(n, v), d, s))
  {
    hide Steps, Step, Auipc, Addi, Ld, Csrrw, Csrrs, Seti, Fld, Sd, Signed, Decode, CsrsAfter;
    var w := rom[c..c + 4];
    assert rom[c..c + 3] == w[..3] && rom[c + 3] == w[3];
    RunReg(rom, s, c, d, 1, v);
    var t := Steps(rom, s, 3).value;
    StepsAdd(rom, s, 3, 1);
    OneStep(rom, t);
    StepAt(rom, t, c + 3);
    DecodesInRange(1, 1, n, 0);
  }

  lemma RunCsr12(rom: seq<nat>, s: Cpu, c: nat, d: nat, n: nat, v: nat)
    requires |s.x| == 32 && s.x[0] == 0 && s.pc == ROM_BASE + 4 * c && ItemOk(Csr12(n, v))
             && ItemAt(rom, c, d, Csr12(n, v))
    ensures Steps(rom, s, 2) == Some(Effect(Csr12(n, v), d, s))
  {
    hide Steps, Step, Auipc, Addi, Ld, Csrrw, Csrrs, Seti, Fld, Sd, Signed, Decode, CsrsAfter;
    var w := rom[c..c + 2];
    assert rom[c] == w[0] == Seti(1, v % 4096) && rom[c + 1] == w[1] == Csrrw(1, n);
    hide CodeOf, DataOf;
    StepAt(rom, s, c);
    DecodesInRange(1, 1, n, v % 4096);
    var t := Step(rom, s).value;
    OneStep(rom, s);
    StepsAdd(rom, s, 1, 1);
    OneStep(rom, t);
    StepAt(rom, t, c + 1);
  }

  lemma RunIo64(rom: seq<nat>, s: Cpu, c: nat, d: nat, a: nat, v: nat)
    requires |s.x| == 32 && s.pc == ROM_BASE + 4 * c && ItemOk(Io64(a, v)) && ItemAt(rom, c, d, Io64(a, v))
    ensures Steps(rom, s, 7) == Some(Effect(Io64(a, v), d, s))
  {
    hide Steps, Step, Execute, LoadSeq, Pair, Sd, Signed, Decode, ItemAt;
    Io64Words(rom, c, d, a, v);
    RunReg(rom, s, c, d, 1, a);
    var t := Steps(rom, s, 3).value;
    RunReg(rom, t, c + 3, d + 2, 2, v);
    var u := Steps(rom, t, 3).value;
    StepsAdd(rom, s, 3, 3);
    StepsAdd(rom, s, 6, 1);
    OneStep(rom, u);
    StepAt(rom, u, c + 6);
    StoreWord(rom, u, a, v);
  }

  // Where the words of a store item are.
  lemma Io64Words(rom: seq<nat>, c: nat, d: nat, a: nat, v: nat)
    requires ItemAt(rom, c, d, Io64(a, v))
    ensures c + 7 <= d && d % 2 == 0 && d + 4 <= |rom| <= 0x1000
    ensures rom[c..c + 3] == LoadSeq(c, d, 1) && rom[d..d + 2] == Pair(a)
    ensures rom[c + 3..c + 6] == LoadSeq(c + 3, d + 2, 2) && rom[d + 2..d + 4] == Pair(v) && rom[c + 6] == Sd(1, 2)
  {
    hide Auipc, Addi, Ld, Sd;
    var w, e := rom[c..c + 7], rom[d..d + 4];
    SubSlice(rom, c, c + 7, 0, 3);
    SubSlice(rom, c, c + 7, 3, 6);
    SubSlice(rom, d, d + 4, 0, 2);
    SubSlice(rom, d, d + 4, 2, 4);
    assert rom[c + 6] == w[6];
    assert w[..3] == LoadSeq(c, d, 1) && w[3..6] == LoadSeq(c + 3, d + 2, 2);
  }

  lemma StoreWord(rom: seq<nat>, u: Cpu, a: nat, v: nat)
    requires |u.x| == 32 && u.x[1] == a && u.x[2] == v && a < WORD && a % 8 == 0
    ensures Execute(rom, u, Decode(Sd(1, 2))) == Some(Next(u.(acts := u.acts + [Stored(a, v)])))
  {
    hide Decode, Sd, WordAt, Ld, Fld, Csrrw, Csrrs, Seti, Addi;
    DecodesInRange(1, 2, 0, 0);
    assert Wrap(u.x[1] + 0) == a;
  }

  lemma RunFpReg(rom: seq<nat>, s: Cpu, c: nat, d: nat, i: nat, lo: nat, hi: nat)
    requires |s.x| == 32 && s.pc == ROM_BASE + 4 * c && ItemOk(FpReg(i, lo, hi)) && ItemAt(rom, c, d, FpReg(i, lo, hi))
    ensures Steps(rom, s, 3) == Some(Effect(FpReg(i, lo, hi), d, s))
  {
    hide Steps, Step, Execute, WordAt, Auipc, Addi, Ld, Csrrw, Csrrs, Seti, Fld, Sd, Signed, Decode;
    var w := rom[c..c + 3];
    assert rom[c] == w[0] && rom[c + 1] == w[1] && rom[c + 2] == w[2];
    AddressOf(rom, s, c, d, 1);
    var t := Steps(rom, s, 2).value;
    StepsAdd(rom, s, 2, 1);
    OneStep(rom, t);
    StepAt(rom, t, c + 2);
    DecodesInRange(i, 1, 0, 0);
    assert rom[d] == rom[d..d + 2][0] == lo && rom[d + 1] == rom[d..d + 2][1] == hi;
    FloatAt(rom, t, d, i, 1);
    assert Step(rom, t) == Some(Next(FpLoaded(t, i, lo + W32 * hi)));
  }

  lemma RunHang(rom: seq<nat>, s: Cpu, c: nat, d: nat)
    requires |s.x| == 32 && s.x[0] == 0 && s.pc == ROM_BASE + 4 * c && ItemAt(rom, c, d, HangNonzeroHart)
    requires ReadCsr(s, MHARTID) == 0
    ensures Steps(rom, s, 2) == Some(Effect(HangNonzeroHart, d, s))
  {
    hide Steps, Step, Decode, WordAt, CsrsAfter;
    var w := rom[c..c + 4];
    assert rom[c] == w[0] == 0xf1402573 && rom[c + 1] == w[1] == 0x00050663;
    hide CodeOf, DataOf, CodeWords;
    HangWords();
    StepAt(rom, s, c);
    var t := Step(rom, s).value;
    OneStep(rom, s);
    StepsAdd(rom, s, 1, 1);
    OneStep(rom, t);
    StepAt(rom, t, c + 1);
  }

  lemma HangWords()
    ensures Decode(0xf1402573) == CSRRS(10, MHARTID, 0)
    ensures Decode(0x00050663) == BEQ(10, 0, 12)
  {
    hide Decode;
    assert 0xf1402573 == Word(0x73, 10, 2, 0, MHARTID) && 0x00050663 == Word(0x63, 12, 0, 10, 0);
    DecodeWord(0x73, 10, 2, 0, MHARTID);
    DecodeWord(0x63, 12, 0, 10, 0);
  }

  lemma LoopWords()
    ensures Decode(0x10500073) == WFI
    ensures Decode(0xffdff06f) == JAL(0, -4)
  {
    hide Decode;
    assert 0x10500073 == Word(0x73, 0, 0, 0, 0x105) && 0xffdff06f == Word(0x6f, 0, 7, 31, 0xffd);
    DecodeWord(0x73, 0, 0, 0, 0x105);
    DecodeWord(0x6f, 0, 7, 31, 0xffd);
    assert JumpOffset(7, 31, 0xffd) == -4;
  }

  // Somewhere in the prologue of a hart that may not boot, having done nothing but read its number.
  ghost predicate Hanging(c: nat, s: Cpu, t: Cpu) {
    && |s.x| == 32 && ReadCsr(t, MHARTID) != 0 && t == s.(pc := t.pc, x := t.x) && |t.x| == 32 && t.x[0] == 0
    && (t.pc == ROM_BASE + 4 * c || (t.pc == ROM_BASE + 4 * c + 4 && t.x[10] != 0)
        || t.pc == ROM_BASE + 4 * c + 8 || t.pc == ROM_BASE + 4 * c + 12)
  }

  lemma HangStep(rom: seq<nat>, c: nat, d: nat, s: Cpu, t: Cpu)
    requires ItemAt(rom, c, d, HangNonzeroHart) && Hanging(c, s, t)
    ensures Step(rom, t).Some? && Hanging(c, s, Step(rom, t).value)
  {
    hide Step, Decode;
    var w := rom[c..c + 4];
    assert rom[c] == w[0] && rom[c + 1] == w[1] && rom[c + 2] == w[2] && rom[c + 3] == w[3];
    HangWords();
    LoopWords();
    var k := (t.pc - ROM_BASE) / 4 - c;
    StepAt(rom, t, c + k);
  }

  /** Any other hart stays in the prologue for ever and changes nothing but register 10. */
  lemma {:induction false} HangsForever(rom: seq<nat>, c: nat, d: nat, s: Cpu, t: Cpu, n: nat)
    requires ItemAt(rom, c, d, HangNonzeroHart) && Hanging(c, s, t)
    ensures Steps(rom, t, n).Some? && Hanging(c, s, Steps(rom, t, n).value)
    decreases n
  {
    hide Step, ItemAt, Hanging;
    assert |t.x| == 32 by { HangingShape(c, s, t); }
    if n > 0 {
      HangStep(rom, c, d, s, t);
      HangsForever(rom, c, d, s, Step(rom, t).value, n - 1);
    }
  }

  lemma HangingShape(c: nat, s: Cpu, t: Cpu)
    requires Hanging(c, s, t)
    ensures |t.x| == 32
  {}

  lemma RunScratch(rom: seq<nat>, s: Cpu, c: nat, d: nat, it: Item)
    requires |s.x| == 32 && s.pc == ROM_BASE + 4 * c && (it.SaveX1? || it.RestoreX1?) && ItemAt(rom, c, d, it)
    ensures Steps(rom, s, 1) == Some(Effect(it, d, s))
  {
    hide Steps, Step, Csrrw, Csrrs, Decode, CsrsAfter, Addi, Seti, Ld, Fld, Sd, Auipc, Signed;
    assert rom[c] == rom[c..c + 1][0];
    OneStep(rom, s);
    StepAt(rom, s, c);
    DecodesInRange(1, 1, DSCRATCH, 0);
  }

  /** Running the words of an item has exactly its effect. */
  lemma RunItem(rom: seq<nat>, s: Cpu, c: nat, d: nat, it: Item)
    requires |s.x| == 32 && s.x[0] == 0 && s.pc == ROM_BASE + 4 * c && ItemOk(it) && ItemAt(rom, c, d, it)
    requires it.HangNonzeroHart? ==> ReadCsr(s, MHARTID) == 0
    ensures Steps(rom, s, StepCount(it)) == Some(Effect(it, d, s))
  {
    hide Steps, Effect, ItemAt;
    match it
    case Csr64(n, v) => RunCsr64(rom, s, c, d, n, v);
    case Csr12(n, v) => RunCsr12(rom, s, c, d, n, v);
    case Reg(r, v) => RunRegItem(rom, s, c, d, r, v);
    case Io64(a, v) => RunIo64(rom, s, c, d, a, v);
    case FpReg(i, lo, hi) => RunFpReg(rom, s, c, d, i, lo, hi);
    case HangNonzeroHart => RunHang(rom, s, c, d);
    case _ => RunScratch(rom, s, c, d, it);
  }

  lemma RunRegItem(rom: seq<nat>, s: Cpu, c: nat, d: nat, r: nat, v: nat)
    requires |s.x| == 32 && s.pc == ROM_BASE + 4 * c && ItemOk(Reg(r, v)) && ItemAt(rom, c, d, Reg(r, v))
    ensures Steps(rom, s, 3) == Some(Effect(Reg(r, v), d, s))
  {
    hide Steps;
    RunReg(rom, s, c, d, r, v);
  }
}
