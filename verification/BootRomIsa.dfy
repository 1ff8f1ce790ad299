// The instructions of the checkpoint boot ROM (src/riscv_cpu.cpp): their encoders, and an
// interpreter of the words they give.
module BootRomIsa {
  import opened Basics
  import opened Powers

  const ROM_BASE: nat := 0x10000
  const W32: nat := 0x1_0000_0000
  const K20: nat := 0x10_0000

  // ----- encoders; the fields are disjoint, so adding them is or-ing them -----

  function Word(op: nat, rd: nat, f3: nat, rs1: nat, top: nat): nat {
    op + 128 * rd + 4096 * f3 + 32768 * rs1 + K20 * top
  }

  function Csrrw(rs: nat, csr: nat): nat { Word(0x73, 0, 1, rs % 32, csr % 4096) }

  function Csrrs(rd: nat, csr: nat): nat { Word(0x73, rd % 32, 2, 0, csr % 4096) }

  // The upper part is rounded up when the low twelve bits will be taken as negative.
  function Auipc(rd: nat, addr: nat): nat {
    var a := if addr / 2048 % 2 == 1 then (addr + 2048) % W32 else addr;
    0x17 + 128 * (rd % 32) + a / 4096 * 4096
  }

  function Addi(rd: nat, addr: nat): nat { Word(0x13, rd % 32, 0, rd % 32, addr % 4096) }

  function Seti(rd: nat, data: nat): nat { Word(0x13, rd % 32, 0, 0, data % 4096) }

  function Ld(rd: nat, rs1: nat): nat { Word(3, rd % 32, 3, rs1 % 32, 0) }

  function Sd(rs1: nat, rs2: nat): nat { Word(0x23, 0, 3, rs1 % 32, rs2 % 32) }

  function Fld(rd: nat, rs1: nat): nat { Word(7, rd % 32, 3, rs1 % 32, 0) }

  // ----- decoding -----

  datatype Insn =
    | AUIPC(rd: nat, imm: int)
    | ADDI(rd: nat, rs1: nat, imm: int)
    | LD(rd: nat, rs1: nat, imm: int)
    | FLD(rd: nat, rs1: nat, imm: int)
    | SD(rs1: nat, rs2: nat, imm: int)
    | CSRRW(rd: nat, csr: nat, rs1: nat)
    | CSRRS(rd: nat, csr: nat, rs1: nat)
    | BEQ(rs1: nat, rs2: nat, off: int)
    | JAL(rd: nat, off: int)
    | WFI
    | DRET
    | OTHER

  function Signed(v: nat, n: nat): int
    requires n > 0
  {
    if v < n / 2 then v else v - n
  }

  // The scattered immediate of a branch.
  function BranchOffset(rd: nat, top: nat): int {
    Signed(rd / 2 * 2 + top / 32 % 64 * 32 + rd % 2 * 2048 + top / 2048 * 4096, 8192)
  }

  // and of a jump.
  function JumpOffset(f3: nat, rs1: nat, top: nat): int {
    Signed(top / 2 % 1024 * 2 + top % 2 * 2048 + (f3 + 8 * rs1) * 4096 + top / 2048 * K20, 2 * K20)
  }

  function DecodeFields(op: nat, rd: nat, f3: nat, rs1: nat, top: nat, upper: nat): Insn {
    if op == 0x17 then AUIPC(rd, Signed(upper, W32))
    else if op == 0x13 && f3 == 0 then ADDI(rd, rs1, Signed(top, 4096))
    else if op == 3 && f3 == 3 then LD(rd, rs1, Signed(top, 4096))
    else if op == 7 && f3 == 3 then FLD(rd, rs1, Signed(top, 4096))
    else if op == 0x23 && f3 == 3 then SD(rs1, top % 32, Signed(top / 32 * 32 + rd, 4096))
    else if op == 0x73 && f3 == 1 then CSRRW(rd, top, rs1)
    else if op == 0x73 && f3 == 2 then CSRRS(rd, top, rs1)
    else if op == 0x63 && f3 == 0 then BEQ(rs1, top % 32, BranchOffset(rd, top))
    else if op == 0x6f then JAL(rd, JumpOffset(f3, rs1, top))
    else if op == 0x73 && rd == 0 && f3 == 0 && rs1 == 0 && top == 0x105 then WFI
    else if op == 0x73 && rd == 0 && f3 == 0 && rs1 == 0 && top == 0x7b2 then DRET
    else OTHER
  }

  function Decode(w: nat): Insn {
    DecodeFields(w % 128, w / 128 % 32, w / 4096 % 8, w / 32768 % 32, w / K20, w / 4096 * 4096)
  }

  lemma Fields(op: nat, rd: nat, f3: nat, rs1: nat, top: nat)
    requires op < 128 && rd < 32 && f3 < 8 && rs1 < 32
    ensures var w := Word(op, rd, f3, rs1, top);
      w % 128 == op && w / 128 % 32 == rd && w / 4096 % 8 == f3 && w / 32768 % 32 == rs1 && w / K20 == top
  {
    var w := Word(op, rd, f3, rs1, top);
    DivUnique(w, 128, rd + 32 * f3 + 256 * rs1 + 8192 * top, op);
    DivUnique(w, 4096, f3 + 8 * rs1 + 256 * top, op + 128 * rd);
    DivUnique(w, 32768, rs1 + 32 * top, op + 128 * rd + 4096 * f3);
    DivUnique(w, K20, top, op + 128 * rd + 4096 * f3 + 32768 * rs1);
    DivUnique(w / 128, 32, f3 + 8 * rs1 + 256 * top, rd);
    DivUnique(w / 4096, 8, rs1 + 32 * top, f3);
    DivUnique(w / 32768, 32, top, rs1);
  }

  lemma DecodeWord(op: nat, rd: nat, f3: nat, rs1: nat, top: nat)
    requires op < 128 && op != 0x17 && rd < 32 && f3 < 8 && rs1 < 32
    ensures Decode(Word(op, rd, f3, rs1, top)) == DecodeFields(op, rd, f3, rs1, top, 0)
  {
    hide Word, BranchOffset, JumpOffset, Signed;
    Fields(op, rd, f3, rs1, top);
  }

  /** Each emitted word decodes to the instruction it is meant to be; of a register number the low five
      bits count, of a control-register number and an immediate the low twelve. */
  lemma Decodes(r: nat, q: nat, c: nat, imm: nat)
    ensures var rd, rs, csr := r % 32, q % 32, c % 4096;
      && Decode(Csrrw(q, c)) == CSRRW(0, csr, rs)
      && Decode(Csrrs(r, c)) == CSRRS(rd, csr, 0)
      && Decode(Addi(r, imm)) == ADDI(rd, rd, Signed(imm % 4096, 4096))
      && Decode(Seti(r, imm)) == ADDI(rd, 0, Signed(imm % 4096, 4096))
      && Decode(Ld(r, q)) == LD(rd, rs, 0)
      && Decode(Fld(r, q)) == FLD(rd, rs, 0)
      && Decode(Sd(r, q)) == SD(rd, rs, 0)
  {
    hide Word, BranchOffset, JumpOffset, Decode;
    var rd, rs, csr := r % 32, q % 32, c % 4096;
    DecodeWord(0x73, 0, 1, rs, csr);
    DecodeWord(0x73, rd, 2, 0, csr);
    DecodeWord(0x13, rd, 0, rd, imm % 4096);
    DecodeWord(0x13, rd, 0, 0, imm % 4096);
    DecodeWord(3, rd, 3, rs, 0);
    DecodeWord(7, rd, 3, rs, 0);
    DecodeWord(0x23, 0, 3, rd, rs);
  }

  lemma DecodesInRange(rd: nat, rs: nat, csr: nat, imm: nat)
    requires rd < 32 && rs < 32 && csr < 4096
    ensures Decode(Csrrw(rs, csr)) == CSRRW(0, csr, rs) && Decode(Csrrs(rd, csr)) == CSRRS(rd, csr, 0)
    ensures Decode(Addi(rd, imm)) == ADDI(rd, rd, Signed(imm % 4096, 4096))
    ensures Decode(Seti(rd, imm)) == ADDI(rd, 0, Signed(imm % 4096, 4096))
    ensures Decode(Ld(rd, rs)) == LD(rd, rs, 0) && Decode(Fld(rd, rs)) == FLD(rd, rs, 0)
    ensures Decode(Sd(rd, rs)) == SD(rd, rs, 0)
  {
    hide Decode, Csrrw, Csrrs, Addi, Seti, Ld, Fld, Sd, Signed;
    Decodes(rd, rs, csr, imm);
  }

  /** The scattered immediates: the decoder puts the bits of a distance together again, the topmost one
      counted negative. */
  lemma BranchDecodes(rs1: nat, rs2: nat, a: nat, b: nat, c: nat, d: nat)
    requires rs1 < 32 && rs2 < 32 && a < 2 && b < 2 && c < 64 && d < 16
    ensures Decode(Word(0x63, 2 * d + b, 0, rs1, 2048 * a + 32 * c + rs2))
      == BEQ(rs1, rs2, 2048 * b + 32 * c + 2 * d - 4096 * a)
  {
    hide Word, JumpOffset, Decode;
    DecodeWord(0x63, 2 * d + b, 0, rs1, 2048 * a + 32 * c + rs2);
    BranchBits(a, b, c, d, rs2);
  }

  lemma BranchBits(a: nat, b: nat, c: nat, d: nat, rs2: nat)
    requires a < 2 && b < 2 && c < 64 && d < 16 && rs2 < 32
    ensures var rd, top := 2 * d + b, 2048 * a + 32 * c + rs2;
      rd / 2 == d && rd % 2 == b && top / 2048 == a && top / 32 % 64 == c && top % 32 == rs2
  {}

  lemma JumpDecodes(rd: nat, a: nat, b: nat, c: nat, f3: nat, rs1: nat)
    requires rd < 32 && a < 2 && b < 2 && c < 1024 && f3 < 8 && rs1 < 32
    ensures Decode(Word(0x6f, rd, f3, rs1, 2048 * a + 2 * c + b))
      == JAL(rd, 32768 * rs1 + 4096 * f3 + 2048 * b + 2 * c - K20 * a)
  {
    hide Word, BranchOffset, Decode;
    DecodeWord(0x6f, rd, f3, rs1, 2048 * a + 2 * c + b);
    JumpBits(a, c, b);
  }

  lemma JumpBits(a: nat, c: nat, b: nat)
    requires a < 2 && c < 1024 && b < 2
    ensures var top := 2048 * a + 2 * c + b; top / 2048 == a && top / 2 % 1024 == c && top % 2 == b
  {}

  /** The two immediates of an auipc and addi pair add up to the offset. */
  lemma PairAddsUp(rd: nat, off: nat)
    requires rd < 32 && off < 0x7000_0000
    ensures var i := Decode(Auipc(rd, off));
      i.AUIPC? && i.rd == rd && i.imm + Signed(off % 4096, 4096) == off
  {
    hide Decode;
    var a := if off / 2048 % 2 == 1 then off + 2048 else off;
    assert Auipc(rd, off) == 0x17 + 128 * rd + a / 4096 * 4096;
    DecodeUpper(rd, a / 4096);
    RoundedUp(off);
  }

  lemma DecodeUpper(rd: nat, u: nat)
    requires rd < 32
    ensures Decode(0x17 + 128 * rd + u * 4096) == AUIPC(rd, Signed(u * 4096, W32))
  {
    hide BranchOffset, JumpOffset, Signed;
    UpperFields(rd, u);
  }

  lemma UpperFields(rd: nat, u: nat)
    requires rd < 32
    ensures var w := 0x17 + 128 * rd + u * 4096; w % 128 == 0x17 && w / 128 % 32 == rd && w / 4096 == u
  {
    assert (0x17 + 128 * rd + u * 4096) / 128 == rd + 32 * u;
  }

  lemma RoundedUp(off: nat)
    ensures var a := if off / 2048 % 2 == 1 then off + 2048 else off;
      a / 4096 * 4096 + Signed(off % 4096, 4096) == off
  {
    var q, r := off / 4096, off % 4096;
    DivUnique(off, 2048, 2 * q + r / 2048, r % 2048);
  }

  // ----- the interpreter -----

  // What a write leaves in a control register, given its number, what it held and the value written.
  datatype Masks = Masks(after: (nat, nat, nat) -> nat)

  // What the hart did besides computing: stores and writes of control registers, in order.
  datatype Act = Stored(addr: nat, val: nat) | Wrote(csr: nat, val: nat)

  // A hart in machine mode executing from the ROM: registers, the control registers as they read,
  // the acts so far, and whether the counters stand still.
  datatype Cpu = Cpu(pc: nat, x: seq<nat>, f: map<nat, nat>, csr: map<nat, nat>, acts: seq<Act>, priv: nat,
                     stopped: bool, compressed: bool, masks: Masks)

  const DCSR: nat := 0x7b0
  const DPC: nat := 0x7b1
  const DSCRATCH: nat := 0x7b2

  const FFLAGS: nat := 1
  const FRM: nat := 2
  const FCSR: nat := 3
  const MSTATUS: nat := 0x300

  function Read(csr: map<nat, nat>, c: nat): nat { if c in csr then csr[c] else 0 }

  function ReadCsr(s: Cpu, c: nat): nat { Read(s.csr, c) }

  // ----- mstatus: the FS field in bits 13 and 14, and the summary in bit 63 -----

  function FsOf(m: nat): nat { m / 0x2000 % 4 }

  predicate Summary(m: nat) { m / HALF % 2 == 1 }

  const HALF: nat := WORD / 2

  // FS dirty, and therefore the summary bit.
  function FsDirty(m: nat): nat {
    var d := m / 0x8000 * 0x8000 + 0x6000 + m % 0x2000;
    if Summary(d) then d else d + HALF
  }

  /** FS reads 3 and bit 63 is set, and every other bit is as it was. */
  lemma DirtyBits(m: nat)
    ensures var d := FsDirty(m);
      && d / 0x2000 % 4 == 3 && d / 0x8000_0000_0000_0000 % 2 == 1 && d % 0x2000 == m % 0x2000
      && d / 0x8000 % 0x1_0000_0000_0000 == m / 0x8000 % 0x1_0000_0000_0000
      && (d == m <==> m / 0x2000 % 4 == 3 && m / 0x8000_0000_0000_0000 % 2 == 1)
  {
    hide FsDirty;
    DirtyFields(m);
    DirtyIff(m);
  }

  lemma DirtyFields(m: nat)
    ensures FsOf(FsDirty(m)) == 3 && Summary(FsDirty(m)) && FsDirty(m) % 0x2000 == m % 0x2000
    ensures FsDirty(m) / 0x8000 % 0x1_0000_0000_0000 == m / 0x8000 % 0x1_0000_0000_0000
  {
    hide FsOf, Summary;
    var q, r := m / 0x8000, m % 0x2000;
    var d := q * 0x8000 + 0x6000 + r;
    Joined(q, r);
    if !Summary(d) { TopSet(d); }
  }

  lemma Joined(q: nat, r: nat)
    requires r < 0x2000
    ensures var d := q * 0x8000 + 0x6000 + r; FsOf(d) == 3 && d % 0x2000 == r && d / 0x8000 == q
  {
    DivUnique(q * 0x8000 + 0x6000 + r, 0x2000, 4 * q + 3, r);
    DivUnique(q * 0x8000 + 0x6000 + r, 0x8000, q, 0x6000 + r);
  }

  lemma TopSet(d: nat)
    requires !Summary(d)
    ensures Summary(d + HALF) && FsOf(d + HALF) == FsOf(d) && (d + HALF) % 0x2000 == d % 0x2000
    ensures (d + HALF) / 0x8000 % 0x1_0000_0000_0000 == d / 0x8000 % 0x1_0000_0000_0000
  {
    DivMod(d, HALF);
    DivMod(d, 0x2000);
    DivMod(d, 0x8000);
    DivUnique(d + HALF, HALF, d / HALF + 1, d % HALF);
    DivUnique(d + HALF, 0x2000, d / 0x2000 + 0x4_0000_0000_0000, d % 0x2000);
    DivUnique(d + HALF, 0x8000, d / 0x8000 + 0x1_0000_0000_0000, d % 0x8000);
    Around(d / 0x2000, 0x1_0000_0000_0000, 4);
    Around(d / 0x8000, 1, 0x1_0000_0000_0000);
  }

  lemma Around(x: nat, k: nat, n: pos)
    ensures (x + k * n) % n == x % n
  {
    DivMod(x, n);
    Distribute(x / n, k, n);
    DivUnique(x + k * n, n, x / n + k, x % n);
  }

  /** Nothing changes exactly if FS is dirty and summarised already. */
  lemma DirtyIff(m: nat)
    ensures FsDirty(m) == m <==> FsOf(m) == 3 && Summary(m)
  {
    DirtyFields(m);
    if FsOf(m) == 3 {
      DivDiv(m, 0x2000, 4);
      hide Summary;
      assert m / 0x8000 * 0x8000 + 0x6000 + m % 0x2000 == m;
    }
  }

  // Any use of the floating-point unit marks it.
  function FpUsed(csr: map<nat, nat>): map<nat, nat> { csr[MSTATUS := FsDirty(Read(csr, MSTATUS))] }

  function ReadF(s: Cpu, i: nat): nat { if i in s.f then s.f[i] else 0 }

  // dcsr takes only stopcount, stoptime and the privilege; dpc drops the bits below an instruction;
  // dscratch takes everything. The others are left to the hart.
  function Legal(masks: Masks, compressed: bool, c: nat, was: nat, val: nat): nat {
    if c == DCSR then was / 2048 * 2048 + val / 512 % 4 * 512 + was / 4 % 128 * 4 + val % 4
    else if c == DPC then (if compressed then val / 2 * 2 else val / 4 * 4)
    else if c == DSCRATCH then val
    else masks.after(c, was, val)
  }

  /** A write of dcsr changes the privilege and the two stop bits, and nothing else. */
  lemma DcsrFields(masks: Masks, compressed: bool, was: nat, val: nat)
    ensures var d := Legal(masks, compressed, DCSR, was, val);
      d % 4 == val % 4 && d / 512 % 4 == val / 512 % 4 && d / 4 % 128 == was / 4 % 128 && d / 2048 == was / 2048
  {
    var h, m, b, l := was / 2048, val / 512 % 4, was / 4 % 128, val % 4;
    var d := h * 2048 + m * 512 + b * 4 + l;
    DivUnique(d, 4, h * 512 + m * 128 + b, l);
    DivUnique(d, 512, h * 4 + m, b * 4 + l);
    DivUnique(d, 2048, h, m * 512 + b * 4 + l);
    DivUnique(h * 512 + m * 128 + b, 128, h * 4 + m, b);
    DivUnique(h * 4 + m, 4, h, m);
  }

  /** The words of the instructions the ROM is made of. */
  lemma EncodedWords()
    ensures Csrrw(1, 0x7b2) == 0x7b20_9073 && Csrrs(1, 0x7b2) == 0x7b20_20f3 && Seti(1, 0x7ff) == 0x7ff0_0093
    ensures Auipc(1, 0xb00) == 0x1097 && Auipc(3, 0x7fc) == 0x197 && Addi(1, 0xb00) == 0xb000_8093
    ensures Ld(1, 1) == 0xb083 && Ld(31, 31) == 0x000f_bf83 && Sd(1, 2) == 0x0020_b023 && Fld(5, 1) == 0xb287
  {}

  // fcsr is frm and fflags side by side.
  function CsrsAfter(masks: Masks, compressed: bool, csr: map<nat, nat>, c: nat, val: nat): map<nat, nat> {
    if c == FFLAGS then FpUsed(csr[FFLAGS := val % 32][FCSR := Read(csr, FCSR) / 32 * 32 + val % 32])
    else if c == FRM then FpUsed(csr[FRM := val % 8][FCSR := val % 8 * 32 + Read(csr, FCSR) % 32])
    else if c == FCSR then FpUsed(csr[FFLAGS := val % 32][FRM := val / 32 % 8][FCSR := val % 256])
    else csr[c := Legal(masks, compressed, c, Read(csr, c), val)]
  }

  // fcsr as the two registers beside it.
  ghost predicate FcsrJoined(csr: map<nat, nat>) {
    Read(csr, FFLAGS) < 32 && Read(csr, FRM) < 8 && Read(csr, FCSR) == 32 * Read(csr, FRM) + Read(csr, FFLAGS)
  }

  /** The three views of the floating-point control register agree after every write of one of them, which
      takes its own bits and leaves the others. */
  lemma FcsrViews(masks: Masks, compressed: bool, csr: map<nat, nat>, c: nat, val: nat)
    requires FcsrJoined(csr) && (c == FFLAGS || c == FRM || c == FCSR)
    ensures var t := CsrsAfter(masks, compressed, csr, c, val);
      && FcsrJoined(t)
      && Read(t, FFLAGS) == (if c == FRM then Read(csr, FFLAGS) else val % 32)
      && Read(t, FRM) == (if c == FFLAGS then Read(csr, FRM) else if c == FRM then val % 8 else val / 32 % 8)
  {
    hide FsDirty;
    var m, n := Read(csr, FRM), Read(csr, FFLAGS);
    DivUnique(32 * m + n, 32, m, n);
    ThreeAndFive(val);
  }

  lemma ThreeAndFive(v: nat)
    ensures v % 256 == 32 * (v / 32 % 8) + v % 32 && v / 32 % 8 < 8 && v % 32 < 32
  {
    DivDiv(v, 32, 8);
    DivUnique(v, 256, v / 256, 32 * (v / 32 % 8) + v % 32);
  }

  // The test that dcsr stops the counters compares before it masks, and so looks at bit 0.
  predicate Stops(dcsr: nat) { dcsr % 2 == 1 }

  // dscratch is only a place to keep a register, so writing it is no act.
  function WriteCsr(s: Cpu, c: nat, val: nat): Cpu {
    var csr := CsrsAfter(s.masks, s.compressed, s.csr, c, val);
    s.(csr := csr,
       stopped := if c == DCSR then Stops(Read(csr, DCSR)) else s.stopped,
       acts := if c == DSCRATCH then s.acts else s.acts + [Wrote(c, val)])
  }

  function SetX(s: Cpu, rd: nat, val: nat): (t: Cpu)
    requires |s.x| == 32 && rd < 32
    ensures |t.x| == 32
  {
    if rd == 0 then s else s.(x := s.x[rd := val])
  }

  function Wrap(v: int): nat { v % WORD }

  // The word of the ROM at an address.
  function WordAt(rom: seq<nat>, a: nat): Option<nat> {
    if a >= ROM_BASE && a % 4 == 0 && (a - ROM_BASE) / 4 < |rom| then Some(rom[(a - ROM_BASE) / 4]) else None
  }

  function FpLoaded(s: Cpu, i: nat, val: nat): Cpu { s.(f := s.f[i := val], csr := FpUsed(s.csr)) }

  function Next(s: Cpu): Cpu { s.(pc := s.pc + 4) }

  // Leave debug mode.
  function Returned(s: Cpu): Cpu { s.(pc := ReadCsr(s, DPC), priv := ReadCsr(s, DCSR) % 4, stopped := false) }

  function Execute(rom: seq<nat>, s: Cpu, i: Insn): (r: Option<Cpu>)
    requires |s.x| == 32
    ensures r.Some? ==> |r.value.x| == 32
  {
    match i
    case AUIPC(rd, imm) => if rd < 32 then Some(Next(SetX(s, rd, Wrap(s.pc + imm)))) else None
    case ADDI(rd, rs1, imm) => if rd < 32 && rs1 < 32 then Some(Next(SetX(s, rd, Wrap(s.x[rs1] + imm)))) else None
    case LD(rd, rs1, imm) =>
      if rd < 32 && rs1 < 32 then
        var a := Wrap(s.x[rs1] + imm);
        var lo, hi := WordAt(rom, a), WordAt(rom, a + 4);
        if a % 8 == 0 && lo.Some? && hi.Some? then Some(Next(SetX(s, rd, lo.value + W32 * hi.value))) else None
      else None
    case FLD(rd, rs1, imm) =>
      if rs1 < 32 then
        var a := Wrap(s.x[rs1] + imm);
        var lo, hi := WordAt(rom, a), WordAt(rom, a + 4);
        if a % 8 == 0 && lo.Some? && hi.Some? then Some(Next(FpLoaded(s, rd, lo.value + W32 * hi.value))) else None
      else None
    case SD(rs1, rs2, imm) =>
      if rs1 < 32 && rs2 < 32 && Wrap(s.x[rs1] + imm) % 8 == 0
      then Some(Next(s.(acts := s.acts + [Stored(Wrap(s.x[rs1] + imm), s.x[rs2])]))) else None
    case CSRRW(rd, c, rs1) =>
      if rd < 32 && rs1 < 32 then Some(Next(SetX(WriteCsr(s, c, s.x[rs1]), rd, ReadCsr(s, c)))) else None
    case CSRRS(rd, c, rs1) =>
      // only reads are emitted
      if rd < 32 && rs1 == 0 then Some(Next(SetX(s, rd, ReadCsr(s, c)))) else None
    case BEQ(rs1, rs2, off) =>
      if rs1 < 32 && rs2 < 32 then Some(if s.x[rs1] == s.x[rs2] then s.(pc := Wrap(s.pc + off)) else Next(s)) else None
    case JAL(rd, off) => if rd < 32 then Some(SetX(s, rd, s.pc + 4).(pc := Wrap(s.pc + off))) else None
    case WFI => Some(Next(s))
    case DRET => Some(Returned(s))
    case OTHER => None
  }

  function Step(rom: seq<nat>, s: Cpu): (r: Option<Cpu>)
    requires |s.x| == 32
    ensures r.Some? ==> |r.value.x| == 32
  {
    var w := WordAt(rom, s.pc);
    if w.None? then None else Execute(rom, s, Decode(w.value))
  }

  function Steps(rom: seq<nat>, s: Cpu, n: nat): (r: Option<Cpu>)
    requires |s.x| == 32
    ensures r.Some? ==> |r.value.x| == 32
    decreases n
  {
    if n == 0 then Some(s)
    else
      var t := Step(rom, s);
      if t.None? then None else Steps(rom, t.value, n - 1)
  }

  lemma {:induction false} StepsAdd(rom: seq<nat>, s: Cpu, m: nat, n: nat)
    requires |s.x| == 32 && Steps(rom, s, m).Some?
    ensures Steps(rom, s, m + n) == Steps(rom, Steps(rom, s, m).value, n)
    decreases m
  {
    hide Step;
    if m > 0 { StepsAdd(rom, Step(rom, s).value, m - 1, n); }
  }

  // The instruction at word c.
  lemma StepAt(rom: seq<nat>, s: Cpu, c: nat)
    requires |s.x| == 32 && c < |rom| && s.pc == ROM_BASE + 4 * c
    ensures Step(rom, s) == Execute(rom, s, Decode(rom[c]))
  {
    hide Decode, Execute;
  }

  // Word pair d of the ROM as the eight bytes at its address.
  lemma PairAt(rom: seq<nat>, d: nat)
    requires d + 1 < |rom| && d % 2 == 0
    ensures var a := ROM_BASE + 4 * d;
      a % 8 == 0 && WordAt(rom, a) == Some(rom[d]) && WordAt(rom, a + 4) == Some(rom[d + 1])
  {
    hide WordAt;
    WordAtIs(rom, d);
    WordAtIs(rom, d + 1);
    assert ROM_BASE + 4 * d == 8 * (ROM_BASE / 8 + d / 2);
  }

  lemma WordAtIs(rom: seq<nat>, d: nat)
    requires d < |rom|
    ensures WordAt(rom, ROM_BASE + 4 * d) == Some(rom[d])
  {
    assert ROM_BASE + 4 * d - ROM_BASE == 4 * d;
  }

  // auipc and addi at word c: the address of data word d.
  lemma AddressOf(rom: seq<nat>, s: Cpu, c: nat, d: nat, rd: nat)
    requires |s.x| == 32 && c + 2 < |rom| && c < d < |rom| <= 0x1000 && 0 < rd < 32 && s.pc == ROM_BASE + 4 * c
    requires rom[c] == Auipc(rd, 4 * (d - c)) && rom[c + 1] == Addi(rd, 4 * (d - c))
    ensures Steps(rom, s, 2) == Some(s.(pc := s.pc + 8, x := s.x[rd := ROM_BASE + 4 * d]))
  {
    hide Decode, Auipc, Addi, Signed, Csrrw, Csrrs, Seti, Ld, Fld, Sd, WordAt, Wrap, Step;
    var off := 4 * (d - c);
    PairAddsUp(rd, off);
    DecodesInRange(rd, 0, 0, off);
    StepAt(rom, s, c);
    var t := Step(rom, s).value;
    StepAt(rom, t, c + 1);
    WrapPair(s.pc, Decode(Auipc(rd, off)).imm, off);
    assert Steps(rom, s, 2) == Steps(rom, t, 1) == Step(rom, t);
    assert t.x[rd := ROM_BASE + 4 * d] == s.x[rd := ROM_BASE + 4 * d];
  }

  // Adding in two halves wraps to the same sum.
  lemma WrapPair(pc: nat, hi: int, off: nat)
    requires pc + off < WORD
    ensures Wrap(Wrap(pc + hi) + (off - hi)) == pc + off
  {}

  /** A load sequence at word c puts the 64-bit value stored at word pair d into its register. */
  lemma LoadsPair(rom: seq<nat>, s: Cpu, c: nat, d: nat, rd: nat)
    requires |s.x| == 32 && c + 2 < |rom| && c < d < |rom| - 1 && |rom| <= 0x1000 && d % 2 == 0
    requires 0 < rd < 32 && s.pc == ROM_BASE + 4 * c
    requires rom[c] == Auipc(rd, 4 * (d - c)) && rom[c + 1] == Addi(rd, 4 * (d - c)) && rom[c + 2] == Ld(rd, rd)
    ensures Steps(rom, s, 3) == Some(s.(pc := s.pc + 12, x := s.x[rd := rom[d] + W32 * rom[d + 1]]))
  {
    hide Decode, Auipc, Addi, Signed, Csrrw, Csrrs, Seti, Ld, Fld, Sd, WordAt, Step, Execute;
    AddressOf(rom, s, c, d, rd);
    var t := Steps(rom, s, 2).value;
    StepsAdd(rom, s, 2, 1);
    assert Steps(rom, t, 1) == Step(rom, t) by { OneStep(rom, t); }
    StepAt(rom, t, c + 2);
    DecodesInRange(rd, rd, 0, 0);
    LoadAt(rom, t, d, rd);
    var v := rom[d] + W32 * rom[d + 1];
    assert t.x[rd := v] == s.x[rd := v];
  }

  lemma LoadAt(rom: seq<nat>, t: Cpu, d: nat, rd: nat)
    requires |t.x| == 32 && 0 < rd < 32 && d + 1 < |rom| <= 0x1000 && d % 2 == 0 && t.x[rd] == ROM_BASE + 4 * d
    ensures Execute(rom, t, LD(rd, rd, 0)) == Some(Next(SetX(t, rd, rom[d] + W32 * rom[d + 1])))
  {
    hide WordAt;
    PairAt(rom, d);
    assert Wrap(t.x[rd] + 0) == ROM_BASE + 4 * d;
  }

  lemma FloatAt(rom: seq<nat>, t: Cpu, d: nat, i: nat, rs: nat)
    requires |t.x| == 32 && 0 < rs < 32 && d + 1 < |rom| <= 0x1000 && d % 2 == 0 && t.x[rs] == ROM_BASE + 4 * d
    ensures Execute(rom, t, FLD(i, rs, 0)) == Some(Next(FpLoaded(t, i, rom[d] + W32 * rom[d + 1])))
  {
    hide WordAt;
    PairAt(rom, d);
    assert Wrap(t.x[rs] + 0) == ROM_BASE + 4 * d;
  }

  lemma OneStep(rom: seq<nat>, s: Cpu)
    requires |s.x| == 32
    ensures Steps(rom, s, 1) == Step(rom, s)
  {
    hide Step;
  }
}
