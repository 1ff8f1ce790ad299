// The emitter of the boot ROM (src/riscv_cpu.cpp): the rom array with its code and data cursors.
module RomBuilder {
  import opened BootRomIsa
  import opened BootRom
  import opened Checkpoint

  // rom' is rom with words ws at position p.
  ghost predicate Put(rom: seq<nat>, rom': seq<nat>, p: nat, ws: seq<nat>) {
    && |rom'| == |rom| && p + |ws| <= |rom|
    && rom'[p..p + |ws|] == ws
    && (forall i :: 0 <= i < |rom| && !(p <= i < p + |ws|) ==> rom'[i] == rom[i])
  }

  // Words past the cursors do not disturb what is laid out.
  lemma {:induction false} LaidKept(rom: seq<nat>, rom': seq<nat>, its: seq<Item>)
    requires Laid(rom, its) && |rom'| == |rom|
    requires forall i :: 0 <= i < |rom| && (i < CodeLen(its) || DATA_START <= i < DATA_START + DataLen(its)) ==>
             rom'[i] == rom[i]
    ensures Laid(rom', its)
  {
    hide ItemOk, CodeOf, DataOf, CodeWords, DataWords, ItemAt;
    if its != [] {
      var pre, it := its[..|its| - 1], its[|its| - 1];
      LaidKept(rom, rom', pre);
      ItemKept(rom, rom', CodeLen(pre), DATA_START + DataLen(pre), it);
    }
  }

  lemma ItemKept(rom: seq<nat>, rom': seq<nat>, c: nat, d: nat, it: Item)
    requires ItemAt(rom, c, d, it) && |rom'| == |rom|
    requires forall i :: 0 <= i < |rom| && (c <= i < c + CodeWords(it) || d <= i < d + DataWords(it)) ==>
             rom'[i] == rom[i]
    ensures ItemAt(rom', c, d, it)
  {
    hide CodeOf, DataOf, CodeWords, DataWords;
    assert rom'[c..c + CodeWords(it)] == rom[c..c + CodeWords(it)];
    assert rom'[d..d + DataWords(it)] == rom[d..d + DataWords(it)];
  }

  lemma CodeSize(it: Item, c: nat, d: nat)
    requires c < d
    ensures |CodeOf(it, c, d)| == CodeWords(it) && |DataOf(it)| == DataWords(it) && DataWords(it) % 2 == 0
  {}

  lemma LenNext(its: seq<Item>, it: Item)
    ensures CodeLen(its + [it]) == CodeLen(its) + CodeWords(it) && DataLen(its + [it]) == DataLen(its) + DataWords(it)
  {
    hide CodeWords, DataWords;
    assert (its + [it])[..|its + [it]| - 1] == its;
  }

  /** Emitting the code and data words of an item at the cursors lays it out after the others. */
  lemma Emitted(rom: seq<nat>, mid: seq<nat>, rom': seq<nat>, its: seq<Item>, it: Item)
    requires Laid(rom, its) && ItemOk(it) && |rom| == ROM_WORDS && DataLen(its) % 2 == 0
    requires var c, d := CodeLen(its), DATA_START + DataLen(its);
      && c + CodeWords(it) <= DATA_START && d + DataWords(it) < ROM_WORDS && c < d
      && Put(rom, mid, c, CodeOf(it, c, d)) && Put(mid, rom', d, DataOf(it))
    ensures Laid(rom', its + [it])
  {
    hide ItemOk, CodeOf, DataOf, CodeWords;
    var c, d := CodeLen(its), DATA_START + DataLen(its);
    CodeSize(it, c, d);
    LaidKept(rom, rom', its);
    assert (its + [it])[..|its + [it]| - 1] == its;
    assert rom'[c..c + CodeWords(it)] == mid[c..c + CodeWords(it)];
  }

  // How emitting a ROM ends: the two errors are exits of the program.
  datatype Outcome = Done | NoHypervisor | TooSmall

  // Every hart that may boot from the ROM comes to the checkpoint, and every other one never leaves it.
  ghost predicate Boots(rom: seq<nat>, v: Saved)
    requires |v.x| == 32 && |v.fp| == 32
  {
    && (forall s: Cpu :: Booting(s, Program(v)) && s.pc == ROM_BASE && v.pc % (if s.compressed then 2 else 4) == 0 ==>
          exists n: nat :: Steps(rom, s, n).Some? && Restored(s, Steps(rom, s, n).value, v))
    && (v.ncpus == 1 ==>
          forall s: Cpu, n: nat :: |s.x| == 32 && s.x[0] == 0 && ReadCsr(s, MHARTID) != 0 && s.pc == ROM_BASE ==>
          Steps(rom, s, n).Some? && Hanging(0, s, Steps(rom, s, n).value))
  }

  lemma LaidBoots(rom: seq<nat>, v: Saved)
    requires SavedOk(v) && Laid(rom, Program(v)) && CodeLen(Program(v)) < |rom| && rom[CodeLen(Program(v))] == DRET_WORD
    ensures Boots(rom, v)
  {
    hide Program, Laid, CodeLen, Steps, Restored, ReadCsr, Hanging;
    forall s: Cpu | Booting(s, Program(v)) && s.pc == ROM_BASE && v.pc % (if s.compressed then 2 else 4) == 0
      ensures exists n: nat :: Steps(rom, s, n).Some? && Restored(s, Steps(rom, s, n).value, v)
    {
      BootRestores(v, rom, s);
    }
    forall s: Cpu, n: nat | v.ncpus == 1 && |s.x| == 32 && s.x[0] == 0 && ReadCsr(s, MHARTID) != 0 && s.pc == ROM_BASE
      ensures Steps(rom, s, n).Some? && Hanging(0, s, Steps(rom, s, n).value)
    {
      OtherHartsHang(v, rom, s, n);
    }
  }

  class Builder {
    const rom: array<nat>
    var codePos: nat
    var dataPos: nat
    ghost var items: seq<Item>

    ghost predicate Valid()
      reads this, rom
    {
      && rom.Length == ROM_WORDS && codePos == CodeLen(items) && dataPos == DATA_START + DataLen(items)
      && codePos <= DATA_START && dataPos < ROM_WORDS && dataPos % 2 == 0 && Laid(rom[..], items)
    }

    constructor ()
      ensures Valid() && items == [] && fresh(rom)
    {
      rom := new nat[ROM_WORDS](_ => 0);
      codePos, dataPos := 0, DATA_START;
      items := [];
    }

    // rom[(*code_pos)++] = w for each word, and the same for the data words
    method Append(it: Item, code: seq<nat>, data: seq<nat>)
      requires Valid() && ItemOk(it) && codePos + CodeWords(it) < DATA_START && dataPos + DataWords(it) < ROM_WORDS
      requires code == CodeOf(it, codePos, dataPos) && data == DataOf(it)
      modifies this, rom
      ensures Valid() && items == old(items) + [it]
      ensures codePos == old(codePos) + CodeWords(it) && dataPos == old(dataPos) + DataWords(it)
    {
      hide ItemOk, CodeOf, DataOf, CodeWords, DataWords, Laid, Put, CodeLen, DataLen;
      CodeSize(it, codePos, dataPos);
      ghost var was := rom[..];
      Write(codePos, code);
      ghost var mid := rom[..];
      Write(dataPos, data);
      Emitted(was, mid, rom[..], items, it);
      LenNext(items, it);
      codePos, dataPos := codePos + |code|, dataPos + |data|;
      items := items + [it];
    }

    method Write(p: nat, ws: seq<nat>)
      requires p + |ws| <= rom.Length
      modifies rom
      ensures Put(old(rom[..]), rom[..], p, ws)
    {
      for k := 0 to |ws|
        invariant forall i :: 0 <= i < rom.Length ==>
                    rom[i] == if p <= i < p + k then ws[i - p] else old(rom[i])
      {
        rom[p + k] := ws[k];
      }
    }

    ghost predicate Room(code: nat, data: nat)
      reads this
    {
      codePos + code < DATA_START && dataPos + data < ROM_WORDS
    }

    /** create_csr64_recovery */
    method Csr64(csr: nat, val: nat)
      requires Valid() && ItemOk(Item.Csr64(csr, val)) && Room(4, 2)
      modifies this, rom
      ensures Valid() && items == old(items) + [Item.Csr64(csr, val)]
      ensures codePos == old(codePos) + 4 && dataPos == old(dataPos) + 2
    {
      hide Auipc, Addi, Ld, Fld, Csrrw, Laid, CodeLen, DataLen;
      var off := 4 * (dataPos - codePos);
      Append(Item.Csr64(csr, val),
             [Auipc(1, off), Addi(1, off), Ld(1, 1), Csrrw(1, csr)],
             [val % W32, val / W32]);
    }

    /** create_csr12_recovery */
    method Csr12(csr: nat, val: nat)
      requires Valid() && ItemOk(Item.Csr12(csr, val)) && Room(2, 0)
      modifies this, rom
      ensures Valid() && items == old(items) + [Item.Csr12(csr, val)]
      ensures codePos == old(codePos) + 2 && dataPos == old(dataPos)
    {
      hide Seti, Csrrw, Laid, CodeLen, DataLen;
      Append(Item.Csr12(csr, val), [Seti(1, val % 4096), Csrrw(1, csr)], []);
    }

    /** create_reg_recovery */
    method Reg(rn: nat, val: nat)
      requires Valid() && ItemOk(Item.Reg(rn, val)) && Room(3, 2)
      modifies this, rom
      ensures Valid() && items == old(items) + [Item.Reg(rn, val)]
      ensures codePos == old(codePos) + 3 && dataPos == old(dataPos) + 2
    {
      hide Auipc, Addi, Ld, Fld, Csrrw, Laid, CodeLen, DataLen;
      var off := 4 * (dataPos - codePos);
      Append(Item.Reg(rn, val), [Auipc(rn, off), Addi(rn, off), Ld(rn, rn)], [val % W32, val / W32]);
    }

    /** create_io64_recovery */
    method Io64(addr: nat, val: nat)
      requires Valid() && ItemOk(Item.Io64(addr, val)) && Room(7, 4)
      modifies this, rom
      ensures Valid() && items == old(items) + [Item.Io64(addr, val)]
      ensures codePos == old(codePos) + 7 && dataPos == old(dataPos) + 4
    {
      var off := 4 * (dataPos - codePos);
      var off2 := 4 * ((dataPos + 2) - (codePos + 3));
      hide Auipc, Addi, Ld, Sd, Laid, CodeLen, DataLen;
      Append(Item.Io64(addr, val),
             [Auipc(1, off), Addi(1, off), Ld(1, 1), Auipc(2, off2), Addi(2, off2), Ld(2, 2), Sd(1, 2)],
             [addr % W32, addr / W32, val % W32, val / W32]);
    }

    // one pass of the floating-point register loop
    method FpReg(i: nat, lo: nat, hi: nat)
      requires Valid() && ItemOk(Item.FpReg(i, lo, hi)) && Room(3, 2)
      modifies this, rom
      ensures Valid() && items == old(items) + [Item.FpReg(i, lo, hi)]
      ensures codePos == old(codePos) + 3 && dataPos == old(dataPos) + 2
    {
      hide Auipc, Addi, Ld, Fld, Csrrw, Laid, CodeLen, DataLen;
      var off := 4 * (dataPos - codePos);
      Append(Item.FpReg(i, lo, hi), [Auipc(1, off), Addi(1, off), Fld(i, 1)], [lo, hi]);
    }

    // one instruction, or the prologue
    method Raw(it: Item, code: seq<nat>)
      requires Valid() && (it.SaveX1? || it.RestoreX1? || it.HangNonzeroHart?) && Room(4, 0)
      requires code == CodeOf(it, codePos, dataPos)
      modifies this, rom
      ensures Valid() && items == old(items) + [it]
      ensures codePos == old(codePos) + CodeWords(it) && dataPos == old(dataPos)
    {
      hide Laid, CodeLen, DataLen;
      Append(it, code, []);
    }

    /** create_boot_rom: the ROM of a checkpoint holds its program followed by dret, and boots to the
        checkpoint; it is always large enough, so the only refusal is an unsupported privilege. */
    method CreateBootRom(v: Saved) returns (r: Outcome)
      requires Valid() && items == [] && codePos == 0 && dataPos == DATA_START && SavedOk(v)
      modifies this, rom
      ensures r == if v.priv == 2 then NoHypervisor else Done
      ensures r == Done ==> Valid() && items == Program(v) && rom[codePos] == DRET_WORD && Boots(rom[..], v)
    {
      hide Laid, CodeLen, DataLen, Front, FpPart, CounterItems, Traps, PmpItems, Scratches, RegItems, Timers, Last,
           Boots;
      var ok := EmitFront(v);
      if !ok { return NoHypervisor; }
      EmitFp(v);
      EmitCounters(v);
      EmitTraps(v);
      EmitPmp(v);
      EmitScratches(v);
      assert items == Early(v);
      EmitRegs(v);
      EmitTimers(v);
      EmitLast(v);
      EmitDret();
      var end := codePos + 1;
      if rom.Length <= dataPos || DATA_START <= end { return TooSmall; }
      assert items == Program(v);
      hide Program;
      LaidBoots(rom[..], v);
      return Done;
    }

    method EmitDret()
      requires Valid() && codePos < DATA_START
      modifies rom
      ensures Valid() && rom[codePos] == DRET_WORD
    {
      hide Laid, CodeLen, DataLen;
      ghost var laid := rom[..];
      rom[codePos] := DRET_WORD;
      LaidKept(laid, rom[..], items);
    }

    method EmitFront(v: Saved) returns (ok: bool)
      requires Valid() && items == [] && codePos == 0 && dataPos == DATA_START && SavedOk(v)
      modifies this, rom
      ensures ok == (v.priv != 2)
      ensures ok ==> Valid() && items == Front(v) && codePos <= 18 && dataPos <= DATA_START + 6
    {
      hide Laid, CodeLen, DataLen;
      if v.ncpus == 1 { Raw(HangNonzeroHart, [0xf1402573, 0x00050663, 0x10500073, 0xffdff06f]); }
      Csr64(DPC, v.pc);
      if v.priv == 2 { return false; }
      Csr12(DCSR, 0x600 + v.priv);
      Csr64(0x300, v.csr(0x300));
      Csr64(0x301, v.csr(0x301));
      return true;
    }

    method EmitFp(v: Saved)
      requires Valid() && SavedOk(v) && codePos <= 18 && dataPos <= DATA_START + 6
      modifies this, rom
      ensures Valid() && items == old(items) + FpPart(v)
      ensures codePos <= 120 && dataPos <= DATA_START + 70
    {
      hide Laid, CodeLen, DataLen, FsOf;
      if !v.Fs() { return; }
      EmitFpStatus(v);
      EmitFpRegs(v);
      assert items == old(items) + FpPart(v);
    }

    method EmitFpStatus(v: Saved)
      requires Valid() && SavedOk(v) && codePos <= 18 && dataPos <= DATA_START + 6
      modifies this, rom
      ensures Valid() && items == old(items) + [C12(v, FFLAGS), C12(v, FRM), Item.Csr12(FCSR, v.Fcsr())]
      ensures codePos <= 24 && dataPos <= DATA_START + 6
    {
      hide Laid, CodeLen, DataLen;
      Csr12(FFLAGS, v.csr(FFLAGS));
      Csr12(FRM, v.csr(FRM));
      Csr12(FCSR, v.Fcsr());
    }

    method EmitFpRegs(v: Saved)
      requires Valid() && SavedOk(v) && codePos <= 24 && dataPos <= DATA_START + 6
      modifies this, rom
      ensures Valid() && items == old(items) + FpItems(v, 32)
      ensures codePos <= 120 && dataPos <= DATA_START + 70
    {
      hide Laid, CodeLen, DataLen;
      ghost var was := items;
      for i := 0 to 32
        invariant Valid() && items == was + FpItems(v, i)
        invariant codePos <= 24 + 3 * i && dataPos <= DATA_START + 6 + 2 * i
      {
        FpReg(i, v.fp[i] % W32, v.x[i] / W32);
      }
    }

    method EmitCounters(v: Saved)
      requires Valid() && SavedOk(v) && codePos <= 120 && dataPos <= DATA_START + 70
      modifies this, rom
      ensures Valid() && items == old(items) + CounterItems(v, 32)
      ensures codePos <= 294 && dataPos <= DATA_START + 128
    {
      hide Laid, CodeLen, DataLen;
      ghost var was := items;
      for i := 3 to 32
        invariant Valid() && items == was + CounterItems(v, i)
        invariant codePos <= 120 + 6 * (i - 3) && dataPos <= DATA_START + 70 + 2 * (i - 3)
      {
        Csr12(0xb00 + i, 0);
        Csr64(0x320 + i, v.csr(0x320 + i));
      }
    }

    method EmitTraps(v: Saved)
      requires Valid() && SavedOk(v) && codePos <= 294 && dataPos <= DATA_START + 128
      modifies this, rom
      ensures Valid() && items == old(items) + Traps(v)
      ensures codePos <= 324 && dataPos <= DATA_START + 140
    {
      hide Laid, CodeLen, DataLen;
      Csr64(0x7a0, v.csr(0x7a0));
      Csr64(0x302, v.csr(0x302));
      Csr64(0x303, v.csr(0x303));
      Csr64(0x304, v.csr(0x304));
      Csr64(0x305, v.csr(0x305));
      Csr64(0x105, v.csr(0x105));
      Csr12(0x320, v.csr(0x320));
      Csr12(0x306, v.csr(0x306));
      Csr12(0x106, v.csr(0x106));
    }

    method EmitPmp(v: Saved)
      requires Valid() && SavedOk(v) && codePos <= 324 && dataPos <= DATA_START + 140
      modifies this, rom
      ensures Valid() && items == old(items) + PmpItems(v, 16)
      ensures codePos <= 388 && dataPos <= DATA_START + 172
    {
      hide Laid, CodeLen, DataLen;
      ghost var was := items;
      for i := 0 to 16
        invariant Valid() && items == was + PmpItems(v, i)
        invariant codePos <= 324 + 4 * i && dataPos <= DATA_START + 140 + 2 * i
      {
        Csr64(0x3b0 + i, v.csr(0x3b0 + i));
      }
    }

    method EmitScratches(v: Saved)
      requires Valid() && SavedOk(v) && codePos <= 388 && dataPos <= DATA_START + 172
      modifies this, rom
      ensures Valid() && items == old(items) + Scratches(v)
      ensures codePos <= 432 && dataPos <= DATA_START + 194
    {
      hide Laid, CodeLen, DataLen, C64;
      ghost var was := items;
      EmitPmpCfgAndM(v);
      EmitS(v);
      assert items == was + Scratches(v);
    }

    method EmitPmpCfgAndM(v: Saved)
      requires Valid() && SavedOk(v) && codePos <= 388 && dataPos <= DATA_START + 172
      modifies this, rom
      ensures Valid()
      ensures items == old(items) + [C64(v, 0x3a0), C64(v, 0x3a2), C64(v, 0x340), C64(v, 0x341), C64(v, 0x342),
                                     C64(v, 0x343)]
      ensures codePos <= 412 && dataPos <= DATA_START + 184
    {
      hide Laid, CodeLen, DataLen;
      Csr64(0x3a0, v.csr(0x3a0));
      Csr64(0x3a2, v.csr(0x3a2));
      Csr64(0x340, v.csr(0x340));
      Csr64(0x341, v.csr(0x341));
      Csr64(0x342, v.csr(0x342));
      Csr64(0x343, v.csr(0x343));
    }

    method EmitS(v: Saved)
      requires Valid() && SavedOk(v) && codePos <= 412 && dataPos <= DATA_START + 184
      modifies this, rom
      ensures Valid()
      ensures items == old(items) + [C64(v, 0x140), C64(v, 0x141), C64(v, 0x142), C64(v, 0x143), C64(v, 0x344)]
      ensures codePos <= 432 && dataPos <= DATA_START + 194
    {
      hide Laid, CodeLen, DataLen;
      Csr64(0x140, v.csr(0x140));
      Csr64(0x141, v.csr(0x141));
      Csr64(0x142, v.csr(0x142));
      Csr64(0x143, v.csr(0x143));
      Csr64(0x344, v.csr(0x344));
    }

    method EmitRegs(v: Saved)
      requires Valid() && SavedOk(v) && codePos <= 432 && dataPos <= DATA_START + 194
      modifies this, rom
      ensures Valid() && items == old(items) + RegItems(v, 3, 32)
      ensures codePos <= 519 && dataPos <= DATA_START + 252
    {
      hide Laid, CodeLen, DataLen;
      ghost var was := items;
      for i := 3 to 32
        invariant Valid() && items == was + RegItems(v, 3, i)
        invariant codePos <= 432 + 3 * (i - 3) && dataPos <= DATA_START + 194 + 2 * (i - 3)
      {
        Reg(i, v.x[i]);
      }
    }

    method EmitTimers(v: Saved)
      requires Valid() && SavedOk(v) && codePos <= 519 && dataPos <= DATA_START + 252
      modifies this, rom
      ensures Valid() && items == old(items) + Timers(v)
      ensures codePos <= 541 && dataPos <= DATA_START + 264
    {
      hide Laid, CodeLen, DataLen;
      Io64(v.clint + 0x4000, v.timecmp);
      Csr64(0xb02, v.csr(0xb02));
      Csr64(0xb00, v.csr(0xb00));
      Io64(v.clint + 0xbff8, v.mtime);
    }

    method EmitLast(v: Saved)
      requires Valid() && SavedOk(v) && codePos <= 541 && dataPos <= DATA_START + 264
      modifies this, rom
      ensures Valid() && items == old(items) + Last(v)
      ensures codePos <= 553 && dataPos <= DATA_START + 270
    {
      hide Laid, CodeLen, DataLen, Csrrw, Csrrs;
      Reg(1, v.x[1]);
      Reg(2, v.x[2]);
      Raw(SaveX1, [Csrrw(1, DSCRATCH)]);
      Csr64(0x180, v.csr(0x180));
      Raw(RestoreX1, [Csrrs(1, DSCRATCH)]);
    }
  }
}
