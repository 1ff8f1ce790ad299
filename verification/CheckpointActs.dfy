// Everything the boot ROM of src/riscv_cpu.cpp writes, as one list spelled out: each control register by its
// number, with its value, in order.
module CheckpointActs {
  import opened Basics
  import opened BootRomIsa
  import opened BootRom
  import opened Checkpoint

  function Whole(v: Saved, c: nat): Act { Wrote(c, v.csr(c)) }

  function Twelve(v: Saved, c: nat): Act { Wrote(c, SignExt12(v.csr(c))) }

  // mhpmcounter3 to 31 reset, each followed by its mhpmevent.
  function EventActs(v: Saved, n: nat): seq<Act> {
    seq(n, j requires 0 <= j < n => if j % 2 == 0 then Wrote(0xb03 + j / 2, 0) else Whole(v, 0x323 + j / 2))
  }

  // pmpaddr0 to 15.
  function AddressActs(v: Saved, n: nat): seq<Act> { seq(n, j requires 0 <= j < n => Whole(v, 0x3b0 + j)) }

  function StartActs(v: Saved): seq<Act> {
    [Wrote(0x7b1, v.pc), Wrote(0x7b0, 0x600 + v.priv), Whole(v, 0x300), Whole(v, 0x301)]
  }

  function FpActs(v: Saved): seq<Act> {
    if v.csr(0x300) / 0x2000 % 4 != 0
    then [Wrote(1, v.csr(1)), Wrote(2, v.csr(2)), Wrote(3, v.csr(2) * 32 + v.csr(1))] else []
  }

  function TrapActs(v: Saved): seq<Act> {
    [Whole(v, 0x7a0), Whole(v, 0x302), Whole(v, 0x303), Whole(v, 0x304), Whole(v, 0x305), Whole(v, 0x105),
     Twelve(v, 0x320), Twelve(v, 0x306), Twelve(v, 0x106)]
  }

  function ScratchActs(v: Saved): seq<Act> {
    [Whole(v, 0x3a0), Whole(v, 0x3a2), Whole(v, 0x340), Whole(v, 0x341), Whole(v, 0x342), Whole(v, 0x343),
     Whole(v, 0x140), Whole(v, 0x141), Whole(v, 0x142), Whole(v, 0x143), Whole(v, 0x344)]
  }

  function EndActs(v: Saved): seq<Act> {
    [Stored(v.clint + 0x4000, v.timecmp), Whole(v, 0xb02), Whole(v, 0xb00), Stored(v.clint + 0xbff8, v.mtime),
     Whole(v, 0x180)]
  }

  function AllActs(v: Saved): seq<Act> {
    StartActs(v) + FpActs(v) + EventActs(v, 58) + TrapActs(v) + AddressActs(v, 16) + ScratchActs(v) + EndActs(v)
  }

  // Items of one act each.
  lemma {:induction false} OneEach(its: seq<Item>)
    requires forall i :: 0 <= i < |its| ==> |ItemActs(its[i])| == 1
    ensures |ActsOf(its)| == |its| && forall i :: 0 <= i < |its| ==> ActsOf(its)[i] == ItemActs(its[i])[0]
  {
    hide ItemActs;
    if its != [] {
      var pre := its[..|its| - 1];
      assert forall i :: 0 <= i < |pre| ==> pre[i] == its[i];
      OneEach(pre);
    }
  }

  // Items without acts.
  lemma {:induction false} NoneEach(its: seq<Item>)
    requires forall i :: 0 <= i < |its| ==> ItemActs(its[i]) == []
    ensures ActsOf(its) == []
  {
    hide ItemActs;
    if its != [] {
      var pre := its[..|its| - 1];
      assert forall i :: 0 <= i < |pre| ==> pre[i] == its[i];
      NoneEach(pre);
    }
  }

  lemma FrontActs(v: Saved)
    requires v.priv < 4
    ensures ActsOf(Front(v)) == StartActs(v)
  {
    hide SignExt12;
    SignExt12Iff(0x600 + v.priv);
    var rest := [Csr64(DPC, v.pc), Csr12(DCSR, 0x600 + v.priv), C64(v, 0x300), C64(v, 0x301)];
    OneEach(rest);
    assert ActsOf(rest) == StartActs(v);
    if v.ncpus == 1 {
      ActsJoin([HangNonzeroHart], rest);
      OneAct(HangNonzeroHart);
    } else {
      assert Front(v) == rest;
    }
  }

  lemma FpPartActs(v: Saved)
    requires |v.x| == 32 && |v.fp| == 32 && v.csr(FFLAGS) < 32 && v.csr(FRM) < 8
    ensures ActsOf(FpPart(v)) == FpActs(v)
  {
    hide SignExt12, FpItems;
    if v.Fs() {
      SignExt12Iff(v.csr(FFLAGS));
      SignExt12Iff(v.csr(FRM));
      SignExt12Iff(v.Fcsr());
      var three := [C12(v, FFLAGS), C12(v, FRM), Csr12(FCSR, v.Fcsr())];
      ActsJoin(three, FpItems(v, 32));
      OneEach(three);
      assert ActsOf(three) == FpActs(v);
      forall i | 0 <= i < |FpItems(v, 32)| ensures ItemActs(FpItems(v, 32)[i]) == [] { FpIn(v, 32, 0); FpIn(v, 32, i); }
      NoneEach(FpItems(v, 32));
    }
  }

  lemma {:induction false} CounterActs(v: Saved, n: nat)
    requires 3 <= n <= 32
    ensures ActsOf(CounterItems(v, n)) == EventActs(v, 2 * (n - 3))
  {
    hide SignExt12;
    if n > 3 {
      CounterActs(v, n - 1);
      SignExt12Iff(0);
      var two := [Csr12(0xb00 + (n - 1), 0), Csr64(0x320 + (n - 1), v.csr(0x320 + (n - 1)))];
      ActsJoin(CounterItems(v, n - 1), two);
      OneEach(two);
      var k := 2 * (n - 4);
      assert ActsOf(two) == [Wrote(0xb03 + k / 2, 0), Whole(v, 0x323 + (k + 1) / 2)];
      assert EventActs(v, k + 2) == EventActs(v, k) + ActsOf(two);
    }
  }

  lemma {:induction false} PmpActs(v: Saved, n: nat)
    requires n <= 16
    ensures ActsOf(PmpItems(v, n)) == AddressActs(v, n)
  {
    if n > 0 {
      PmpActs(v, n - 1);
      var one := [Csr64(0x3b0 + (n - 1), v.csr(0x3b0 + (n - 1)))];
      ActsJoin(PmpItems(v, n - 1), one);
      OneEach(one);
      assert AddressActs(v, n) == AddressActs(v, n - 1) + ActsOf(one);
    }
  }

  lemma ListActs(v: Saved)
    ensures ActsOf(Traps(v)) == TrapActs(v) && ActsOf(Scratches(v)) == ScratchActs(v)
  {
    hide SignExt12;
    OneEach(Traps(v));
    OneEach(Scratches(v));
  }

  lemma RegActs(v: Saved)
    requires |v.x| == 32
    ensures ActsOf(RegItems(v, 3, 32)) == []
  {
    hide RegItems;
    RegBand(v, 3, 32);
    NoneEach(RegItems(v, 3, 32));
  }

  /** The acts of the program are exactly this list. */
  lemma ActsAreThese(v: Saved)
    requires SavedOk(v)
    ensures ActsOf(Program(v)) == AllActs(v)
  {
    hide ActsOf, Front, FpPart, CounterItems, Traps, PmpItems, Scratches, RegItems, Timers, Last, StartActs, FpActs,
         EventActs, AddressActs, TrapActs, ScratchActs;
    FrontActs(v);
    FpPartActs(v);
    CounterActs(v, 32);
    PmpActs(v, 16);
    ListActs(v);
    RegActs(v);
    ProgramActs(v);
    ActsJoin(Early(v), RegItems(v, 3, 32));
    ActsJoin(Front(v) + FpPart(v) + CounterItems(v, 32) + Traps(v) + PmpItems(v, 16), Scratches(v));
    ActsJoin(Front(v) + FpPart(v) + CounterItems(v, 32) + Traps(v), PmpItems(v, 16));
    ActsJoin(Front(v) + FpPart(v) + CounterItems(v, 32), Traps(v));
    ActsJoin(Front(v) + FpPart(v), CounterItems(v, 32));
    ActsJoin(Front(v), FpPart(v));
    assert LastActs(v) == EndActs(v);
  }

  /** Each event counter is written once, with zero. */
  lemma ResetOnce(v: Saved, c: nat)
    requires SavedOk(v) && 0xb03 <= c < 0xb20
    ensures var acts := ActsOf(Program(v));
      exists i :: 0 <= i < |acts| && acts[i] == Wrote(c, 0)
                  && forall j :: 0 <= j < |acts| && j != i ==> !(acts[j].Wrote? && acts[j].csr == c)
  {
    hide ActsOf, Program;
    ActsAreThese(v);
    var a, e := StartActs(v) + FpActs(v), EventActs(v, 58);
    var b := TrapActs(v) + AddressActs(v, 16) + ScratchActs(v) + EndActs(v);
    var acts := ActsOf(Program(v));
    assert acts == a + e + b;
    var i := |a| + 2 * (c - 0xb03);
    assert acts[i] == e[2 * (c - 0xb03)];
    forall j | 0 <= j < |acts| && j != i ensures !(acts[j].Wrote? && acts[j].csr == c) {
      if |a| <= j < |a| + 58 { assert acts[j] == e[j - |a|]; }
    }
  }
}
