// The memory-access side of RISCVCPUState (src/riscv_cpu.cpp) as an object: TLB arrays, host
// memory and control state, each operation against the step of Tlb it is.
module Hart {
  import opened Basics
  import opened Powers
  import opened Pmp
  import opened Mmu
  import opened Tlb
  import LE = LittleEndian

  function BytesAt(host: seq<nat>, p: int, size: nat): (v: nat) {
    if 0 <= p && p + size <= |host| then LE.Load(host[p..p + size]) else 0
  }

  /** A resolved pointer and the bytes behind it lie in host memory. */
  lemma ResolvedInBounds(c: Platform, m: Context, host: seq<nat>, x: nat, size: nat, a: Access)
    requires Aligned(c) && Fits(c, |host|) && SizeOk(size) && x % size == 0
    requires Resolve(c, m, host, x, size, a).Ram?
    ensures var r := Resolve(c, m, host, x, size, a); 0 <= r.ptr && r.ptr + size <= |host|
  {
    hide Walk, PmpOk, P2;
    InsideAligned(x, size);
    WalkByPage(c, m, host, x, x, a);
    var p := Walk(c, m, host, x, a).paddr;
    FoundRange(c.ranges, p);
    var r := FindRange(c.ranges, p).value;
    assert r in c.ranges;
    PageFits(p, size, r.addr, r.size);
  }

  lemma PageFits(p: nat, size: nat, base: nat, n: nat)
    requires Inside(p, size) && base <= p < base + n && base % PAGE == 0 && n % PAGE == 0
    ensures p + size <= base + n
  {}

  /** A coherent run returns what it stored: after a store to RAM that leaves the page tables in use
      alone, any load of the same address that resolves to RAM lands there and reads the value. */
  lemma StoreThenLoad(c: Platform, s: State, x: nat, size: nat, val: nat)
    requires Aligned(c) && Fits(c, |s.host|) && Shape(s) && Plain(s) && Coherent(c, s) && SizeOk(size) && x % size == 0
    requires TablesKept(c, s, DataStore(x, size, val)) && Path(c, s, x, size, Store).Ram?
    ensures var t := After(c, s, DataStore(x, size, val));
      Path(c, t, x, size, Load).Ram? ==>
        && Path(c, t, x, size, Load) == Path(c, s, x, size, Store)
        && BytesAt(t.host, Path(c, t, x, size, Load).ptr, size) == val % LE.Base(size)
  {
    hide Resolve, WalkReads, PageOf, SlotOf, Aligned, PmpAligned, AllOk, EntryOk, TagHit, LE.Store, LE.Load,
         Coherent, Fits, TablesKept;
    var t := After(c, s, DataStore(x, size, val));
    HitIsSlow(c, s, x, size, Store);
    StoreCoherent(c, s, x, size, val);
    HitIsSlow(c, t, x, size, Load);
    LoadKept(c, s, x, size, val);
    if Path(c, t, x, size, Load).Ram? { AccessesAgree(c, s.ctx, s.host, x, size); }
    ResolvedInBounds(c, s.ctx, s.host, x, size, Store);
    var p, bs := Path(c, s, x, size, Store).ptr, LE.Store(val, size);
    assert Written(s.host, p, bs)[p..p + size] == bs;
    LE.RoundTrip(val, size);
  }

  // The store does not touch what the load's translation rests on.
  lemma LoadKept(c: Platform, s: State, x: nat, size: nat, val: nat)
    requires Shape(s) && SizeOk(size) && x % size == 0
    requires TablesKept(c, s, DataStore(x, size, val)) && Path(c, s, x, size, Store).Ram?
    ensures var t := After(c, s, DataStore(x, size, val));
      t.ctx == s.ctx && Resolve(c, t.ctx, t.host, x, size, Load) == Resolve(c, s.ctx, s.host, x, size, Load)
  {
    hide Resolve, ReadsFrom, PageOf, SlotOf, TagHit, LE.Store, LoadWord, Written, SatpMode, Root;
    var t := After(c, s, DataStore(x, size, val));
    var p, bs := Path(c, s, x, size, Store).ptr, LE.Store(val, size);
    InsideAligned(x, size);
    var levels := if SatpMode(s.ctx) >= 5 then SatpMode(s.ctx) - 5 else 0;
    ReadsFromByPage(c, s.ctx, s.host, PageOf(x), x, levels, 0, Root(s.ctx));
    assert WalkReads(c, s.ctx, s.host, PageOf(x)) == WalkReads(c, s.ctx, s.host, x);
    forall q | q in WalkReads(c, s.ctx, s.host, x) ensures LoadWord(t.host, q) == LoadWord(s.host, q) {
      WordKept(s.host, p, bs, q);
    }
    ResolveDepends(c, s.ctx, s.host, t.host, x, size, Load);
  }

  class Hart {
    const c: Platform
    const host: array<nat>
    const rd: array<Entry>
    const wr: array<Entry>
    const pmp: PmpUnit
    var priv: nat
    var mprv: bool
    var mpp: nat
    var sum: bool
    var mxr: bool
    var satp: nat
    var tvm: bool

    ghost predicate Valid()
      reads this, pmp, pmp.csrCfg, pmp.csrAddr, pmp.list
    {
      && pmp.Valid() && rd.Length == TLB_SIZE && wr.Length == TLB_SIZE && rd != wr
      && host != pmp.csrCfg && host != pmp.csrAddr
    }

    ghost function Ctx(): Context
      requires pmp.n <= pmp.list.Length
      reads this, pmp, pmp.list
    {
      Context(priv, mprv, mpp, sum, mxr, satp, pmp.list[..pmp.n])
    }

    ghost function View(): State
      requires pmp.n <= pmp.list.Length
      reads this, host, rd, wr, pmp, pmp.list
    {
      State(Ctx(), rd[..], wr[..], host[..])
    }

    constructor (c: Platform, host: array<nat>)
      ensures Valid() && this.c == c && this.host == host && fresh(rd) && fresh(wr) && fresh(pmp)
      ensures View() == FlushAll(View()) && priv == PRV_M && !mprv && !tvm && View().ctx.pmp == []
    {
      this.c, this.host := c, host;
      rd := new Entry[TLB_SIZE](_ => Entry(INVALID, 0, 0));
      wr := new Entry[TLB_SIZE](_ => Entry(INVALID, 0, 0));
      pmp := new PmpUnit();
      priv, mprv, mpp, sum, mxr, satp, tvm := PRV_M, false, 0, false, false, 0, false;
      new;
      hide P2, Byte, Mode, Bounds;
      NothingActive(pmp.Regs(), ENTRIES);
    }

    /** tlb_flush_all */
    method TlbFlushAll()
      requires Valid()
      modifies rd, wr
      ensures Valid() && View() == FlushAll(old(View()))
    {
      hide Wf, Unpacked;
      for i := 0 to TLB_SIZE
        invariant forall j :: 0 <= j < TLB_SIZE ==>
                    rd[j] == if j < i then old(rd[j]).(vaddr := INVALID) else old(rd[j])
        invariant forall j :: 0 <= j < TLB_SIZE ==>
                    wr[j] == if j < i then old(wr[j]).(vaddr := INVALID) else old(wr[j])
      {
        rd[i] := rd[i].(vaddr := INVALID);
        wr[i] := wr[i].(vaddr := INVALID);
      }
    }

    /** get_phys_mem_range */
    method GetRange(paddr: nat) returns (r: Option<Range>)
      ensures r == FindRange(c.ranges, paddr)
    {
      var i := |c.ranges|;
      assert c.ranges[..i] == c.ranges;
      while i > 0
        invariant 0 <= i <= |c.ranges|
        invariant FindRange(c.ranges, paddr) == FindRange(c.ranges[..i], paddr)
      {
        i := i - 1;
        var pr := c.ranges[i];
        assert c.ranges[..i + 1][..i] == c.ranges[..i];
        if pr.addr <= paddr < pr.addr + pr.size { return Some(pr); }
      }
      return None;
    }

    method CheckPmp(paddr: nat, size: nat, a: Access) returns (ok: bool)
      requires Valid() && size > 0
      ensures ok == PmpOk(c, Ctx(), paddr, size, a)
    {
      hide ListOk;
      ok := pmp.AccessOk(paddr, size, a, priv, mprv, mpp, c.addrLen);
    }

    // riscv_phys_read_u64 of a page-table entry
    method ReadPte(paddr: nat) returns (q: Option<nat>)
      requires Valid()
      ensures q == PteAt(c, Ctx(), paddr)
    {
      hide PmpOk;
      var ok := CheckPmp(paddr, 8, Load);
      if !ok { return None; }
      var pr := GetRange(paddr);
      if pr.None? || !pr.value.ram || pr.value.addr > paddr { return None; }
      return Some(pr.value.phys + (paddr - pr.value.addr));
    }

    /** riscv_cpu_get_phys_addr */
    method GetPhysAddr(vaddr: nat, a: Access) returns (t: Translation)
      requires Valid()
      ensures t == Walk(c, Ctx(), host[..], vaddr, a)
    {
      hide P2, PteAt, LoadWord, LeafOk, NextTable, IndexAt, Join, Canonical, Root, SatpMode;
      ghost var m, h := Ctx(), host[..];
      var p := if mprv && a != Execute then mpp else priv;
      if p == PRV_M { return Phys(vaddr); }
      var mode := SatpMode(Context(priv, mprv, mpp, sum, mxr, satp, []));
      SatpOnly(m);
      if mode == 0 { return Phys(vaddr); }
      var levels := if mode >= 5 then mode - 5 else 0;
      if !Canonical(vaddr, levels) { return PageFault; }
      var table: nat := Root(Context(priv, mprv, mpp, sum, mxr, satp, []));
      var i := 0;
      while i < levels
        invariant 0 <= i <= levels
        invariant Walk(c, m, h, vaddr, a) == WalkFrom(c, m, h, vaddr, a, levels, i, table)
      {
        var sh := LevelShift(levels, i);
        var q := ReadPte(table + IndexAt(vaddr, sh) * 8);
        if q.None? { return AccessFault; }
        var pte := LoadWord(host[..], q.value);
        if pte % 2 == 0 { return PageFault; }
        if pte / 2 % 8 != 0 {
          SameLeaf(m, pte, a, levels - 1 - i);
          if !LeafOk(Context(priv, mprv, mpp, sum, mxr, satp, []), pte, a, levels - 1 - i) { return PageFault; }
          return Phys(Join(NextTable(pte), vaddr, sh));
        }
        table := NextTable(pte);
        i := i + 1;
      }
      return PageFault;
    }

    // ----- data accesses -----

    // The slow path up to the map lookup.
    method ResolveAccess(x: nat, size: nat, a: Access) returns (r: Outcome)
      requires Valid() && size in {1, 2, 4, 8}
      ensures r == Resolve(c, Ctx(), host[..], x, size, a)
    {
      hide Walk, PmpOk, FindRange;
      var t := GetPhysAddr(x, a);
      if t == PageFault { return Faulted(true); }
      if t == AccessFault { return Faulted(false); }
      var ok := CheckPmp(t.paddr, size, a);
      if !ok { return Faulted(false); }
      var pr := GetRange(t.paddr);
      if pr.None? || !pr.value.ram { return Elsewhere(t.paddr); }
      return Ram(t.paddr, pr.value.phys + (t.paddr - pr.value.addr));
    }

    /** target_read_u8..64 with riscv_cpu_read_memory: None for a misaligned address. */
    method Read(x: nat, size: nat) returns (r: Option<Outcome>, val: nat)
      requires Valid() && size in {1, 2, 4, 8}
      modifies rd
      ensures Valid() && View() == After(c, old(View()), DataLoad(x, size))
      ensures r.None? <==> x % size != 0
      ensures r.Some? ==> r.value == Path(c, old(View()), x, size, Load)
      ensures r.Some? && r.value.Ram? ==> val == BytesAt(old(host[..]), r.value.ptr, size)
    {
      hide Resolve, PageOf, SlotOf, Wf, Unpacked, BytesAt;
      if x % size != 0 { return None, 0; }
      var i := SlotOf(x);
      if TagHit(rd[i], x, size) {
        var o := Ram(rd[i].paddrAddend + x, rd[i].memAddend + x);
        return Some(o), BytesAt(host[..], o.ptr, size);
      }
      var o := ResolveAccess(x, size, Load);
      if !o.Ram? { return Some(o), 0; }
      rd[i] := Entry(PageOf(x), o.ptr - x, o.paddr - x);
      return Some(o), BytesAt(host[..], o.ptr, size);
    }

    method Poke(p: int, bs: seq<nat>)
      modifies host
      ensures host[..] == Written(old(host[..]), p, bs)
    {
      if 0 <= p && p + |bs| <= host.Length {
        forall j | 0 <= j < |bs| { host[p + j] := bs[j]; }
        assert host[p..p + |bs|] == bs;
        assert host[..] == host[..p] + host[p..p + |bs|] + host[p + |bs|..];
      }
    }

    /** target_write_u8..64 with riscv_cpu_write_memory. */
    method Write(x: nat, size: nat, val: nat) returns (r: Option<Outcome>)
      requires Valid() && size in {1, 2, 4, 8}
      modifies wr, host
      ensures Valid() && View() == After(c, old(View()), DataStore(x, size, val))
      ensures r.None? <==> x % size != 0
      ensures r.Some? ==> r.value == Path(c, old(View()), x, size, Store)
    {
      hide Resolve, PageOf, SlotOf, Written, LE.Store, Wf, Unpacked;
      if x % size != 0 { return None; }
      var i := SlotOf(x);
      if TagHit(wr[i], x, size) {
        var o := Ram(wr[i].paddrAddend + x, wr[i].memAddend + x);
        Poke(o.ptr, LE.Store(val, size));
        return Some(o);
      }
      var o := ResolveAccess(x, size, Store);
      if !o.Ram? { return Some(o); }
      wr[i] := Entry(PageOf(x), o.ptr - x, o.paddr - x);
      Poke(o.ptr, LE.Store(val, size));
      return Some(o);
    }

    // ----- control state -----

    /** set_mstatus, the fields that translation looks at and the guard of satp */
    method SetMstatus(newMprv: bool, newMpp: nat, newSum: bool, newMxr: bool, newTvm: bool)
      requires Valid()
      modifies this`mprv, this`mpp, this`sum, this`mxr, this`tvm, rd, wr
      ensures Valid() && tvm == newTvm && mprv == newMprv && mpp == newMpp && sum == newSum && mxr == newMxr
      ensures View() == After(c, old(View()), Event.SetMstatus(newMprv, newMpp, newSum, newMxr))
    {
      hide Flushed, Wf, Unpacked, Valid, View, Ctx;
      CtxOf();
      if newMprv != mprv || newSum != sum || newMxr != mxr || (mprv && newMpp != mpp) { TlbFlushAll(); }
      SetFields(newMprv, newMpp, newSum, newMxr, newTvm);
    }

    lemma CtxOf()
      requires Valid()
      ensures pmp.n <= pmp.list.Length && rd.Length == TLB_SIZE && wr.Length == TLB_SIZE
      ensures View().ctx == Context(priv, mprv, mpp, sum, mxr, satp, pmp.list[..pmp.n]) && Shape(View())
    {
      hide Wf, Unpacked;
    }

    method SetFields(newMprv: bool, newMpp: nat, newSum: bool, newMxr: bool, newTvm: bool)
      requires Valid()
      modifies this`mprv, this`mpp, this`sum, this`mxr, this`tvm
      ensures Valid() && tvm == newTvm && mprv == newMprv && mpp == newMpp && sum == newSum && mxr == newMxr
      ensures var ctx := old(View()).ctx.(mprv := newMprv, mpp := newMpp, sum := newSum, mxr := newMxr);
              View() == old(View()).(ctx := ctx)
    {
      hide Wf, Unpacked;
      mprv, mpp, sum, mxr, tvm := newMprv, newMpp, newSum, newMxr, newTvm;
    }

    /** the satp case of csr_write */
    method WriteSatp(val: nat) returns (ok: bool)
      requires Valid()
      modifies this`satp, rd, wr
      ensures Valid() && (ok <==> !(priv == PRV_S && tvm))
      ensures View() == if ok then After(c, old(View()), SetSatp(val)) else old(View())
      ensures if ok && val / P2(60) % 16 in {0, 8, 9}
              then satp / P2(60) == val / P2(60) % 16 && satp / P2(44) % P2(16) == 0 && satp % P2(44) == val % P2(44)
              else satp == old(satp)
    {
      hide Flushed, Wf, Unpacked, LegalSatp, P2;
      SatpTaken(satp, val);
      if priv == PRV_S && tvm { return false; }
      ok := true;
      satp := LegalSatp(satp, val);
      TlbFlushAll();
    }

    /** set_priv */
    method SetPriv(p: nat)
      requires Valid()
      modifies this`priv, rd, wr
      ensures Valid() && priv == p && View() == After(c, old(View()), Event.SetPriv(p))
    {
      hide Flushed, Wf, Unpacked;
      if priv != p {
        TlbFlushAll();
        priv := p;
      }
    }

    /** the part of raise_exception2 for a trap to machine mode */
    method TrapToMachine()
      requires Valid()
      modifies this`mpp, this`priv, rd, wr
      ensures Valid() && mpp == old(priv) && priv == 3 && View() == After(c, old(View()), TrapToM)
    {
      hide Flushed, Wf, Unpacked;
      mpp := priv;
      SetPriv(PRV_M);
    }

    /** handle_mret */
    method Mret()
      requires Valid()
      modifies this`mpp, this`priv, rd, wr
      ensures Valid() && priv == old(mpp) && mpp == 0 && View() == After(c, old(View()), ReturnFromM)
    {
      hide Flushed, Wf, Unpacked;
      var p := mpp;
      mpp := 0;
      SetPriv(p);
    }

    /** a write to pmpcfg0 or pmpcfg2: unpacking flushes, an ignored write does nothing */
    method WritePmpCfg(k: nat, val: nat)
      requires Valid() && (k == 0 || k == 2)
      modifies rd, wr, pmp, pmp.list, pmp.csrCfg
      ensures Valid() && pmp.Regs() == Apply(old(pmp.Regs()), CfgWrite(k, val))
      ensures View() == if k == 2 then old(View()) else After(c, old(View()), SetPmp(pmp.list[..pmp.n]))
    {
      hide P2, Byte, CfgWord, Unpacked, Wf;
      pmp.WriteCfg(k, val);
      if k < 2 { TlbFlushAll(); }
    }

    /** a write to pmpaddr0..15 */
    method WritePmpAddr(k: nat, val: nat)
      requires Valid() && k < ENTRIES
      modifies rd, wr, pmp, pmp.list, pmp.csrAddr
      ensures Valid() && pmp.Regs() == Apply(old(pmp.Regs()), AddrWrite(k, val))
      ensures View() == old(View()) || View() == After(c, old(View()), SetPmp(pmp.list[..pmp.n]))
      ensures pmp.Regs() != old(pmp.Regs()) ==> View() == After(c, old(View()), SetPmp(pmp.list[..pmp.n]))
    {
      hide P2, Byte, CfgWord, Unpacked, Wf, Apply;
      var unpacked := pmp.WriteAddr(k, val);
      if unpacked { TlbFlushAll(); }
    }
  }

  lemma SatpOnly(m: Context)
    ensures SatpMode(m) == SatpMode(m.(pmp := [])) && Root(m) == Root(m.(pmp := []))
  {}

  lemma SameLeaf(m: Context, pte: nat, a: Access, level: nat)
    ensures LeafOk(m, pte, a, level) == LeafOk(m.(pmp := []), pte, a, level)
  {
    hide P2, Bit;
  }
}
