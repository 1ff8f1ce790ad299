// What the page-table walk of src/riscv_cpu.cpp means, read off the entries themselves: their bits are
// those of section 4.4 of RISC-V Privileged v1.11.
module Translation {
  import opened Basics
  import opened Powers
  import opened Pmp
  import opened Mmu
  import LE = LittleEndian

  // ----- reading an entry -----

  // Range i is the last one that holds the address.
  ghost predicate LastHolds(rs: seq<Range>, i: int, pa: nat) {
    && 0 <= i < |rs| && rs[i].addr <= pa < rs[i].addr + rs[i].size
    && forall j :: i < j < |rs| ==> !(rs[j].addr <= pa < rs[j].addr + rs[j].size)
  }

  lemma {:induction false} FindRangeIff(rs: seq<Range>, pa: nat, r: Range)
    ensures FindRange(rs, pa) == Some(r) <==> exists i :: LastHolds(rs, i, pa) && rs[i] == r
  {
    if rs != [] {
      var pre, n := rs[..|rs| - 1], |rs| - 1;
      FindRangeIff(pre, pa, r);
      if rs[n].addr <= pa < rs[n].addr + rs[n].size {
        assert LastHolds(rs, n, pa);
      } else {
        forall i ensures LastHolds(rs, i, pa) <==> LastHolds(pre, i, pa) {
          if LastHolds(pre, i, pa) {
            forall j | i < j < |rs| ensures !(rs[j].addr <= pa < rs[j].addr + rs[j].size) {
              assert j < n ==> pre[j] == rs[j];
            }
          }
          if LastHolds(rs, i, pa) { assert forall j :: i < j < n ==> pre[j] == rs[j]; }
        }
      }
    }
  }

  // The eight bytes at q, lowest first.
  function EightBytes(host: seq<nat>, q: nat): nat
    requires q + 8 <= |host|
  {
    host[q] + 0x100 * host[q + 1] + 0x1_0000 * host[q + 2] + 0x100_0000 * host[q + 3]
    + 0x1_0000_0000 * host[q + 4] + 0x100_0000_0000 * host[q + 5] + 0x1_0000_0000_0000 * host[q + 6]
    + 0x100_0000_0000_0000 * host[q + 7]
  }

  // Where in host memory the hart reads eight bytes of physical memory.
  ghost predicate ReadsAt(c: Platform, m: Context, pa: nat, q: nat) {
    && PmpOk(c, m, pa, 8, Load)
    && exists i :: LastHolds(c.ranges, i, pa) && c.ranges[i].ram && q == c.ranges[i].phys + (pa - c.ranges[i].addr)
  }

  ghost predicate Unreadable(c: Platform, m: Context, pa: nat) { forall q :: !ReadsAt(c, m, pa, q) }

  // The entry read there.
  ghost predicate EntryAt(c: Platform, m: Context, host: seq<nat>, pa: nat, e: nat) {
    exists q: nat :: ReadsAt(c, m, pa, q) && e == if q + 8 <= |host| then EightBytes(host, q) else 0
  }

  lemma ReadsIff(c: Platform, m: Context, pa: nat, q: nat)
    ensures PteAt(c, m, pa) == Some(q) <==> ReadsAt(c, m, pa, q)
  {
    hide PmpOk, FindRange;
    var f := FindRange(c.ranges, pa);
    if f.Some? { FindRangeIff(c.ranges, pa, f.value); Holder(c.ranges, pa); }
    forall i | LastHolds(c.ranges, i, pa) ensures f == Some(c.ranges[i]) {
      FindRangeIff(c.ranges, pa, c.ranges[i]);
    }
  }

  lemma Holder(rs: seq<Range>, pa: nat)
    ensures FindRange(rs, pa).Some? ==> FindRange(rs, pa).value.addr <= pa
  {
    FoundRange(rs, pa);
  }

  lemma WordIs(host: seq<nat>, q: nat)
    ensures LoadWord(host, q) == if q + 8 <= |host| then EightBytes(host, q) else 0
  {
    if q + 8 <= |host| { LE.Eight(host[q..q + 8]); }
  }

  lemma EntryIff(c: Platform, m: Context, host: seq<nat>, pa: nat, e: nat)
    ensures EntryAt(c, m, host, pa, e) <==> PteAt(c, m, pa).Some? && LoadWord(host, PteAt(c, m, pa).value) == e
  {
    hide ReadsAt, PteAt, LoadWord, EightBytes;
    var at := PteAt(c, m, pa);
    if at.Some? { ReadsIff(c, m, pa, at.value); WordIs(host, at.value); }
    if EntryAt(c, m, host, pa, e) {
      var q: nat :| ReadsAt(c, m, pa, q) && e == if q + 8 <= |host| then EightBytes(host, q) else 0;
      ReadsIff(c, m, pa, q);
      WordIs(host, q);
    }
  }

  // ----- the bits of an entry -----

  // V set; R, W and X clear.
  ghost predicate Leads(e: nat) { e % 2 == 1 && e / 2 % 2 == 0 && e / 4 % 2 == 0 && e / 8 % 2 == 0 }

  // V and A set, R or X set, W only with R; R, or X under MXR, for a load, W and D for a store, X for a
  // fetch; U as privilege and SUM demand; `above` low bits of the page number clear.
  ghost predicate Grants(m: Context, e: nat, a: Access, above: nat) {
    && e % 2 == 1 && e / 64 % 2 == 1
    && (e / 2 % 2 == 1 || e / 8 % 2 == 1) && (e / 4 % 2 == 1 ==> e / 2 % 2 == 1)
    && (match a
        case Load => e / 2 % 2 == 1 || (m.mxr && e / 8 % 2 == 1)
        case Store => e / 4 % 2 == 1 && e / 128 % 2 == 1
        case Execute => e / 8 % 2 == 1)
    && (if Privilege(m, a) == 1 then e / 16 % 2 == 0 || m.sum else e / 16 % 2 == 1)
    && e / 1024 % P2(above) == 0
  }

  function Privilege(m: Context, a: Access): nat { if m.mprv && a != Execute then m.mpp else m.priv }

  lemma LeadsIff(e: nat)
    ensures Leads(e) <==> e % 2 == 1 && e / 2 % 8 == 0
  {
    ThreeBits(e);
  }

  // R, W and X as one field.
  lemma ThreeBits(e: nat)
    ensures e / 2 % 8 == e / 2 % 2 + 2 * (e / 4 % 2) + 4 * (e / 8 % 2)
  {
    DivDiv(e, 2, 2);
    DivDiv(e, 2, 4);
    DivDiv(e / 2, 2, 2);
    HalfMod(e / 2, 4);
    HalfMod(e / 4, 2);
  }

  lemma HalfMod(x: nat, n: pos)
    ensures x % (2 * n) == x % 2 + 2 * (x / 2 % n)
  {
    var h := x / 2;
    DivMod(h, n);
    assert h / n * n * 2 == h / n * (2 * n) by { Assoc(h / n, n, 2); }
    DivUnique(x, 2 * n, h / n, x % 2 + 2 * (h % n));
  }

  lemma SmallBits()
    ensures P2(1) == 2 && P2(2) == 4 && P2(3) == 8 && P2(4) == 16 && P2(6) == 64 && P2(7) == 128
  {
    P2Small();
    P2Add(2, 2);
    P2Add(4, 2);
    P2Add(6, 1);
  }

  lemma GrantsIff(m: Context, e: nat, a: Access, above: nat)
    requires above <= 32 && e % 2 == 1 && e / 2 % 8 != 0
    ensures Grants(m, e, a, above) <==> LeafOk(m, e, a, above)
  {
    hide P2;
    SmallBits();
    ThreeBits(e);
    LowerBits(e / 1024, above);
  }

  lemma LowerBits(x: nat, k: nat)
    requires k <= 32
    ensures x % P2(32) % P2(k) == x % P2(k)
  {
    hide P2;
    P2Add(k, 32 - k);
    var p, r := P2(k), P2(32 - k);
    DivMod(x, p * r);
    DivMod(x % (p * r), p);
    var q, y := x / (p * r), x % (p * r);
    Assoc(q, p, r);
    assert q * (p * r) == q * r * p by { Assoc(q, r, p); }
    Distribute(q * r, y / p, p);
    DivUnique(x, p, q * r + y / p, y % p);
  }

  // ----- chains of entries -----

  // The index of a virtual address in a table k levels above the last.
  function Field(va: nat, k: nat): nat { DivMod(va, P2(12 + 9 * k)); va / P2(12 + 9 * k) % 512 }

  // The first byte of the page an entry names.
  function PageBase(e: nat): nat { e / 1024 * 4096 % WORD }

  /** es are the entries a walk meets from a table with k levels below it: each in the table the one
      before leads to, at the index of the address, and only the last is not a pointer. */
  ghost predicate Chain(c: Platform, m: Context, host: seq<nat>, va: nat, table: nat, k: nat, es: seq<nat>)
    decreases k
  {
    && k > 0 && es != [] && EntryAt(c, m, host, table + Field(va, k - 1) * 8, es[0])
    && (|es| > 1 ==> Leads(es[0]) && Chain(c, m, host, va, PageBase(es[0]), k - 1, es[1..]))
  }

  // The chain of pointers es ends at an entry that cannot be read.
  ghost predicate Stuck(c: Platform, m: Context, host: seq<nat>, va: nat, table: nat, k: nat, es: seq<nat>)
    decreases k
  {
    && k > 0
    && if es == [] then Unreadable(c, m, table + Field(va, k - 1) * 8)
       else EntryAt(c, m, host, table + Field(va, k - 1) * 8, es[0]) && Leads(es[0])
            && Stuck(c, m, host, va, PageBase(es[0]), k - 1, es[1..])
  }

  // The address a chain leads to: the page of its last entry, which spans all levels below, and the offset.
  ghost predicate LeadsTo(m: Context, va: nat, a: Access, k: nat, es: seq<nat>, pa: nat)
    requires 0 < |es| <= k
  {
    var e, span := es[|es| - 1], P2(12 + 9 * (k - |es|));
    Grants(m, e, a, k - |es|) && pa == PageBase(e) / span * span + va % span
  }

  // The bits above the translated ones repeat the highest of these.
  ghost predicate SignExtended(va: nat, levels: nat) {
    va < P2(11 + 9 * levels) || va + P2(11 + 9 * levels) >= WORD
  }

  lemma ChainLength(c: Platform, m: Context, host: seq<nat>, va: nat, table: nat, k: nat, es: seq<nat>)
    requires Chain(c, m, host, va, table, k, es)
    ensures 0 < |es| <= k
    decreases k
  {
    hide EntryAt, Field, PageBase, Leads;
    if |es| > 1 { ChainLength(c, m, host, va, PageBase(es[0]), k - 1, es[1..]); }
  }

  ghost predicate Reaches(c: Platform, m: Context, host: seq<nat>, va: nat, a: Access, table: nat, k: nat,
                          es: seq<nat>, pa: nat)
  {
    Chain(c, m, host, va, table, k, es) && 0 < |es| <= k && LeadsTo(m, va, a, k, es, pa)
  }

  lemma SameStep(va: nat, levels: nat, i: nat, pte: nat)
    requires i < levels
    ensures var k := levels - i;
      LevelShift(levels, i) == 12 + 9 * (k - 1) && IndexAt(va, LevelShift(levels, i)) == Field(va, k - 1)
    ensures NextTable(pte) == PageBase(pte)
  {}

  // The entry at pa is e and no other.
  ghost predicate Only(c: Platform, m: Context, host: seq<nat>, pa: nat, e: nat) {
    forall x :: EntryAt(c, m, host, pa, x) <==> x == e
  }

  // Some chain of entries from the table reaches pa.
  ghost predicate Reachable(c: Platform, m: Context, host: seq<nat>, va: nat, a: Access, table: nat, k: nat, pa: nat) {
    exists es :: Reaches(c, m, host, va, a, table, k, es, pa)
  }

  // Some chain of pointers from the table ends at an entry that cannot be read.
  ghost predicate Blocked(c: Platform, m: Context, host: seq<nat>, va: nat, table: nat, k: nat) {
    exists es :: Stuck(c, m, host, va, table, k, es)
  }

  // One entry more or the end.
  lemma ReachStep(c: Platform, m: Context, host: seq<nat>, va: nat, a: Access, table: nat, k: nat, e: nat, pa: nat)
    requires k > 0 && Only(c, m, host, table + Field(va, k - 1) * 8, e)
    ensures Reachable(c, m, host, va, a, table, k, pa) <==>
            LeadsTo(m, va, a, k, [e], pa) || (Leads(e) && Reachable(c, m, host, va, a, PageBase(e), k - 1, pa))
  {
    hide EntryAt, Field, PageBase, Leads, Grants, P2;
    if es :| Reaches(c, m, host, va, a, table, k, es, pa) {
      assert es[0] == e;
      if |es| == 1 {
        assert es == [e];
      } else {
        assert es[1..][|es| - 2] == es[|es| - 1];
        assert Reaches(c, m, host, va, a, PageBase(e), k - 1, es[1..], pa);
      }
    }
    if LeadsTo(m, va, a, k, [e], pa) { assert Reaches(c, m, host, va, a, table, k, [e], pa); }
    var base, k' := PageBase(e), k - 1;
    if Leads(e) && Reachable(c, m, host, va, a, base, k', pa) {
      var es :| Reaches(c, m, host, va, a, base, k', es, pa);
      var more := [e] + es;
      assert more[1..] == es && more[|more| - 1] == es[|es| - 1];
      assert Reaches(c, m, host, va, a, table, k, more, pa);
    }
  }

  /** The walk below a table succeeds with pa exactly if some chain reaches it. */
  lemma {:induction false} WalkFromPhys(c: Platform, m: Context, host: seq<nat>, va: nat, a: Access, levels: nat,
                                        i: nat, table: nat, pa: nat)
    requires i <= levels <= 32
    ensures WalkFrom(c, m, host, va, a, levels, i, table) == Phys(pa)
            <==> Reachable(c, m, host, va, a, table, levels - i, pa)
    decreases levels - i
  {
    hide EntryAt, Field, PageBase, Leads, Grants, PteAt, LoadWord, LeafOk, NextTable, IndexAt, Join, P2, LevelShift,
         Only;
    if i < levels {
      var k := levels - i;
      var here := table + Field(va, k - 1) * 8;
      SameStep(va, levels, i, 0);
      var at := PteAt(c, m, here);
      if at.Some? {
        var pte := LoadWord(host, at.value);
        OnlyOne(c, m, host, here);
        SameStep(va, levels, i, pte);
        ReachStep(c, m, host, va, a, table, k, pte, pa);
        LeadsIff(pte);
        JoinIs(pte, va, k - 1);
        if pte % 2 == 1 && pte / 2 % 8 != 0 {
          GrantsIff(m, pte, a, k - 1);
        } else {
          NoGrant(m, pte, a, k - 1);
        }
        if Leads(pte) { WalkFromPhys(c, m, host, va, a, levels, i + 1, PageBase(pte), pa); }
      } else {
        NoEntry(c, m, host, va, table, k);
      }
    }
  }

  lemma OnlyOne(c: Platform, m: Context, host: seq<nat>, pa: nat)
    requires PteAt(c, m, pa).Some?
    ensures Only(c, m, host, pa, LoadWord(host, PteAt(c, m, pa).value))
  {
    hide EntryAt, PteAt, LoadWord;
    forall x ensures EntryAt(c, m, host, pa, x) <==> x == LoadWord(host, PteAt(c, m, pa).value) {
      EntryIff(c, m, host, pa, x);
    }
  }

  lemma NoEntry(c: Platform, m: Context, host: seq<nat>, va: nat, table: nat, k: nat)
    requires k > 0 && PteAt(c, m, table + Field(va, k - 1) * 8).None?
    ensures forall es :: !Chain(c, m, host, va, table, k, es)
    ensures Unreadable(c, m, table + Field(va, k - 1) * 8)
  {
    hide EntryAt, Field, PteAt, LoadWord, ReadsAt, PageBase, Leads;
    var here := table + Field(va, k - 1) * 8;
    forall es ensures !Chain(c, m, host, va, table, k, es) {
      if es != [] { EntryIff(c, m, host, here, es[0]); }
    }
    forall q ensures !ReadsAt(c, m, here, q) { ReadsIff(c, m, here, q); }
  }

  lemma NoGrant(m: Context, e: nat, a: Access, above: nat)
    requires e % 2 == 0 || e / 2 % 8 == 0
    ensures !Grants(m, e, a, above)
  {
    ThreeBits(e);
  }

  lemma JoinIs(e: nat, va: nat, k: nat)
    ensures Join(NextTable(e), va, 12 + 9 * k)
            == PageBase(e) / P2(12 + 9 * k) * P2(12 + 9 * k) + va % P2(12 + 9 * k)
  {}

  // ----- the whole walk -----

  lemma CanonicalIff(va: nat, levels: nat)
    requires va < WORD
    ensures Canonical(va, levels) <==> SignExtended(va, levels)
  {
    hide P2;
    var h := 11 + 9 * levels;
    WordBits();
    DivMod(va, P2(h));
    if h <= 64 {
      P2Add(h, 64 - h);
      var p, r := P2(h), P2(64 - h);
      TopBlock(va, p, r);
    } else {
      P2Mono(64, h);
      DivUnique(va, P2(h), 0, va);
    }
  }

  // va lies in the last of r blocks of p.
  lemma TopBlock(va: nat, p: pos, r: pos)
    requires va < p * r
    ensures va / p == r - 1 <==> va + p >= p * r
    ensures va / p == 0 <==> va < p
  {
    DivMod(va, p);
    Distribute(r, -1, p);
    if va + p >= p * r { DivGe(va, p, r - 1); DivLt(va, p, r); }
  }

  // The translation mode and the first table in satp.
  function ModeOf(satp: nat): nat { satp / 0x1000_0000_0000_0000 % 16 }

  function FirstTable(satp: nat): nat { satp % 0x1000_0000_0000 * 4096 }

  lemma SatpFields(m: Context)
    ensures SatpMode(m) == ModeOf(m.satp) && Root(m) == FirstTable(m.satp)
  {
    hide P2;
    WordBits();
    P2Add(60, 4);
    P2Add(44, 16);
    P2Small();
    P2Add(4, 4);
    P2Add(8, 8);
  }

  /** Below machine mode and with paging on, an address translates to pa exactly if it is sign-extended and
      a chain of entries from the table in satp reaches pa. */
  lemma WalkIff(c: Platform, m: Context, host: seq<nat>, va: nat, a: Access, pa: nat)
    requires va < WORD && Privilege(m, a) != 3 && ModeOf(m.satp) >= 8
    ensures var levels := ModeOf(m.satp) - 5;
      Walk(c, m, host, va, a) == Phys(pa) <==>
      SignExtended(va, levels) && Reachable(c, m, host, va, a, FirstTable(m.satp), levels, pa)
  {
    hide P2, WalkFrom, Reachable, Canonical, SignExtended, Root, SatpMode, ModeOf, FirstTable;
    SatpFields(m);
    ModeSmall(m.satp);
    var levels := ModeOf(m.satp) - 5;
    CanonicalIff(va, levels);
    WalkFromPhys(c, m, host, va, a, levels, 0, Root(m), pa);
  }

  lemma ModeSmall(satp: nat)
    ensures ModeOf(satp) < 16
  {}

  /** It is an access fault exactly if a chain of pointers ends at an entry that cannot be read; everything
      else is a page fault. */
  lemma AccessFaultIff(c: Platform, m: Context, host: seq<nat>, va: nat, a: Access)
    requires va < WORD && Privilege(m, a) != 3 && ModeOf(m.satp) >= 8
    ensures var levels := ModeOf(m.satp) - 5;
      Walk(c, m, host, va, a) == AccessFault <==>
      SignExtended(va, levels) && Blocked(c, m, host, va, FirstTable(m.satp), levels)
  {
    hide P2, WalkFrom, Blocked, Canonical, SignExtended, Root, SatpMode, ModeOf, FirstTable;
    SatpFields(m);
    var levels := ModeOf(m.satp) - 5;
    CanonicalIff(va, levels);
    WalkFromStuck(c, m, host, va, a, levels, 0, Root(m));
  }

  lemma {:induction false} WalkFromStuck(c: Platform, m: Context, host: seq<nat>, va: nat, a: Access, levels: nat,
                                         i: nat, table: nat)
    requires i <= levels
    ensures WalkFrom(c, m, host, va, a, levels, i, table) == AccessFault
            <==> Blocked(c, m, host, va, table, levels - i)
    decreases levels - i
  {
    hide EntryAt, ReadsAt, Field, PageBase, Leads, PteAt, LoadWord, LeafOk, NextTable, IndexAt, Join, P2, LevelShift,
         Only;
    if i < levels {
      var k := levels - i;
      var here := table + Field(va, k - 1) * 8;
      SameStep(va, levels, i, 0);
      var at := PteAt(c, m, here);
      if at.Some? {
        var pte := LoadWord(host, at.value);
        OnlyOne(c, m, host, here);
        SameStep(va, levels, i, pte);
        ReadsIff(c, m, here, at.value);
        StuckStep(c, m, host, va, table, k, pte, at.value);
        LeadsIff(pte);
        if Leads(pte) { WalkFromStuck(c, m, host, va, a, levels, i + 1, PageBase(pte)); }
      } else {
        NoEntry(c, m, host, va, table, k);
        assert Stuck(c, m, host, va, table, k, []);
      }
    } else {
      forall es ensures !Stuck(c, m, host, va, table, 0, es) {}
    }
  }

  lemma StuckStep(c: Platform, m: Context, host: seq<nat>, va: nat, table: nat, k: nat, e: nat, q: nat)
    requires k > 0 && Only(c, m, host, table + Field(va, k - 1) * 8, e)
    requires ReadsAt(c, m, table + Field(va, k - 1) * 8, q)
    ensures Blocked(c, m, host, va, table, k) <==> Leads(e) && Blocked(c, m, host, va, PageBase(e), k - 1)
  {
    hide EntryAt, ReadsAt, Field, PageBase, Leads;
    if es :| Stuck(c, m, host, va, table, k, es) {
      assert es != [] && es[0] == e;
      assert Stuck(c, m, host, va, PageBase(e), k - 1, es[1..]);
    }
    var base, k' := PageBase(e), k - 1;
    if Leads(e) && Blocked(c, m, host, va, base, k') {
      var es :| Stuck(c, m, host, va, base, k', es);
      assert ([e] + es)[1..] == es;
      assert Stuck(c, m, host, va, table, k, [e] + es);
    }
  }

  /** In machine mode, and with paging off, an address is its own translation. */
  lemma BareWalk(c: Platform, m: Context, host: seq<nat>, va: nat, a: Access)
    requires Privilege(m, a) == 3 || ModeOf(m.satp) == 0
    ensures Walk(c, m, host, va, a) == Phys(va)
  {
    hide P2, WalkFrom, Canonical, Root, SatpMode, ModeOf;
    SatpFields(m);
  }

  // ----- the slow path -----

  ghost predicate Meets(r: Region, pa: nat, size: nat) { r.lo < pa + size && pa < r.hi }

  // Entry i of the list is the first that meets the access.
  ghost predicate FirstMeets(rs: seq<Region>, i: int, pa: nat, size: nat) {
    0 <= i < |rs| && Meets(rs[i], pa, size) && forall j :: 0 <= j < i ==> !Meets(rs[j], pa, size)
  }

  // Its R, W or X bit grants the access, or machine mode overrides an entry that is not locked.
  ghost predicate EntryGrants(cfg: nat, priv: nat, a: Access) {
    || (priv == 3 && cfg / 128 % 2 == 0)
    || (match a
        case Load => cfg % 2 == 1
        case Store => cfg / 2 % 2 == 1
        case Execute => cfg / 4 % 2 == 1)
  }

  ghost predicate Permitted(rs: seq<Region>, priv: nat, pa: nat, size: nat, a: Access) {
    || (exists i :: FirstMeets(rs, i, pa, size) && EntryGrants(rs[i].cfg, priv, a))
    || (priv == 3 && forall i :: 0 <= i < |rs| ==> !Meets(rs[i], pa, size))
  }

  /** The first entry that meets the access decides; with none, only machine mode may pass. */
  lemma PmpIff(rs: seq<Region>, priv: nat, addrLen: nat, pa: nat, size: nat, a: Access)
    requires size > 0
    ensures ListOk(rs, priv, addrLen, pa, size, a) <==> pa < P2(addrLen) && Permitted(rs, priv, pa, size, a)
  {
    hide P2;
    FirstHitIs(rs, pa, size);
    if i :| FirstMeets(rs, i, pa, size) {
      forall j | FirstMeets(rs, j, pa, size) ensures j == i {}
    }
  }

  lemma {:induction false} FirstHitIs(rs: seq<Region>, pa: nat, size: nat)
    requires size > 0
    ensures var f := FirstHit(rs, pa, size);
      if f.None? then forall i :: 0 <= i < |rs| ==> !Meets(rs[i], pa, size)
      else exists i :: FirstMeets(rs, i, pa, size) && rs[i] == f.value
  {
    if rs != [] {
      var pre, n := rs[..|rs| - 1], |rs| - 1;
      FirstHitIs(pre, pa, size);
      assert forall j :: 0 <= j < n ==> pre[j] == rs[j];
      if FirstHit(pre, pa, size).Some? {
        var i :| FirstMeets(pre, i, pa, size) && pre[i] == FirstHit(pre, pa, size).value;
        assert FirstMeets(rs, i, pa, size);
      } else if Meets(rs[n], pa, size) {
        assert FirstMeets(rs, n, pa, size);
      }
    }
  }

  // Physical address pa is byte p of host memory.
  ghost predicate RamByte(rs: seq<Range>, pa: nat, p: int) {
    exists i :: LastHolds(rs, i, pa) && rs[i].ram && p == rs[i].phys + (pa - rs[i].addr)
  }

  ghost predicate MayAccess(c: Platform, m: Context, pa: nat, size: nat, a: Access) {
    pa < P2(c.addrLen) && Permitted(m.pmp, Privilege(m, a), pa, size, a)
  }

  /** An access goes to RAM exactly if it translates, is permitted, and the last range that holds the address
      is RAM; it is a page fault, or an access fault, exactly for the reasons given. */
  lemma ResolveIff(c: Platform, m: Context, host: seq<nat>, va: nat, size: nat, a: Access, pa: nat, p: int)
    requires size > 0
    ensures var o, w := Resolve(c, m, host, va, size, a), Walk(c, m, host, va, a);
      && (o == Ram(pa, p) <==> w == Phys(pa) && MayAccess(c, m, pa, size, a) && RamByte(c.ranges, pa, p))
      && (o == Faulted(true) <==> w == PageFault)
      && (o == Faulted(false) <==> w == AccessFault || (w.Phys? && !MayAccess(c, m, w.paddr, size, a)))
  {
    hide Walk, P2, ListOk, Permitted, FindRange;
    var w := Walk(c, m, host, va, a);
    if w.Phys? {
      PmpIff(m.pmp, Privilege(m, a), c.addrLen, w.paddr, size, a);
      var f := FindRange(c.ranges, w.paddr);
      if f.Some? { FindRangeIff(c.ranges, w.paddr, f.value); Holder(c.ranges, w.paddr); }
      forall i | LastHolds(c.ranges, i, w.paddr) ensures f == Some(c.ranges[i]) {
        FindRangeIff(c.ranges, w.paddr, c.ranges[i]);
      }
    }
  }

  // ----- superpages -----

  /** The check for misaligned superpages looks at one bit of the page number per level, where all nine
      should be clear: it refuses exactly the misaligned leaves if and only if no low bit, or one of the
      first j, is set. */
  lemma SuperpageIff(m: Context, e: nat, a: Access, j: nat)
    requires j <= 4 && LeafOk(m, e % 1024, a, j) && e % 2 == 1 && e / 2 % 8 != 0
    ensures var aligned := e / 1024 % P2(9 * j) == 0;
      (LeafOk(m, e, a, j) <==> aligned) <==> aligned || e / 1024 % P2(j) != 0
  {
    hide P2, LeafOk, Grants;
    GrantsIff(m, e, a, j);
    LowBitsKept(e);
    GrantsIff(m, e % 1024, a, j);
    SameFlags(m, e, e % 1024, a, j);
    if e / 1024 % P2(9 * j) == 0 { AlignedPasses(e / 1024, j); }
  }

  lemma LowBitsKept(e: nat)
    ensures var f := e % 1024;
      && f % 2 == e % 2 && f / 2 % 2 == e / 2 % 2 && f / 4 % 2 == e / 4 % 2 && f / 8 % 2 == e / 8 % 2
      && f / 16 % 2 == e / 16 % 2 && f / 64 % 2 == e / 64 % 2 && f / 128 % 2 == e / 128 % 2
      && f / 2 % 8 == e / 2 % 8 && f / 1024 == 0
  {
    hide *;
    FieldKept(e, 1, 2, 512);
    FieldKept(e, 2, 2, 256);
    FieldKept(e, 4, 2, 128);
    FieldKept(e, 8, 2, 64);
    FieldKept(e, 16, 2, 32);
    FieldKept(e, 64, 2, 8);
    FieldKept(e, 128, 2, 4);
    FieldKept(e, 2, 8, 64);
  }

  lemma FieldKept(e: nat, d: pos, n: pos, r: pos)
    ensures e % (r * n * d) / d % n == e / d % n
  {
    var k := r * n * d;
    DivMod(e, k);
    var q, f := e / k, e % k;
    DivMod(f, d);
    var g := f / d;
    DivMod(g, n);
    Assoc(q, r * n, d);
    Assoc(q, r, n);
    Distribute(q * (r * n), g, d);
    DivUnique(e, d, q * (r * n) + g, f % d);
    Distribute(q * r, g / n, n);
    DivUnique(q * (r * n) + g, n, q * r + g / n, g % n);
  }

  lemma SameFlags(m: Context, e: nat, f: nat, a: Access, j: nat)
    requires f % 2 == e % 2 && f / 2 % 2 == e / 2 % 2 && f / 4 % 2 == e / 4 % 2 && f / 8 % 2 == e / 8 % 2
    requires f / 16 % 2 == e / 16 % 2 && f / 64 % 2 == e / 64 % 2 && f / 128 % 2 == e / 128 % 2 && f / 1024 == 0
    requires Grants(m, f, a, j)
    ensures Grants(m, e, a, j) <==> e / 1024 % P2(j) == 0
  {
    hide P2;
  }

  /** Page number 2^j in a leaf j levels up passes, and maps page 0. */
  lemma MisalignedPasses(m: Context, va: nat, a: Access, j: nat)
    requires 1 <= j <= 4 && Privilege(m, a) == 1
    ensures var e, span := P2(j) * 1024 + 0xCF, P2(12 + 9 * j);
      && LeafOk(m, e, a, j) && e / 1024 % P2(9 * j) != 0
      && PageBase(e) / span * span + va % span == va % span
  {
    hide P2, LeafOk, Grants;
    var p, e := P2(j), P2(j) * 1024 + 0xCF;
    PowerPage(j);
    DivUnique(e, 1024, p, 0xCF);
    PlainLeaf(m, a, j);
    LowBitsKept(e);
    SameFlags(m, e, 0xCF, a, j);
    GrantsIff(m, e, a, j);
    DivUnique(p * 4096, WORD, 0, p * 4096);
    DivUnique(p * 4096, P2(12 + 9 * j), 0, p * 4096);
  }

  lemma PlainLeaf(m: Context, a: Access, j: nat)
    requires Privilege(m, a) == 1
    ensures Grants(m, 0xCF, a, j)
  {
    hide P2;
    DivUnique(0, P2(j), 0, 0);
  }

  lemma PowerPage(j: nat)
    requires 1 <= j <= 4
    ensures P2(j) <= 16 && P2(j) % P2(j) == 0 && P2(j) % P2(9 * j) == P2(j) && P2(j) * 4096 < P2(12 + 9 * j)
  {
    hide P2;
    var p := P2(j);
    P2Small();
    P2Mono(j, 4);
    P2Add(j, 8 * j);
    P2Mono(1, 8 * j);
    P2Add(12, 9 * j);
    Pow12();
    MulMono(2, P2(8 * j), p);
    DivUnique(p, P2(9 * j), 0, p);
    DivUnique(p, p, 1, 0);
    MulMono(p + 1, P2(9 * j), 4096);
  }

  lemma AlignedPasses(ppn: nat, j: nat)
    requires ppn % P2(9 * j) == 0
    ensures ppn % P2(j) == 0
  {
    hide P2;
    P2Add(j, 8 * j);
    var q := ppn / P2(9 * j);
    DivMod(ppn, P2(9 * j));
    Assoc(q, P2(8 * j), P2(j));
    DivUnique(ppn, P2(j), q * P2(8 * j), 0);
  }
}
