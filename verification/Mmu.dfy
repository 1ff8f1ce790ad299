// Address translation of one hart (src/riscv_cpu.cpp): the page-table walk, the protection
// check and the physical map, and the data TLBs that stand in for them.
module Mmu {
  import opened Basics
  import opened Powers
  import opened Pmp
  import LE = LittleEndian

  const PAGE: nat := 4096
  const TLB_SIZE: nat := 256

  // A PhysMemoryRange; phys is where its bytes start in host memory when it is RAM.
  datatype Range = Range(addr: nat, size: nat, ram: bool, phys: nat)

  // What does not change while the hart runs.
  datatype Platform = Platform(ranges: seq<Range>, addrLen: nat)

  // What decides a translation besides memory.
  datatype Context = Context(priv: nat, mprv: bool, mpp: nat, sum: bool, mxr: bool, satp: nat, pmp: seq<Region>)

  // ----- physical memory -----

  // get_phys_mem_range: the last registered range that holds the address.
  function FindRange(rs: seq<Range>, paddr: nat): Option<Range> {
    if rs == [] then None
    else
      var r := rs[|rs| - 1];
      if r.addr <= paddr < r.addr + r.size then Some(r) else FindRange(rs[..|rs| - 1], paddr)
  }

  // Eight bytes of host memory.
  function LoadWord(host: seq<nat>, p: nat): nat {
    if p + 8 <= |host| then LE.Load(host[p..p + 8]) else 0
  }

  function PrivFor(m: Context, a: Access): nat { EffectivePriv(m.priv, m.mprv, m.mpp, a) }

  predicate PmpOk(c: Platform, m: Context, paddr: nat, size: nat, a: Access) {
    ListOk(m.pmp, PrivFor(m, a), c.addrLen, paddr, size, a)
  }

  // Where a page-table entry is read from, if it may be read.
  function PteAt(c: Platform, m: Context, paddr: nat): Option<nat> {
    if !PmpOk(c, m, paddr, 8, Load) then None
    else match FindRange(c.ranges, paddr)
      case None => None
      case Some(r) => if r.ram && r.addr <= paddr then Some(r.phys + (paddr - r.addr)) else None
  }

  // ----- the walk -----

  datatype Translation = PageFault | AccessFault | Phys(paddr: nat)

  predicate Bit(x: nat, i: nat) { x / P2(i) % 2 == 1 }

  // The checks on a leaf entry at `level` levels above the last.
  predicate LeafOk(m: Context, pte: nat, a: Access, level: nat) {
    var xwr := pte / 2 % 8;
    var priv := PrivFor(m, a);
    && xwr != 2 && xwr != 6
    && (if priv == PRV_S then !Bit(pte, 4) || m.sum else Bit(pte, 4))
    && (match a
        case Load => Bit(pte, 1) || (m.mxr && Bit(pte, 3))
        case Store => Bit(pte, 2)
        case Execute => Bit(pte, 3))
    && pte / 1024 % P2(32) % P2(level) == 0
    && Bit(pte, 6) && (a == Store ==> Bit(pte, 7))
  }

  function LevelShift(levels: nat, i: nat): nat
    requires i < levels
  {
    12 + 9 * (levels - 1 - i)
  }

  function NextTable(pte: nat): nat { DivMod(pte, 1024); pte / 1024 * 4096 % WORD }

  // The page-table index of a virtual address at a level.
  function IndexAt(vaddr: nat, sh: nat): nat { DivMod(vaddr, P2(sh)); vaddr / P2(sh) % 512 }

  // The frame of a leaf with the offset of the address in the page it maps.
  function Join(frame: nat, vaddr: nat, sh: nat): nat {
    DivMod(frame, P2(sh));
    DivMod(vaddr, P2(sh));
    frame / P2(sh) * P2(sh) + vaddr % P2(sh)
  }

  function WalkFrom(c: Platform, m: Context, host: seq<nat>, vaddr: nat, a: Access, levels: nat, i: nat,
                    table: nat): Translation
    decreases levels - i
  {
    if i >= levels then PageFault
    else
      var sh := LevelShift(levels, i);
      match PteAt(c, m, table + IndexAt(vaddr, sh) * 8)
      case None => AccessFault
      case Some(q) =>
        var pte := LoadWord(host, q);
        if pte % 2 == 0 then PageFault
        else if pte / 2 % 8 == 0 then WalkFrom(c, m, host, vaddr, a, levels, i + 1, NextTable(pte))
        else if LeafOk(m, pte, a, levels - 1 - i) then Phys(Join(NextTable(pte), vaddr, sh))
        else PageFault
  }

  // The upper bits of a virtual address repeat its sign bit.
  predicate Canonical(vaddr: nat, levels: nat) {
    var t := vaddr / P2(11 + 9 * levels);
    t == 0 || (9 * levels <= 53 && t == P2(53 - 9 * levels) - 1)
  }

  function Root(m: Context): nat { DivMod(m.satp, P2(44)); m.satp % P2(44) * 4096 }

  function SatpMode(m: Context): nat { DivMod(m.satp, P2(60)); m.satp / P2(60) % 16 }

  /** riscv_cpu_get_phys_addr */
  function Walk(c: Platform, m: Context, host: seq<nat>, vaddr: nat, a: Access): Translation {
    if PrivFor(m, a) == PRV_M || SatpMode(m) == 0 then Phys(vaddr)
    else
      var levels := if SatpMode(m) >= 5 then SatpMode(m) - 5 else 0;
      if !Canonical(vaddr, levels) then PageFault
      else WalkFrom(c, m, host, vaddr, a, levels, 0, Root(m))
  }

  // ----- the slow path -----

  datatype Outcome = Faulted(pageFault: bool) | Ram(paddr: int, ptr: int) | Elsewhere(paddr: int)

  /** Translation, protection check and map lookup of an aligned access. */
  function Resolve(c: Platform, m: Context, host: seq<nat>, vaddr: nat, size: nat, a: Access): Outcome {
    match Walk(c, m, host, vaddr, a)
    case PageFault => Faulted(true)
    case AccessFault => Faulted(false)
    case Phys(paddr) =>
      if !PmpOk(c, m, paddr, size, a) then Faulted(false)
      else match FindRange(c.ranges, paddr)
        case Some(r) => if r.ram then Ram(paddr, r.phys + (paddr - r.addr)) else Elsewhere(paddr)
        case None => Elsewhere(paddr)
  }

  // Every RAM range lies in a host memory of n bytes.
  ghost predicate Fits(c: Platform, n: nat) {
    forall r :: r in c.ranges && r.ram ==> r.phys + r.size <= n
  }

  lemma {:induction false} FoundRange(rs: seq<Range>, p: nat)
    ensures var f := FindRange(rs, p); f.Some? ==> f.value in rs && f.value.addr <= p < f.value.addr + f.value.size
  {
    if rs != [] { FoundRange(rs[..|rs| - 1], p); }
  }

  // ----- one page, one answer -----

  ghost predicate Aligned(c: Platform) {
    c.addrLen >= 12 && forall r :: r in c.ranges ==> r.addr % PAGE == 0 && r.size % PAGE == 0
  }

  ghost predicate PmpAligned(rs: seq<Region>) {
    forall r :: r in rs ==> r.lo % PAGE == 0 && r.hi % PAGE == 0
  }

  predicate SamePage(x: nat, y: nat) { x / PAGE == y / PAGE }

  // An access that stays inside its page.
  predicate Inside(x: nat, size: nat) { size > 0 && x % PAGE + size <= PAGE }

  lemma {:induction false} HitByPage(rs: seq<Region>, x: nat, sx: nat, y: nat, sy: nat)
    requires PmpAligned(rs) && SamePage(x, y) && Inside(x, sx) && Inside(y, sy)
    ensures FirstHit(rs, x, sx) == FirstHit(rs, y, sy)
  {
    if rs != [] {
      HitByPage(rs[..|rs| - 1], x, sx, y, sy);
      var r := rs[|rs| - 1];
      assert r in rs;
    }
  }

  lemma {:induction false} RangeByPage(rs: seq<Range>, x: nat, y: nat)
    requires (forall r :: r in rs ==> r.addr % PAGE == 0 && r.size % PAGE == 0) && SamePage(x, y)
    ensures FindRange(rs, x) == FindRange(rs, y)
  {
    if rs != [] {
      RangeByPage(rs[..|rs| - 1], x, y);
      var r := rs[|rs| - 1];
      assert r in rs;
    }
  }

  lemma PmpByPage(c: Platform, m: Context, x: nat, sx: nat, y: nat, sy: nat, a: Access)
    requires Aligned(c) && PmpAligned(m.pmp) && SamePage(x, y) && Inside(x, sx) && Inside(y, sy)
    ensures PmpOk(c, m, x, sx, a) == PmpOk(c, m, y, sy, a)
  {
    hide P2;
    HitByPage(m.pmp, x, sx, y, sy);
    P2Add(12, c.addrLen - 12);
    Pow12();
    var k := P2(c.addrLen - 12);
    assert P2(c.addrLen) == 4096 * k;
  }

  lemma Pow12()
    ensures P2(12) == 4096
  {
    P2Small();
    P2Add(4, 4);
    P2Add(8, 4);
  }

  // The walk reads the same entries for every address of a page, and keeps the page offset.
  lemma {:induction false} WalkFromByPage(c: Platform, m: Context, host: seq<nat>, x: nat, y: nat, a: Access,
                                          levels: nat, i: nat, table: nat)
    requires SamePage(x, y)
    ensures Shifted(WalkFrom(c, m, host, x, a, levels, i, table), x, WalkFrom(c, m, host, y, a, levels, i, table), y)
    decreases levels - i
  {
    hide P2, PteAt, LoadWord, LeafOk, NextTable, IndexAt, Join;
    if i < levels {
      var sh := LevelShift(levels, i);
      SamePrefix(x, y, sh);
      var at := PteAt(c, m, table + IndexAt(x, sh) * 8);
      if at.Some? {
        var pte := LoadWord(host, at.value);
        JoinByPage(NextTable(pte), x, y, sh);
        WalkFromByPage(c, m, host, x, y, a, levels, i + 1, NextTable(pte));
      }
    }
  }

  // Two translations of x and y are the same fault, or addresses as far apart as x and y, in one page.
  ghost predicate Shifted(t: Translation, x: nat, u: Translation, y: nat) {
    if t.Phys? then u.Phys? && u.paddr - y == t.paddr - x && SamePage(t.paddr, u.paddr) && t.paddr % PAGE == x % PAGE
       && u.paddr % PAGE == y % PAGE
    else u == t
  }

  lemma SamePrefix(x: nat, y: nat, sh: nat)
    requires SamePage(x, y) && sh >= 12
    ensures x / P2(sh) == y / P2(sh) && IndexAt(x, sh) == IndexAt(y, sh)
  {
    hide P2;
    P2Add(12, sh - 12);
    Pow12();
    DivDiv(x, 4096, P2(sh - 12));
    DivDiv(y, 4096, P2(sh - 12));
  }

  // Joining keeps the distance between two addresses of a page, and their page offsets.
  lemma JoinByPage(frame: nat, x: nat, y: nat, sh: nat)
    requires SamePage(x, y) && sh >= 12
    ensures Shifted(Phys(Join(frame, x, sh)), x, Phys(Join(frame, y, sh)), y)
  {
    hide P2, Shifted;
    P2Add(12, sh - 12);
    Pow12();
    var k := P2(sh - 12);
    DivDiv(x, 4096, k);
    DivDiv(y, 4096, k);
    DivMod(frame, P2(sh));
    var b := frame / P2(sh);
    Assoc(b, k, 4096);
    var n := b * k + x / 4096 % k;
    assert Join(frame, x, sh) == n * 4096 + x % 4096;
    assert Join(frame, y, sh) == n * 4096 + y % 4096;
    Placed(n, x, y);
  }

  lemma Placed(n: nat, x: nat, y: nat)
    requires SamePage(x, y)
    ensures Shifted(Phys(n * 4096 + x % 4096), x, Phys(n * 4096 + y % 4096), y)
  {}

  lemma WalkByPage(c: Platform, m: Context, host: seq<nat>, x: nat, y: nat, a: Access)
    requires SamePage(x, y)
    ensures Shifted(Walk(c, m, host, x, a), x, Walk(c, m, host, y, a), y)
  {
    hide P2, WalkFrom, Root, SatpMode, Canonical, SamePage;
    SelfShifted(x, y);
    if PrivFor(m, a) != PRV_M && SatpMode(m) != 0 {
      var levels := if SatpMode(m) >= 5 then SatpMode(m) - 5 else 0;
      CanonicalByPage(x, y, levels);
      NoLevels(c, m, host, x, a);
      NoLevels(c, m, host, y, a);
      WalkFromByPage(c, m, host, x, y, a, levels, 0, Root(m));
    }
  }

  lemma SelfShifted(x: nat, y: nat)
    requires SamePage(x, y)
    ensures Shifted(Phys(x), x, Phys(y), y)
  {}

  lemma NoLevels(c: Platform, m: Context, host: seq<nat>, x: nat, a: Access)
    ensures WalkFrom(c, m, host, x, a, 0, 0, Root(m)) == PageFault
  {}

  lemma CanonicalByPage(x: nat, y: nat, levels: nat)
    requires SamePage(x, y)
    ensures levels > 0 ==> Canonical(x, levels) == Canonical(y, levels)
  {
    hide P2;
    if levels > 0 { SamePrefix(x, y, 11 + 9 * levels); }
  }

  lemma SameInside(x: nat, size: nat, p: nat)
    requires Inside(x, size) && p % PAGE == x % PAGE
    ensures Inside(p, size)
  {}

  /** If one access to a page resolves to RAM, every access inside that page resolves to RAM,
      as far away as the address is. */
  lemma ResolveByPage(c: Platform, m: Context, host: seq<nat>, x: nat, sx: nat, y: nat, sy: nat, a: Access)
    requires Aligned(c) && PmpAligned(m.pmp) && SamePage(x, y) && Inside(x, sx) && Inside(y, sy)
    requires Resolve(c, m, host, x, sx, a).Ram?
    ensures var r, t := Resolve(c, m, host, x, sx, a), Resolve(c, m, host, y, sy, a);
      t.Ram? && t.paddr - y == r.paddr - x && t.ptr - y == r.ptr - x
  {
    hide P2, Walk, PmpOk, SamePage, FindRange, Inside;
    WalkByPage(c, m, host, x, y, a);
    var p, q := Walk(c, m, host, x, a).paddr, Walk(c, m, host, y, a).paddr;
    SameInside(x, sx, p);
    SameInside(y, sy, q);
    PmpByPage(c, m, p, sx, q, sy, a);
    RangeByPage(c.ranges, p, q);
  }

  // ----- what a translation depends on -----

  // Where the walk of an address reads its page-table entries.
  ghost function ReadsFrom(c: Platform, m: Context, host: seq<nat>, vaddr: nat, levels: nat, i: nat,
                           table: nat): set<nat>
    decreases levels - i
  {
    if i >= levels then {}
    else
      match PteAt(c, m, table + IndexAt(vaddr, LevelShift(levels, i)) * 8)
      case None => {}
      case Some(q) =>
        var pte := LoadWord(host, q);
        {q} + if pte % 2 == 0 || pte / 2 % 8 != 0 then {}
              else ReadsFrom(c, m, host, vaddr, levels, i + 1, NextTable(pte))
  }

  ghost function WalkReads(c: Platform, m: Context, host: seq<nat>, vaddr: nat): set<nat> {
    var levels := if SatpMode(m) >= 5 then SatpMode(m) - 5 else 0;
    ReadsFrom(c, m, host, vaddr, levels, 0, Root(m))
  }

  lemma {:induction false} WalkFromDepends(c: Platform, m: Context, host: seq<nat>, host': seq<nat>, x: nat,
                                           a: Access, levels: nat, i: nat, table: nat)
    requires forall q :: q in ReadsFrom(c, m, host, x, levels, i, table) ==> LoadWord(host', q) == LoadWord(host, q)
    ensures WalkFrom(c, m, host', x, a, levels, i, table) == WalkFrom(c, m, host, x, a, levels, i, table)
    ensures ReadsFrom(c, m, host', x, levels, i, table) == ReadsFrom(c, m, host, x, levels, i, table)
    decreases levels - i
  {
    hide P2, PteAt, LoadWord, LeafOk, NextTable, IndexAt, Join;
    if i < levels {
      var at := PteAt(c, m, table + IndexAt(x, LevelShift(levels, i)) * 8);
      if at.Some? {
        var pte := LoadWord(host, at.value);
        assert at.value in ReadsFrom(c, m, host, x, levels, i, table);
        if pte % 2 != 0 && pte / 2 % 8 == 0 {
          WalkFromDepends(c, m, host, host', x, a, levels, i + 1, NextTable(pte));
        }
      }
    }
  }

  /** Memory matters to a translation only through the entries its walk reads. */
  lemma ResolveDepends(c: Platform, m: Context, host: seq<nat>, host': seq<nat>, x: nat, size: nat, a: Access)
    requires forall q :: q in WalkReads(c, m, host, x) ==> LoadWord(host', q) == LoadWord(host, q)
    ensures Resolve(c, m, host', x, size, a) == Resolve(c, m, host, x, size, a)
  {
    hide P2, WalkFrom, ReadsFrom, Root, SatpMode, Canonical, PmpOk, FindRange, LoadWord;
    var levels := if SatpMode(m) >= 5 then SatpMode(m) - 5 else 0;
    WalkFromDepends(c, m, host, host', x, a, levels, 0, Root(m));
  }

  // The addresses of one page rest on the same entries.
  lemma {:induction false} ReadsFromByPage(c: Platform, m: Context, host: seq<nat>, x: nat, y: nat, levels: nat,
                                           i: nat, table: nat)
    requires SamePage(x, y)
    ensures ReadsFrom(c, m, host, x, levels, i, table) == ReadsFrom(c, m, host, y, levels, i, table)
    decreases levels - i
  {
    hide P2, PteAt, LoadWord, NextTable, IndexAt, SamePage;
    if i < levels {
      var sh := LevelShift(levels, i);
      SamePrefix(x, y, sh);
      var at := PteAt(c, m, table + IndexAt(x, sh) * 8);
      if at.Some? { ReadsFromByPage(c, m, host, x, y, levels, i + 1, NextTable(LoadWord(host, at.value))); }
    }
  }

  // Loads and stores differ in the checks on the leaf, not in where it leads.
  lemma {:induction false} WalksAgree(c: Platform, m: Context, host: seq<nat>, x: nat, levels: nat, i: nat, table: nat)
    requires WalkFrom(c, m, host, x, Load, levels, i, table).Phys?
             && WalkFrom(c, m, host, x, Store, levels, i, table).Phys?
    ensures WalkFrom(c, m, host, x, Load, levels, i, table) == WalkFrom(c, m, host, x, Store, levels, i, table)
    decreases levels - i
  {
    hide P2, PteAt, LoadWord, LeafOk, NextTable, IndexAt, Join;
    if i < levels {
      var at := PteAt(c, m, table + IndexAt(x, LevelShift(levels, i)) * 8);
      if at.Some? {
        var pte := LoadWord(host, at.value);
        if pte % 2 != 0 && pte / 2 % 8 == 0 { WalksAgree(c, m, host, x, levels, i + 1, NextTable(pte)); }
      }
    }
  }

  /** A load and a store of one address that both resolve to RAM resolve to the same place. */
  lemma AccessesAgree(c: Platform, m: Context, host: seq<nat>, x: nat, size: nat)
    requires Resolve(c, m, host, x, size, Load).Ram? && Resolve(c, m, host, x, size, Store).Ram?
    ensures Resolve(c, m, host, x, size, Load) == Resolve(c, m, host, x, size, Store)
  {
    hide P2, WalkFrom, Root, SatpMode, Canonical, PmpOk, FindRange;
    var levels := if SatpMode(m) >= 5 then SatpMode(m) - 5 else 0;
    if PrivFor(m, Load) != PRV_M && SatpMode(m) != 0 { WalksAgree(c, m, host, x, levels, 0, Root(m)); }
  }

  // Two contexts that no translation can tell apart.
  ghost predicate SameFor(m: Context, m': Context) {
    && m'.sum == m.sum && m'.mxr == m.mxr && m'.satp == m.satp && m'.pmp == m.pmp
    && forall a :: PrivFor(m', a) == PrivFor(m, a)
  }

  lemma {:induction false} WalkFromSame(c: Platform, m: Context, m': Context, host: seq<nat>, x: nat, a: Access,
                                        levels: nat, i: nat, table: nat)
    requires SameFor(m, m')
    ensures WalkFrom(c, m', host, x, a, levels, i, table) == WalkFrom(c, m, host, x, a, levels, i, table)
    decreases levels - i
  {
    hide P2, LoadWord, NextTable, IndexAt, Join, Bit, PrivFor, ListOk, FindRange;
    if i < levels {
      var at := PteAt(c, m, table + IndexAt(x, LevelShift(levels, i)) * 8);
      if at.Some? {
        var pte := LoadWord(host, at.value);
        if pte % 2 != 0 && pte / 2 % 8 == 0 {
          WalkFromSame(c, m, m', host, x, a, levels, i + 1, NextTable(pte));
        }
      }
    }
  }

  lemma ResolveSame(c: Platform, m: Context, m': Context, host: seq<nat>, x: nat, size: nat, a: Access)
    requires SameFor(m, m')
    ensures Resolve(c, m', host, x, size, a) == Resolve(c, m, host, x, size, a)
  {
    hide P2, WalkFrom, Canonical, FindRange, ListOk, PrivFor;
    var levels := if SatpMode(m) >= 5 then SatpMode(m) - 5 else 0;
    WalkFromSame(c, m, m', host, x, a, levels, 0, Root(m));
  }
}
