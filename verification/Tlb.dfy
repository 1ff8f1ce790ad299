// The read and write TLBs of a hart: what fills them, what flushes them, and why a hit gives
// what the slow path would give.
module Tlb {
  import opened Basics
  import opened Powers
  import opened Pmp
  import opened Mmu
  import LE = LittleEndian

  // The all-ones address marks an entry that is not valid.
  const INVALID: int := WORD - 1

  // Host pointer and physical address of a page as distances from the virtual address.
  datatype Entry = Entry(vaddr: int, memAddend: int, paddrAddend: int)

  datatype State = State(ctx: Context, rd: seq<Entry>, wr: seq<Entry>, host: seq<nat>)

  function PageOf(x: nat): nat { x / PAGE * PAGE }

  function SlotOf(x: nat): (i: nat)
    ensures i < TLB_SIZE
  {
    x / PAGE % TLB_SIZE
  }

  // The comparison of the fast path: the page bits, and the bits that make an access misaligned.
  predicate TagHit(e: Entry, x: nat, size: nat)
    requires size > 0
  {
    e.vaddr == PageOf(x) + x % size
  }

  predicate SizeOk(size: nat) { size == 1 || size == 2 || size == 4 || size == 8 }

  predicate Shape(s: State) { |s.rd| == TLB_SIZE && |s.wr| == TLB_SIZE }

  function TlbFor(s: State, a: Access): seq<Entry> { if a == Store then s.wr else s.rd }

  // What an aligned data access comes to: the fast path on a hit, else the slow one.
  function Path(c: Platform, s: State, x: nat, size: nat, a: Access): Outcome
    requires Shape(s) && SizeOk(size)
  {
    var e := TlbFor(s, a)[SlotOf(x)];
    if TagHit(e, x, size) then Ram(e.paddrAddend + x, e.memAddend + x)
    else Resolve(c, s.ctx, s.host, x, size, a)
  }

  function Flushed(t: seq<Entry>): (u: seq<Entry>)
    ensures |u| == |t|
  {
    seq(|t|, i requires 0 <= i < |t| => t[i].(vaddr := INVALID))
  }

  function FlushAll(s: State): State { s.(rd := Flushed(s.rd), wr := Flushed(s.wr)) }

  // The slow path remembers a page it resolved to RAM.
  function Filled(t: seq<Entry>, x: nat, r: Outcome): seq<Entry>
    requires |t| == TLB_SIZE
  {
    if r.Ram? then t[SlotOf(x) := Entry(PageOf(x), r.ptr - x, r.paddr - x)] else t
  }

  function Written(host: seq<nat>, p: int, bs: seq<nat>): (h: seq<nat>)
    ensures |h| == |host|
  {
    if 0 <= p && p + |bs| <= |host| then host[..p] + bs + host[p + |bs|..] else host
  }

  // ----- the steps of a hart that matter to its TLBs -----

  datatype Event =
    | DataLoad(x: nat, size: nat)
    | DataStore(x: nat, size: nat, val: nat)
    | SetMstatus(mprv: bool, mpp: nat, sum: bool, mxr: bool)
    | SetSatp(val: nat)
    | SetPmp(rs: seq<Region>)
    | Fence
    | TrapToM
    | ReturnFromM
    | SetPriv(priv: nat)    // a trap to supervisor mode, sret and dret

  predicate EventOk(ev: Event) {
    match ev
    case DataLoad(x, size) => SizeOk(size)
    case DataStore(x, size, v) => SizeOk(size)
    case _ => true
  }

  function ToPriv(s: State, p: nat): State {
    if s.ctx.priv != p then FlushAll(s).(ctx := s.ctx.(priv := p)) else s
  }

  function LegalSatp(was: nat, val: nat): nat {
    DivMod(val, P2(60));
    DivMod(val, P2(44));
    var mode := val / P2(60) % 16;
    if mode == 0 || mode == 8 || mode == 9 then mode * P2(60) + val % P2(44) else was
  }

  /** satp keeps the mode and the root page number of a legal value and clears the bits between
      them; any other mode leaves it as it was. */
  lemma SatpTaken(was: nat, val: nat)
    ensures var r := LegalSatp(was, val);
      if val / P2(60) % 16 in {0, 8, 9}
      then r / P2(60) == val / P2(60) % 16 && r / P2(44) % P2(16) == 0 && r % P2(44) == val % P2(44)
      else r == was
  {
    hide P2;
    var mode, low := val / P2(60) % 16, val % P2(44);
    DivMod(val, P2(60));
    DivMod(val, P2(44));
    P2Add(16, 44);
    P2Mono(44, 60);
    Assoc(mode, P2(16), P2(44));
    DivUnique(mode * P2(60) + low, P2(60), mode, low);
    DivUnique(mode * P2(60) + low, P2(44), mode * P2(16), low);
    DivUnique(mode * P2(16), P2(16), mode, 0);
  }

  function After(c: Platform, s: State, ev: Event): (s': State)
    requires Shape(s) && EventOk(ev)
    ensures Shape(s')
  {
    match ev
    case DataLoad(x, size) =>
      if x % size != 0 || TagHit(s.rd[SlotOf(x)], x, size) then s
      else s.(rd := Filled(s.rd, x, Resolve(c, s.ctx, s.host, x, size, Load)))
    case DataStore(x, size, val) =>
      if x % size != 0 then s
      else
        var r := Path(c, s, x, size, Store);
        if TagHit(s.wr[SlotOf(x)], x, size) then s.(host := Written(s.host, r.ptr, LE.Store(val, size)))
        else if r.Ram? then s.(wr := Filled(s.wr, x, r), host := Written(s.host, r.ptr, LE.Store(val, size)))
        else s
    case SetMstatus(mprv, mpp, sum, mxr) =>
      var k := s.ctx;
      var t := if mprv != k.mprv || sum != k.sum || mxr != k.mxr || (k.mprv && mpp != k.mpp) then FlushAll(s) else s;
      t.(ctx := k.(mprv := mprv, mpp := mpp, sum := sum, mxr := mxr))
    case SetSatp(val) => FlushAll(s).(ctx := s.ctx.(satp := LegalSatp(s.ctx.satp, val)))
    case SetPmp(rs) => FlushAll(s).(ctx := s.ctx.(pmp := rs))
    case Fence => FlushAll(s)
    case TrapToM => ToPriv(s.(ctx := s.ctx.(mpp := s.ctx.priv)), PRV_M)
    case ReturnFromM => ToPriv(s.(ctx := s.ctx.(mpp := 0)), s.ctx.mpp)
    case SetPriv(p) => ToPriv(s, p)
  }

  /** One load that reaches RAM serves its whole page: afterwards every aligned load of the page is
      answered from the TLB, as far from the first in both address spaces as it is in the virtual one. */
  lemma LoadServesPage(c: Platform, s: State, x: nat, size: nat, y: nat, n: nat)
    requires Shape(s) && SizeOk(size) && SizeOk(n) && x % size == 0 && y % n == 0 && y / PAGE == x / PAGE
    requires Path(c, s, x, size, Load).Ram?
    ensures var s', r := After(c, s, DataLoad(x, size)), Path(c, s, x, size, Load);
      s'.rd[y / 4096 % 256].vaddr == y - y % 4096 && Path(c, s', y, n, Load) == Ram(r.paddr + (y - x), r.ptr + (y - x))
  {
    hide Resolve;
  }

  /** The same of a store that reaches RAM and the stores after it. */
  lemma StoreServesPage(c: Platform, s: State, x: nat, size: nat, val: nat, y: nat, n: nat)
    requires Shape(s) && SizeOk(size) && SizeOk(n) && x % size == 0 && y % n == 0 && y / PAGE == x / PAGE
    requires Path(c, s, x, size, Store).Ram?
    ensures var s', r := After(c, s, DataStore(x, size, val)), Path(c, s, x, size, Store);
      s'.wr[y / 4096 % 256].vaddr == y - y % 4096 && Path(c, s', y, n, Store) == Ram(r.paddr + (y - x), r.ptr + (y - x))
  {
    hide Resolve, Written, LE.Store;
  }

  // ----- coherence -----

  // A valid entry says of its page what the slow path says of the page's first byte.
  ghost predicate EntryOk(c: Platform, m: Context, host: seq<nat>, e: Entry, a: Access) {
    e.vaddr == INVALID ||
    (e.vaddr >= 0 && e.vaddr % PAGE == 0 &&
     var r := Resolve(c, m, host, e.vaddr, 1, a);
     r.Ram? && r.paddr == e.vaddr + e.paddrAddend && r.ptr == e.vaddr + e.memAddend)
  }

  ghost predicate AllOk(c: Platform, m: Context, host: seq<nat>, t: seq<Entry>, a: Access) {
    forall i :: 0 <= i < |t| ==> EntryOk(c, m, host, t[i], a)
  }

  ghost predicate Coherent(c: Platform, s: State) {
    AllOk(c, s.ctx, s.host, s.rd, Load) && AllOk(c, s.ctx, s.host, s.wr, Store)
  }

  // No MPRV, and protection regions made of whole pages.
  ghost predicate Plain(s: State) { !s.ctx.mprv && PmpAligned(s.ctx.pmp) }

  // The bytes of a store are not a page-table entry some valid translation rests on.
  ghost predicate Clear(c: Platform, s: State, x: nat, p: int, size: nat) {
    forall q :: q in WalkReads(c, s.ctx, s.host, x) ==> q + 8 <= p || p + size <= q
  }

  ghost predicate TablesKept(c: Platform, s: State, ev: Event)
    requires Shape(s) && EventOk(ev)
  {
    ev.DataStore? && ev.x % ev.size == 0 && Path(c, s, ev.x, ev.size, Store).Ram? ==>
      var p := Path(c, s, ev.x, ev.size, Store).ptr;
      && Clear(c, s, PageOf(ev.x), p, ev.size)
      && forall e :: e in s.rd + s.wr && e.vaddr != INVALID && e.vaddr >= 0 ==> Clear(c, s, e.vaddr, p, ev.size)
  }

  lemma InsideAligned(x: nat, size: nat)
    requires SizeOk(size) && x % size == 0
    ensures Inside(x, size) && Inside(PageOf(x), 1) && SamePage(PageOf(x), x)
  {}

  /** A hit gives what the walk, the protection check and the map give. */
  lemma HitIsSlow(c: Platform, s: State, x: nat, size: nat, a: Access)
    requires Aligned(c) && Shape(s) && Plain(s) && Coherent(c, s) && SizeOk(size) && x % size == 0 && a != Execute
    ensures Path(c, s, x, size, a) == Resolve(c, s.ctx, s.host, x, size, a)
  {
    hide Resolve, PageOf, Aligned, PmpAligned, SlotOf;
    var e := TlbFor(s, a)[SlotOf(x)];
    if TagHit(e, x, size) {
      TagIsPage(x);
      assert EntryOk(c, s.ctx, s.host, e, a);
      InsideAligned(x, size);
      ResolveByPage(c, s.ctx, s.host, PageOf(x), 1, x, size, a);
    }
  }

  lemma TagIsPage(x: nat)
    ensures PageOf(x) != INVALID && PageOf(x) % PAGE == 0
  {}

  // A page just resolved makes a good entry.
  lemma FillOk(c: Platform, m: Context, host: seq<nat>, x: nat, size: nat, a: Access)
    requires Aligned(c) && PmpAligned(m.pmp) && SizeOk(size) && x % size == 0
    requires Resolve(c, m, host, x, size, a).Ram?
    ensures var r := Resolve(c, m, host, x, size, a); EntryOk(c, m, host, Entry(PageOf(x), r.ptr - x, r.paddr - x), a)
  {
    hide Resolve, PageOf, Aligned, PmpAligned;
    TagIsPage(x);
    InsideAligned(x, size);
    ResolveByPage(c, m, host, x, size, PageOf(x), 1, a);
  }

  lemma FlushedOk(c: Platform, s: State, m: Context)
    ensures Coherent(c, FlushAll(s).(ctx := m))
  {
    hide Resolve;
  }

  lemma SameContextOk(c: Platform, s: State, m: Context)
    requires Coherent(c, s) && SameFor(s.ctx, m)
    ensures Coherent(c, s.(ctx := m))
  {
    hide Resolve, SameFor;
    forall e, a | e in s.rd + s.wr && EntryOk(c, s.ctx, s.host, e, a) ensures EntryOk(c, m, s.host, e, a) {
      if e.vaddr != INVALID { ResolveSame(c, s.ctx, m, s.host, e.vaddr, 1, a); }
    }
    forall i | 0 <= i < |s.rd| ensures EntryOk(c, m, s.host, s.rd[i], Load) { assert s.rd[i] in s.rd + s.wr; }
    forall i | 0 <= i < |s.wr| ensures EntryOk(c, m, s.host, s.wr[i], Store) { assert s.wr[i] in s.rd + s.wr; }
  }

  lemma WordKept(host: seq<nat>, p: int, bs: seq<nat>, q: nat)
    requires q + 8 <= p || p + |bs| <= q
    ensures LoadWord(Written(host, p, bs), q) == LoadWord(host, q)
  {
    if 0 <= p && p + |bs| <= |host| && q + 8 <= |host| {
      assert Written(host, p, bs)[q..q + 8] == host[q..q + 8];
    }
  }

  lemma EntryKept(c: Platform, m: Context, host: seq<nat>, p: int, bs: seq<nat>, e: Entry, a: Access)
    requires EntryOk(c, m, host, e, a)
    requires e.vaddr == INVALID || (e.vaddr >= 0 && forall q :: q in WalkReads(c, m, host, e.vaddr) ==>
             q + 8 <= p || p + |bs| <= q)
    ensures EntryOk(c, m, Written(host, p, bs), e, a)
  {
    hide Resolve, WalkReads, LoadWord, Written;
    if e.vaddr != INVALID {
      forall q | q in WalkReads(c, m, host, e.vaddr) ensures LoadWord(Written(host, p, bs), q) == LoadWord(host, q) {
        WordKept(host, p, bs, q);
      }
      ResolveDepends(c, m, host, Written(host, p, bs), e.vaddr, 1, a);
    }
  }

  // One more good entry keeps a TLB good.
  lemma FilledOk(c: Platform, m: Context, host: seq<nat>, t: seq<Entry>, x: nat, size: nat, a: Access)
    requires Aligned(c) && PmpAligned(m.pmp) && SizeOk(size) && x % size == 0
    requires |t| == TLB_SIZE && AllOk(c, m, host, t, a)
    ensures AllOk(c, m, host, Filled(t, x, Resolve(c, m, host, x, size, a)), a)
  {
    hide Resolve, PageOf, Aligned, PmpAligned, SlotOf, EntryOk;
    if Resolve(c, m, host, x, size, a).Ram? { FillOk(c, m, host, x, size, a); }
  }

  // Writing bytes that no valid entry of t rests on keeps t good.
  lemma StoredOk(c: Platform, m: Context, host: seq<nat>, t: seq<Entry>, p: int, bs: seq<nat>, a: Access)
    requires AllOk(c, m, host, t, a)
    requires forall e :: e in t && e.vaddr != INVALID && e.vaddr >= 0 ==>
               forall q :: q in WalkReads(c, m, host, e.vaddr) ==> q + 8 <= p || p + |bs| <= q
    ensures AllOk(c, m, Written(host, p, bs), t, a)
  {
    hide Resolve, WalkReads, Written;
    forall i | 0 <= i < |t| ensures EntryOk(c, m, Written(host, p, bs), t[i], a) {
      assert EntryOk(c, m, host, t[i], a) && t[i] in t;
      EntryKept(c, m, host, p, bs, t[i], a);
    }
  }

  lemma StoreCoherent(c: Platform, s: State, x: nat, size: nat, val: nat)
    requires Aligned(c) && Shape(s) && SizeOk(size) && Plain(s) && Coherent(c, s)
    requires TablesKept(c, s, DataStore(x, size, val))
    ensures Coherent(c, After(c, s, DataStore(x, size, val)))
  {
    hide Resolve, WalkReads, Written, PageOf, SlotOf, Aligned, PmpAligned, AllOk, EntryOk, TagHit;
    if x % size == 0 {
      var r, m, bs := Path(c, s, x, size, Store), s.ctx, LE.Store(val, size);
      HitIsSlow(c, s, x, size, Store);
      if r.Ram? {
        var hit := TagHit(s.wr[SlotOf(x)], x, size);
        var wr := if hit then s.wr else Filled(s.wr, x, r);
        if !hit { FilledOk(c, m, s.host, s.wr, x, size, Store); }
        StoredOk(c, m, s.host, s.rd, r.ptr, bs, Load);
        forall e | e in wr && e.vaddr != INVALID && e.vaddr >= 0
          ensures Clear(c, s, e.vaddr, r.ptr, size)
        {
          if e !in s.wr { assert e.vaddr == PageOf(x); }
        }
        StoredOk(c, m, s.host, wr, r.ptr, bs, Store);
      }
    }
  }

  /** Every step keeps the TLBs coherent. */
  lemma StepCoherent(c: Platform, s: State, ev: Event)
    requires Aligned(c) && Shape(s) && EventOk(ev) && Plain(s) && Coherent(c, s)
    requires Plain(After(c, s, ev)) && TablesKept(c, s, ev)
    ensures Coherent(c, After(c, s, ev))
  {
    hide Resolve, WalkReads, Written, PageOf, SlotOf, Aligned, PmpAligned, AllOk, EntryOk, TagHit, Flushed, LegalSatp;
    FlushedOk(c, s, After(c, s, ev).ctx);
    match ev
    case DataLoad(x, size) =>
      if x % size == 0 { FilledOk(c, s.ctx, s.host, s.rd, x, size, Load); }
    case DataStore(x, size, val) => StoreCoherent(c, s, x, size, val);
    case SetMstatus(mprv, mpp, sum, mxr) =>
      var m := s.ctx.(mprv := mprv, mpp := mpp, sum := sum, mxr := mxr);
      if SameFor(s.ctx, m) { SameContextOk(c, s, m); }
    case TrapToM => SameContextOk(c, s, s.ctx.(mpp := s.ctx.priv)); FlushedTrap(c, s);
    case ReturnFromM => SameContextOk(c, s, s.ctx.(mpp := 0)); FlushedTrap(c, s);
    case _ =>
  }

  lemma FlushedTrap(c: Platform, s: State)
    ensures forall m, m' :: Coherent(c, FlushAll(s.(ctx := m)).(ctx := m'))
  {
    forall m, m' ensures Coherent(c, FlushAll(s.(ctx := m)).(ctx := m')) {
      FlushedOk(c, s.(ctx := m), m');
    }
  }

  // ----- runs -----

  function Run(c: Platform, s: State, evs: seq<Event>): (s': State)
    requires Shape(s) && forall ev :: ev in evs ==> EventOk(ev)
    ensures Shape(s')
  {
    if evs == [] then s else After(c, Run(c, s, evs[..|evs| - 1]), evs[|evs| - 1])
  }

  // Along the whole run MPRV stays clear, protection stays page-aligned and no store changes
  // a page-table entry that a valid TLB entry rests on.
  ghost predicate PlainRun(c: Platform, s: State, evs: seq<Event>)
    requires Shape(s) && forall ev :: ev in evs ==> EventOk(ev)
  {
    && Plain(Run(c, s, evs))
    && (evs != [] ==>
          && PlainRun(c, s, evs[..|evs| - 1])
          && TablesKept(c, Run(c, s, evs[..|evs| - 1]), evs[|evs| - 1]))
  }

  /** TLB coherence over every run from a flushed state: whatever happened before, an aligned
      data access comes to exactly what the walk, the protection check and the map say. */
  lemma RunIsSlow(c: Platform, s: State, evs: seq<Event>, x: nat, size: nat, a: Access)
    requires Aligned(c) && Shape(s) && (forall ev :: ev in evs ==> EventOk(ev))
    requires s == FlushAll(s) && PlainRun(c, s, evs)
    requires SizeOk(size) && x % size == 0 && a != Execute
    ensures var t := Run(c, s, evs); Path(c, t, x, size, a) == Resolve(c, t.ctx, t.host, x, size, a)
  {
    hide Resolve, WalkReads, Written, PageOf, SlotOf, Aligned, PmpAligned, AllOk, EntryOk, TagHit, Flushed, After;
    FlushedOk(c, s, s.ctx);
    RunCoherent(c, s, evs);
    HitIsSlow(c, Run(c, s, evs), x, size, a);
  }

  lemma {:induction false} RunCoherent(c: Platform, s: State, evs: seq<Event>)
    requires Aligned(c) && Shape(s) && (forall ev :: ev in evs ==> EventOk(ev))
    requires Coherent(c, s) && PlainRun(c, s, evs)
    ensures Coherent(c, Run(c, s, evs))
  {
    hide Aligned, Coherent, After, TablesKept, EventOk, Shape, Plain;
    if evs != [] {
      RunCoherent(c, s, evs[..|evs| - 1]);
      assert Plain(Run(c, s, evs[..|evs| - 1]));
      StepCoherent(c, Run(c, s, evs[..|evs| - 1]), evs[|evs| - 1]);
    }
  }
}
