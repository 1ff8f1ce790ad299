// Dirty-page tracking (src/iomem.cpp, include/iomem.h, src/riscv_cpu.cpp, src/riscv_machine.cpp):
// one bit per page of a RAM range, set only by the slow store path, collected and reset as a whole.
module DirtyPages {
  import opened Powers
  import opened Pmp
  import opened Mmu
  import opened Tlb
  import LE = LittleEndian

  // ----- bits of a word -----

  // w | 1 << i
  function SetBit(w: nat, i: nat): nat { if Bit(w, i) then w else w + P2(i) }

  /** Setting a bit sets that bit and no other. */
  lemma SetBitAt(w: nat, i: nat, j: nat)
    ensures Bit(SetBit(w, i), j) == (j == i || Bit(w, j))
  {
    hide P2;
    if !Bit(w, i) {
      DivMod(w, P2(i));
      Carry(w, P2(i));
      if j > i {
        P2Add(i, j - i);
        P2Add(1, j - i - 1);
        P2Small();
        AboveKept(w, P2(i), P2(j - i - 1));
      } else if j < i {
        P2Add(j, i - j);
        P2Add(1, i - j - 1);
        P2Small();
        BelowKept(w, P2(j), P2(i - j - 1));
      }
    }
  }

  lemma Carry(w: nat, p: pos)
    ensures (w + p) / p == w / p + 1
  {
    DivMod(w, p);
    Distribute(w / p, 1, p);
    DivUnique(w + p, p, w / p + 1, w % p);
  }

  // Adding an even quotient's low bit does not reach the bits above.
  lemma AboveKept(w: nat, p: pos, r: pos)
    requires w / p % 2 == 0
    ensures p * (2 * r) > 0 && (w + p) / (p * (2 * r)) == w / (p * (2 * r))
  {
    var q := w / p;
    DivMod(w, p);
    Carry(w, p);
    DivDiv(w, p, 2 * r);
    DivDiv(w + p, p, 2 * r);
    DivDiv(q, 2, r);
    DivDiv(q + 1, 2, r);
    assert q / 2 == (q + 1) / 2;
  }

  // Adding a multiple of twice p leaves the bit at p.
  lemma BelowKept(w: nat, p: pos, r: pos)
    ensures (w + p * (2 * r)) / p % 2 == w / p % 2
  {
    DivMod(w, p);
    var k := 2 * r;
    Distribute(w / p, k, p);
    DivUnique(w + k * p, p, w / p + k, w % p);
  }

  lemma ZeroBit(i: nat)
    ensures !Bit(0, i)
  {
    hide P2;
    DivUnique(0, P2(i), 0, 0);
  }

  // The bit of page g in a bitmap of 32-bit words.
  predicate Dirty(ws: seq<nat>, g: nat) { g / 32 < |ws| && Bit(ws[g / 32], g % 32) }

  lemma {:induction false} CleanWords(ws: seq<nat>, g: nat)
    requires forall i :: 0 <= i < |ws| ==> ws[i] == 0
    ensures !Dirty(ws, g)
  {
    hide Bit;
    ZeroBit(g % 32);
  }

  lemma DirtyWord(ws: seq<nat>, g: nat)
    ensures Dirty(ws, g) <==> g / 32 < |ws| && ws[g / 32] / P2(g % 32) % 2 == 1
  {}

  lemma OneMoreDirty(ws: seq<nat>, p: nat, g: nat)
    requires p / 32 < |ws|
    ensures Dirty(ws[p / 32 := SetBit(ws[p / 32], p % 32)], g) == (g == p || Dirty(ws, g))
  {
    hide Bit, SetBit;
    SetBitAt(ws[p / 32], p % 32, g % 32);
  }

  // ----- the machine -----

  /** One tracked RAM range in host memory, and the write TLBs of all harts. */
  class Machine {
    const ncpus: nat
    const tlb: array2<Entry>         // ncpus write TLBs
    const mem: array<nat>            // host memory
    const base: nat                  // phys_mem
    const pages: nat                 // org_size in pages
    const tab0: array<nat>
    const tab1: array<nat>
    var index: nat                   // dirty_bits_index
    var size: nat                    // 0 while the mapping is disabled

    // Pages stored to, and the contents of memory, at the last collection.
    ghost var stored: set<nat>
    ghost var snap: seq<nat>

    function Bits(): array<nat>
      reads this`index
    {
      if index == 0 then tab0 else tab1
    }

    predicate InRange(p: int) { base <= p < base + pages * PAGE }

    function PageIn(p: int): nat
      requires InRange(p)
    {
      (p - base) / PAGE
    }

    ghost predicate Shaped()
      reads this
    {
      && tlb.Length0 == ncpus && tlb.Length1 == TLB_SIZE
      && tab0 != tab1 && mem != tab0 && mem != tab1
      && tab0.Length == tab1.Length == (pages + 31) / 32
      && index < 2 && (size == 0 || size == pages * PAGE) && base + pages * PAGE <= mem.Length
      && |snap| == mem.Length
    }

    // Host address of the page a valid entry writes to.
    function PageBase(e: Entry): int { e.memAddend + e.vaddr }

    // A page of host memory: one of the range, or none of its bytes in the range.
    predicate WholePage(b: int)
    {
      && 0 <= b && b + PAGE <= mem.Length
      && if InRange(b) then (b - base) % PAGE == 0 else b + PAGE <= base || base + pages * PAGE <= b
    }

    // A valid write-TLB entry names a page, and if it is one of the range, a dirty one.
    ghost predicate EntryTracked(e: Entry)
      reads this, Bits()
    {
      e.vaddr != INVALID ==>
        && e.vaddr >= 0 && e.vaddr % PAGE == 0 && WholePage(PageBase(e))
        && (InRange(PageBase(e)) ==> size != 0 && Dirty(Bits()[..], PageIn(PageBase(e))))
    }

    /** Valid entries point at dirty pages, and the dirty pages are exactly the stored ones. */
    ghost predicate Valid()
      reads this, tlb, mem, tab0, tab1
    {
      && Shaped()
      && (forall h, i :: 0 <= h < ncpus && 0 <= i < TLB_SIZE ==> EntryTracked(tlb[h, i]))
      && (forall g :: 0 <= g < pages ==> (Dirty(Bits()[..], g) <==> g in stored))
      && (forall q :: 0 <= q < mem.Length && InRange(q) && mem[q] != snap[q] ==> PageIn(q) in stored)
    }

    /** A RAM range registered with dirty bits, and harts with empty TLBs. */
    constructor (ncpus: nat, mem: array<nat>, base: nat, pages: nat)
      requires base + pages * PAGE <= mem.Length
      ensures Valid() && stored == {} && snap == mem[..]
      ensures this.ncpus == ncpus && this.mem == mem && this.base == base && this.pages == pages
      ensures fresh(tlb) && fresh(tab0) && fresh(tab1)
    {
      this.ncpus, this.mem, this.base, this.pages := ncpus, mem, base, pages;
      tlb := new Entry[ncpus, TLB_SIZE]((_, _) => Entry(INVALID, 0, 0));
      tab0 := new nat[(pages + 31) / 32](_ => 0);
      tab1 := new nat[(pages + 31) / 32](_ => 0);
      index, size := 0, pages * PAGE;
      stored, snap := {}, mem[..];
      new;
      hide Dirty;
      forall g ensures !Dirty(Bits()[..], g) { CleanWords(Bits()[..], g); }
    }

    /** phys_mem_set_dirty_bit */
    method SetDirtyBit(offset: nat)
      requires Shaped() && offset < pages * PAGE
      modifies Bits()
      ensures forall g :: Dirty(Bits()[..], g) <==> g == offset / PAGE || Dirty(old(Bits()[..]), g)
    {
      hide Bit, SetBit, Dirty;
      var g := offset / PAGE;
      ghost var ws := Bits()[..];
      assert g / 32 < Bits().Length;
      Bits()[g / 32] := SetBit(Bits()[g / 32], g % 32);
      assert Bits()[..] == ws[g / 32 := SetBit(ws[g / 32], g % 32)];
      forall k ensures Dirty(Bits()[..], k) <==> k == g || Dirty(ws, k) { OneMoreDirty(ws, g, k); }
    }

    // The bytes of a store inside page b, and the page it is in.
    lemma StoreInPage(b: int, p: int, n: nat, q: int)
      requires Shaped() && WholePage(b) && b <= p && p + n <= b + PAGE && p <= q < p + n
      ensures InRange(q) <==> InRange(b)
      ensures InRange(q) ==> PageIn(q) == PageIn(b)
    {
      if InRange(b) {
        var k := (b - base) / PAGE;
        assert b - base == k * PAGE;
        assert k < pages;
      }
    }

    lemma WholePageInside(b: int)
      requires WholePage(b)
      ensures 0 <= b && b + PAGE <= mem.Length
    {}

    // Write bytes of page b and remember the page if it is tracked.
    method Poke(ghost b: int, p: int, bs: seq<nat>)
      requires Valid() && WholePage(b) && b <= p && p + |bs| <= b + PAGE
      requires InRange(b) ==> Dirty(Bits()[..], PageIn(b)) && PageIn(b) < pages
      modifies mem
      ensures Valid()
      ensures mem[..] == Written(old(mem[..]), p, bs)
    {
      hide Dirty, WholePage, Written;
      WholePageInside(b);
      ghost var ms := mem[..];
      WriteBytes(p, bs);
      assert Bits()[..] == old(Bits()[..]);
      forall h, i | 0 <= h < ncpus && 0 <= i < TLB_SIZE ensures EntryTracked(tlb[h, i]) {
        assert old(EntryTracked(tlb[h, i]));
      }
      forall q | 0 <= q < mem.Length && InRange(q) && mem[q] != snap[q] ensures PageIn(q) in stored {
        if p <= q < p + |bs| { StoreInPage(b, p, |bs|, q); } else { assert mem[q] == ms[q]; }
      }
    }

    method WriteBytes(p: int, bs: seq<nat>)
      requires 0 <= p && p + |bs| <= mem.Length
      modifies mem
      ensures mem[..] == Written(old(mem[..]), p, bs)
      ensures forall q :: 0 <= q < mem.Length && !(p <= q < p + |bs|) ==> mem[q] == old(mem[q])
    {
      forall j | 0 <= j < |bs| { mem[p + j] := bs[j]; }
      assert mem[p..p + |bs|] == bs;
      assert mem[..] == mem[..p] + mem[p..p + |bs|] + mem[p + |bs|..];
    }

    // A RAM range of the map is the tracked one, or shares no host byte with it.
    ghost predicate Maps(c: Platform)
      reads this`size
    {
      && Aligned(c) && Fits(c, mem.Length)
      && forall r :: r in c.ranges && r.ram ==>
           (r.phys == base && r.size == size) || r.phys + r.size <= base || base + pages * PAGE <= r.phys
    }

    /** A store that the slow path resolves to RAM lands in a whole page of host memory, and in the
        tracked range only while it is enabled. */
    lemma ResolvedPage(c: Platform, m: Context, x: nat, n: nat)
      requires Shaped() && Maps(c) && SizeOk(n) && x % n == 0
      requires Resolve(c, m, mem[..], x, n, Access.Store).Ram?
      ensures var b := Resolve(c, m, mem[..], x, n, Access.Store).ptr - x % PAGE;
              WholePage(b) && (InRange(b) ==> size != 0)
    {
      hide Walk, PmpOk, P2, FindRange;
      WalkByPage(c, m, mem[..], x, x, Access.Store);
      var p := Walk(c, m, mem[..], x, Access.Store).paddr;
      FoundRange(c.ranges, p);
      var r := FindRange(c.ranges, p).value;
      assert r in c.ranges;
      PageInRange(p, r.addr, r.size);
    }

    lemma PageInRange(p: nat, addr: nat, n: nat)
      requires addr <= p < addr + n && addr % PAGE == 0 && n % PAGE == 0
      ensures var o := p - p % PAGE - addr; 0 <= o && o % PAGE == 0 && o + PAGE <= n
    {}

    /** A store by hart h: through its write TLB on a hit, else by the slow path, which marks the page
        and remembers it in the TLB; it may also fault or leave RAM. */
    method Store(h: nat, x: nat, n: nat, val: nat, c: Platform, m: Context) returns (o: Outcome)
      requires Valid() && Maps(c) && h < ncpus && SizeOk(n) && x % n == 0
      modifies this`stored, tlb, mem, Bits()
      ensures Valid()
      ensures o == old(var e := tlb[h, SlotOf(x)];
                       if TagHit(e, x, n) then Ram(e.paddrAddend + x, e.memAddend + x)
                       else Resolve(c, m, mem[..], x, n, Access.Store))
      ensures if o.Ram? then
                && mem[..] == Written(old(mem[..]), o.ptr, LE.Store(val, n))
                && stored == old(stored) + if InRange(o.ptr) then {PageIn(o.ptr)} else {}
              else mem[..] == old(mem[..]) && stored == old(stored)
    {
      hide Dirty, SlotOf, LE.Store, Resolve, Maps;
      var e := tlb[h, SlotOf(x)];
      if TagHit(e, x, n) {
        o := Ram(e.paddrAddend + x, e.memAddend + x);
        StoreTo(h, x, n, val, o.paddr, o.ptr);
        return;
      }
      o := Resolve(c, m, mem[..], x, n, Access.Store);
      if o.Ram? {
        ResolvedPage(c, m, x, n);
        StoreTo(h, x, n, val, o.paddr, o.ptr);
      }
    }

    // Both paths of a store that ends in RAM, p being where the slow one resolved it.
    method StoreTo(h: nat, x: nat, n: nat, val: nat, paddr: int, p: int)
      requires Valid() && h < ncpus && SizeOk(n) && x % n == 0
      requires !TagHit(tlb[h, SlotOf(x)], x, n) ==>
                 WholePage(p - x % PAGE) && (InRange(p - x % PAGE) ==> size != 0)
      modifies this`stored, tlb, mem, Bits()
      ensures Valid()
      ensures var q := if old(TagHit(tlb[h, SlotOf(x)], x, n)) then old(tlb[h, SlotOf(x)]).memAddend + x else p;
              && mem[..] == Written(old(mem[..]), q, LE.Store(val, n))
              && stored == old(stored) + if InRange(q) then {PageIn(q)} else {}
    {
      hide Dirty, SlotOf, LE.Store;
      var i := SlotOf(x);
      InsideAligned(x, n);
      TagIsPage(x);
      ghost var b := x - x % PAGE;
      if TagHit(tlb[h, i], x, n) {
        assert EntryTracked(tlb[h, i]);
        var e := tlb[h, i];
        StoreInPage(PageBase(e), e.memAddend + x, n, e.memAddend + x);
        Poke(PageBase(e), e.memAddend + x, LE.Store(val, n));
        return;
      }
      StoreInPage(p - x % PAGE, p, n, p);
      Remember(h, i, x, paddr, p);
      Poke(p - x % PAGE, p, LE.Store(val, n));
    }

    // phys_mem_set_dirty_bit and the TLB fill of the slow path
    method Remember(h: nat, i: nat, x: nat, paddr: int, p: int)
      requires Valid() && h < ncpus && i < TLB_SIZE
      requires WholePage(p - x % PAGE) && (InRange(p) <==> InRange(p - x % PAGE)) && (InRange(p) ==> size != 0)
      requires InRange(p) ==> PageIn(p) == PageIn(p - x % PAGE)
      modifies this`stored, tlb, Bits()
      ensures Valid()
      ensures InRange(p) ==> Dirty(Bits()[..], PageIn(p)) && PageIn(p) < pages
      ensures stored == old(stored) + if InRange(p) then {PageIn(p)} else {}
    {
      hide Dirty;
      ghost var ws := Bits()[..];
      if InRange(p) {
        assert (p - base) / PAGE < pages;
        SetDirtyBit(p - base);
        stored := stored + {PageIn(p)};
      }
      tlb[h, i] := Entry(PageOf(x), p - x, paddr - x);
      forall k, j | 0 <= k < ncpus && 0 <= j < TLB_SIZE ensures EntryTracked(tlb[k, j]) {
        if k != h || j != i { assert old(EntryTracked(tlb[k, j])); }
      }
    }

    /** riscv_flush_tlb_write_range with riscv_cpu_flush_tlb_write_range_ram: no hart keeps a
        write entry into the range, and every other entry stays. */
    method FlushWriteRange()
      requires Shaped()
      modifies tlb
      ensures forall h, i :: 0 <= h < ncpus && 0 <= i < TLB_SIZE ==>
                tlb[h, i] == var e := old(tlb[h, i]);
                             if e.vaddr != INVALID && InRange(PageBase(e)) then e.(vaddr := INVALID) else e
    {
      for h := 0 to ncpus
        invariant forall k, j :: 0 <= k < ncpus && 0 <= j < TLB_SIZE ==>
                    tlb[k, j] == var e := old(tlb[k, j]);
                                 if k < h && e.vaddr != INVALID && InRange(PageBase(e)) then e.(vaddr := INVALID) else e
      {
        for i := 0 to TLB_SIZE
          invariant forall k, j :: 0 <= k < ncpus && 0 <= j < TLB_SIZE ==>
                      tlb[k, j] == var e := old(tlb[k, j]);
                                   if (k < h || (k == h && j < i)) && e.vaddr != INVALID && InRange(PageBase(e))
                                   then e.(vaddr := INVALID) else e
        {
          if tlb[h, i].vaddr != INVALID {
            var ptr := tlb[h, i].memAddend + tlb[h, i].vaddr;
            if base <= ptr < base + pages * PAGE { tlb[h, i] := tlb[h, i].(vaddr := INVALID); }
          }
        }
      }
    }

    ghost predicate NoneInRange()
      requires Shaped()
      reads this, tlb
    {
      forall h, i :: 0 <= h < ncpus && 0 <= i < TLB_SIZE ==>
        tlb[h, i].vaddr != INVALID ==> !InRange(PageBase(tlb[h, i]))
    }

    /** Whether any word of the bitmap has a bit; if none has, no hart has a write entry into the range. */
    method HasDirtyBits() returns (any: bool)
      requires Valid()
      ensures any <==> exists i :: 0 <= i < Bits().Length && Bits()[i] != 0
      ensures !any ==> NoneInRange()
    {
      hide Bit;
      var ws := Bits();
      for i := 0 to ws.Length
        invariant forall j :: 0 <= j < i ==> ws[j] == 0
      {
        if ws[i] != 0 { return true; }
      }
      forall h, i | 0 <= h < ncpus && 0 <= i < TLB_SIZE && tlb[h, i].vaddr != INVALID
        ensures !InRange(PageBase(tlb[h, i]))
      {
        assert EntryTracked(tlb[h, i]);
        if InRange(PageBase(tlb[h, i])) { CleanWords(ws[..], PageIn(PageBase(tlb[h, i]))); }
      }
      return false;
    }

    /** default_get_dirty_bits: the returned bitmap marks exactly the pages stored to since the
        last collection, so every byte that changed lies in a marked page; tracking starts anew. */
    method GetDirtyBits() returns (bits: array<nat>)
      requires Valid()
      modifies this, tlb, tab0, tab1
      ensures Valid() && stored == {} && snap == mem[..] && Bits() != bits
      ensures forall g :: 0 <= g < pages ==> (Dirty(bits[..], g) <==> g in old(stored))
      ensures forall g :: 0 <= g < pages ==>
        (g / 32 < bits.Length && bits[g / 32] / P2(g % 32) % 2 == 1 <==> g in old(stored))
      ensures forall q :: 0 <= q < mem.Length && InRange(q) && mem[q] != old(snap)[q] ==> Dirty(bits[..], PageIn(q))
    {
      hide Dirty;
      bits := Bits();
      ghost var was := bits[..];
      forall q | 0 <= q < mem.Length && InRange(q) && mem[q] != snap[q] ensures Dirty(bits[..], PageIn(q)) {
        assert PageIn(q) in stored && PageIn(q) < pages;
      }
      var any := HasDirtyBits();
      if any && size != 0 { FlushWriteRange(); }
      assert NoneInRange();
      index := 1 - index;
      var ws := Bits();
      for i := 0 to ws.Length
        modifies ws
        invariant forall j :: 0 <= j < i ==> ws[j] == 0
      {
        ws[i] := 0;
      }
      stored, snap := {}, mem[..];
      assert bits[..] == was;
      forall g | 0 <= g < pages
        ensures g / 32 < bits.Length && bits[g / 32] / P2(g % 32) % 2 == 1 <==> g in old(stored)
      {
        DirtyWord(bits[..], g);
      }
      forall g ensures !Dirty(Bits()[..], g) { CleanWords(Bits()[..], g); }
      forall h, i | 0 <= h < ncpus && 0 <= i < TLB_SIZE ensures EntryTracked(tlb[h, i]) {
        assert old(EntryTracked(tlb[h, i]));
      }
    }

    /** Any flush of one hart's write TLB, and the reset of its entries. */
    method FlushHart(h: nat)
      requires Valid() && h < ncpus
      modifies tlb
      ensures Valid()
      ensures forall k, i :: 0 <= k < ncpus && 0 <= i < TLB_SIZE ==>
                tlb[k, i] == if k == h then old(tlb[k, i]).(vaddr := INVALID) else old(tlb[k, i])
    {
      hide Dirty;
      for i := 0 to TLB_SIZE
        invariant forall k, j :: 0 <= k < ncpus && 0 <= j < TLB_SIZE ==>
                    tlb[k, j] == if k == h && j < i then old(tlb[k, j]).(vaddr := INVALID) else old(tlb[k, j])
      {
        tlb[h, i] := tlb[h, i].(vaddr := INVALID);
      }
      forall k, i | 0 <= k < ncpus && 0 <= i < TLB_SIZE ensures EntryTracked(tlb[k, i]) {
        assert old(EntryTracked(tlb[k, i]));
      }
    }

    /** default_set_addr: the mapping is enabled, moved or disabled. */
    method SetAddr(enabled: bool, moved: bool)
      requires Valid()
      modifies this`size, tlb
      ensures Valid() && size == (if enabled then pages * PAGE else 0)
    {
      hide Dirty;
      if enabled && (size == 0 || moved) {
        FlushWriteRange();
        size := pages * PAGE;
      } else if !enabled && size != 0 {
        FlushWriteRange();
        size := 0;
      }
      forall h, i | 0 <= h < ncpus && 0 <= i < TLB_SIZE ensures EntryTracked(tlb[h, i]) {
        assert old(EntryTracked(tlb[h, i]));
      }
    }
  }
}