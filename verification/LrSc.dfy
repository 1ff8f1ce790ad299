// Load-reserved and store-conditional over all interleavings of any number of harts
// (include/dromajo_template.h OP_A, the store paths of src/riscv_cpu.cpp): one global sequence
// number of RAM stores and, per hart, the address and sequence number of its reservation.
module LrSc {
  import opened Basics
  import opened Powers
  import LE = LittleEndian

  // How an access ends: an exception, bytes of RAM, or something that is not RAM. Where an address
  // leads is a matter of each access, since translations change.
  datatype Target = Exception | RamAt(p: nat) | NotRam

  // load_res and load_res_memseqno; of the latest load-reserved also what it returned, from where, and
  // how many bytes.
  datatype Reservation = Reservation(addr: nat, seqno: nat, loaded: nat, from: Target, width: nat)

  // mem is RAM byte by byte.
  datatype State = State(memseqno: nat, res: seq<Reservation>, mem: seq<nat>)

  datatype Event =
    | LR(h: nat, va: nat, size: nat, at: Target, device: nat)   // device: what a read outside RAM returns
    | SC(h: nat, va: nat, size: nat, val: nat, at: Target)
    | Store(h: nat, va: nat, size: nat, val: nat, at: Target)   // plain stores, and the writes of AMOs

  const NO_RESERVATION: nat := WORD - 1
  const W32: nat := 0x1_0000_0000

  predicate SizeOk(size: nat) { size == 4 || size == 8 }

  predicate EventOk(s: State, ev: Event) {
    && ev.h < |s.res| && (ev.at.RamAt? ==> ev.at.p + ev.size <= |s.mem|)
    && (if ev.Store? then ev.size == 1 || ev.size == 2 || SizeOk(ev.size) else SizeOk(ev.size))
  }

  // ----- bytes -----

  function WordAt(mem: seq<nat>, p: nat, size: nat): nat
    requires p + size <= |mem|
  {
    LE.Load(mem[p..p + size])
  }

  function Put(mem: seq<nat>, p: nat, size: nat, val: nat): (mem': seq<nat>)
    requires p + size <= |mem|
    ensures |mem'| == |mem|
  {
    mem[..p] + LE.Store(val, size) + mem[p + size..]
  }

  predicate Overlap(p: nat, n: nat, q: nat, m: nat) { p < q + m && q < p + n }

  ghost predicate Within(x: nat, p: nat, n: nat) { p <= x < p + n }

  /** Two accesses overlap exactly if they share a byte. */
  lemma OverlapIff(p: nat, n: nat, q: nat, m: nat)
    requires n > 0 && m > 0
    ensures Overlap(p, n, q, m) <==> exists x :: Within(x, p, n) && Within(x, q, m)
  {
    if Overlap(p, n, q, m) { assert Within(if p < q then q else p, p, n); }
  }

  lemma PutSame(mem: seq<nat>, p: nat, size: nat, val: nat)
    requires p + size <= |mem|
    ensures WordAt(Put(mem, p, size, val), p, size) == val % LE.Base(size)
  {
    assert Put(mem, p, size, val)[p..p + size] == LE.Store(val, size);
    LE.RoundTrip(val, size);
  }

  lemma PutOther(mem: seq<nat>, p: nat, size: nat, val: nat, q: nat, n: nat)
    requires p + size <= |mem| && q + n <= |mem| && !Overlap(p, size, q, n)
    ensures WordAt(Put(mem, p, size, val), q, n) == WordAt(mem, q, n)
  {
    var mem' := Put(mem, p, size, val);
    assert mem'[q..q + n] == mem[q..q + n];
  }

  // The sign extension of a loaded word to a register.
  function Extend(size: nat, w: nat): nat {
    if size == 4 then (var v := w % W32; if v >= W32 / 2 then v + (WORD - W32) else v) else w % WORD
  }

  lemma ExtendKeeps(size: nat, w: nat)
    requires SizeOk(size)
    ensures Extend(size, w) % LE.Base(size) == w % LE.Base(size)
  {
    assert LE.Base(4) == W32 && LE.Base(8) == WORD by { Bases(); }
    var v := w % W32;
    if size == 4 && v >= W32 / 2 { DivUnique(v + (WORD - W32), W32, W32 - 1, v); }
  }

  // A word of m values read as a signed number.
  function Signed(w: nat, m: nat): int { if 2 * w >= m then w - m else w }

  // The bytes at p as an unsigned number, lowest first.
  function FourAt(mem: seq<nat>, p: nat): nat
    requires p + 4 <= |mem|
  {
    mem[p] + 0x100 * mem[p + 1] + 0x1_0000 * mem[p + 2] + 0x100_0000 * mem[p + 3]
  }

  function EightAt(mem: seq<nat>, p: nat): nat
    requires p + 8 <= |mem|
  {
    FourAt(mem, p) + W32 * FourAt(mem, p + 4)
  }

  ghost predicate Bytes(mem: seq<nat>) { forall i :: 0 <= i < |mem| ==> mem[i] < 256 }

  lemma WordBytes(mem: seq<nat>, p: nat)
    ensures p + 4 <= |mem| ==> WordAt(mem, p, 4) == FourAt(mem, p) && (Bytes(mem) ==> FourAt(mem, p) < W32)
    ensures p + 8 <= |mem| ==> WordAt(mem, p, 8) == EightAt(mem, p) && (Bytes(mem) ==> EightAt(mem, p) < WORD)
  {
    if p + 4 <= |mem| { LE.LoadFour(mem[p..p + 4]); }
    if p + 8 <= |mem| {
      var bs := mem[p..p + 8];
      LE.Eight(bs);
      assert bs[..4] == mem[p..p + 4] && bs[4..] == mem[p + 4..p + 8];
    }
  }

  /** A register that a load-reserved leaves, read as signed, is the word read, read as signed. */
  lemma ExtendSigned(size: nat, w: nat)
    requires SizeOk(size) && w < (if size == 4 then W32 else WORD)
    ensures Extend(size, w) < WORD && Signed(Extend(size, w), WORD) == Signed(w, if size == 4 then W32 else WORD)
  {}

  // Only the bits of the word count.
  lemma DeviceWord(size: nat, w: nat)
    requires SizeOk(size)
    ensures Extend(size, w) == Extend(size, w % if size == 4 then W32 else WORD)
  {}

  lemma Bases()
    ensures LE.Base(4) == W32 && LE.Base(8) == WORD
  {
    assert LE.Base(1) == 256 && LE.Base(2) == 0x1_0000 && LE.Base(3) == 0x100_0000;
    assert LE.Base(4) == W32;
    assert LE.Base(5) == 256 * W32 && LE.Base(6) == 0x1_0000 * W32 && LE.Base(7) == 0x100_0000 * W32;
  }

  predicate OnBoundary(va: nat, size: nat) { (size == 4 && va % 4 == 0) || (size == 8 && va % 8 == 0) }

  predicate Succeeds(s: State, h: nat, va: nat)
    requires h < |s.res|
  {
    s.res[h].addr == va && s.res[h].seqno == s.memseqno
  }

  // A load-reserved that raises no exception.
  predicate Reserves(ev: Event) { ev.LR? && OnBoundary(ev.va, ev.size) && ev.at != Exception }

  // A 64-bit sequence number, one further.
  function NextNo(n: nat): nat { (n + 1) % WORD }

  // A RAM store by h moves the global number and its own along.
  function Stored(s: State, h: nat, p: nat, size: nat, val: nat): State
    requires h < |s.res| && p + size <= |s.mem|
  {
    State(NextNo(s.memseqno),
          s.res[h := s.res[h].(seqno := NextNo(s.res[h].seqno))],
          Put(s.mem, p, size, val))
  }

  function Consumed(s: State, h: nat): State
    requires h < |s.res|
  {
    s.(res := s.res[h := s.res[h].(addr := NO_RESERVATION, seqno := 0)])
  }

  // What a write does that raises no exception.
  function Wrote(s: State, ev: Event): State
    requires !ev.LR? && EventOk(s, ev)
  {
    if ev.at.RamAt? then Stored(s, ev.h, ev.at.p, ev.size, ev.val) else s
  }

  // What a load-reserved leaves in its register.
  function Returned(mem: seq<nat>, size: nat, at: Target, device: nat): nat
    requires at.RamAt? ==> at.p + size <= |mem|
  {
    Extend(size, if at.RamAt? then WordAt(mem, at.p, size) else device)
  }

  function After(s: State, ev: Event): (s': State)
    requires EventOk(s, ev)
    ensures |s'.res| == |s.res| && |s'.mem| == |s.mem|
  {
    match ev
    case LR(h, va, size, at, device) =>
      if !Reserves(ev) then s
      else s.(res := s.res[h := Reservation(va, s.memseqno, Returned(s.mem, size, at, device), at, size)])
    case SC(h, va, size, val, at) =>
      // a misaligned address raises an exception
      if !OnBoundary(va, size) || !Succeeds(s, h, va) || at == Exception then s
      else Consumed(Wrote(s, ev), h)
    case Store(h, va, size, val, at) => Wrote(s, ev)
  }

  // ----- what happened, read off the trace -----

  ghost predicate TraceOk(s: State, evs: seq<Event>) {
    forall ev :: ev in evs ==> EventOk(s, ev)
  }

  ghost function Run(s: State, evs: seq<Event>): (s': State)
    requires TraceOk(s, evs)
    ensures |s'.res| == |s.res| && |s'.mem| == |s.mem|
  {
    if evs == [] then s
    else
      assert evs[|evs| - 1] in evs;
      After(Run(s, evs[..|evs| - 1]), evs[|evs| - 1])
  }

  // The last event of evs is a store-conditional that succeeds.
  ghost predicate Won(s: State, evs: seq<Event>)
    requires TraceOk(s, evs) && evs != []
  {
    var ev := evs[|evs| - 1];
    assert ev in evs;
    ev.SC? && OnBoundary(ev.va, ev.size) && ev.at != Exception && Succeeds(Run(s, evs[..|evs| - 1]), ev.h, ev.va)
  }

  // The last event of evs stores to RAM.
  ghost predicate StoresRam(s: State, evs: seq<Event>)
    requires TraceOk(s, evs) && evs != []
  {
    var ev := evs[|evs| - 1];
    !ev.LR? && ev.at.RamAt? && (ev.SC? ==> Won(s, evs))
  }

  // The address of h's latest load-reserved, unless a store-conditional of h succeeded since.
  // Reset leaves address 0 as if it were reserved.
  ghost function Held(s: State, evs: seq<Event>, h: nat): Option<nat>
    requires TraceOk(s, evs)
  {
    if evs == [] then Some(0)
    else
      var ev := evs[|evs| - 1];
      if Reserves(ev) && ev.h == h then Some(ev.va)
      else if ev.h == h && Won(s, evs) then None
      else Held(s, evs[..|evs| - 1], h)
  }

  // How many RAM stores other harts did since h's latest load-reserved.
  ghost function OthersSince(s: State, evs: seq<Event>, h: nat): nat
    requires TraceOk(s, evs)
  {
    if evs == [] || (Reserves(evs[|evs| - 1]) && evs[|evs| - 1].h == h) then 0
    else OthersSince(s, evs[..|evs| - 1], h) + if evs[|evs| - 1].h != h && StoresRam(s, evs) then 1 else 0
  }

  // ----- the invariant -----

  ghost predicate Reset(s: State) {
    s.memseqno == 0 && forall h :: 0 <= h < |s.res| ==> s.res[h].addr == 0 && s.res[h].seqno == 0
  }

  // A held reservation is the recorded one, and its number is behind by the stores of others.
  ghost predicate Tracks(r: Reservation, memseqno: nat, held: Option<nat>, others: nat) {
    && memseqno < WORD && r.seqno < WORD
    && match held
       case Some(a) => r.addr == a && (memseqno - r.seqno - others) % WORD == 0
       case None => r.addr == NO_RESERVATION
  }

  // Both numbers, or only the first, one further around.
  lemma OneFurther(a: nat, b: nat, n: nat)
    requires a < WORD && b < WORD && (a - b - n) % WORD == 0
    ensures ((a + 1) % WORD - b - (n + 1)) % WORD == 0
    ensures ((a + 1) % WORD - (b + 1) % WORD - n) % WORD == 0
  {
    assert (a + 1) % WORD == a + 1 || ((a + 1) % WORD == 0 && a + 1 == WORD);
    assert (b + 1) % WORD == b + 1 || ((b + 1) % WORD == 0 && b + 1 == WORD);
  }

  lemma StepTracks(r: Reservation, memseqno: nat, held: Option<nat>, others: nat)
    requires Tracks(r, memseqno, held, others)
    ensures Tracks(r, NextNo(memseqno), held, others + 1)
    ensures Tracks(r.(seqno := NextNo(r.seqno)), NextNo(memseqno), held, others)
    ensures NextNo(memseqno) < WORD && memseqno < WORD
  {
    if held.Some? { OneFurther(memseqno, r.seqno, others); }
  }

  // A new load-reserved, and a consumed reservation.
  lemma SetTracks(va: nat, loaded: nat, from: Target, width: nat, memseqno: nat, others: nat)
    requires memseqno < WORD
    ensures Tracks(Reservation(va, memseqno, loaded, from, width), memseqno, Some(va), 0)
    ensures Tracks(Reservation(NO_RESERVATION, 0, loaded, from, width), memseqno, None, others)
  {}

  lemma {:induction false} RunTracks(s: State, evs: seq<Event>, h: nat)
    requires Reset(s) && TraceOk(s, evs) && h < |s.res|
    ensures var t := Run(s, evs);
      Tracks(t.res[h], t.memseqno, Held(s, evs, h), OthersSince(s, evs, h))
  {
    if evs != [] {
      hide Tracks, WordAt, Put, Extend, NextNo;
      var pre, ev := evs[..|evs| - 1], evs[|evs| - 1];
      RunTracks(s, pre, h);
      var t := Run(s, pre);
      assert ev in evs;
      StepTracks(t.res[h], t.memseqno, Held(s, pre, h), OthersSince(s, pre, h));
      var u := Run(s, evs);
      SetTracks(ev.va, u.res[h].loaded, u.res[h].from, u.res[h].width, u.memseqno, OthersSince(s, evs, h));
    }
  }

  /** Safety: a store-conditional succeeds exactly when its address is the one held, and the RAM
      stores of other harts since are a multiple of 2^64. */
  lemma ScSafe(s: State, evs: seq<Event>, h: nat, va: nat)
    requires Reset(s) && TraceOk(s, evs) && h < |s.res| && va < WORD && va % 4 == 0
    ensures Succeeds(Run(s, evs), h, va) <==>
              Held(s, evs, h) == Some(va) && OthersSince(s, evs, h) % WORD == 0
  {
    hide Run, Held, OthersSince;
    RunTracks(s, evs, h);
    var t := Run(s, evs);
    SeqnoAgrees(t.memseqno, t.res[h].seqno, OthersSince(s, evs, h));
  }

  /** So with fewer than 2^64 such stores, it succeeds exactly when no other hart stored. */
  lemma ScAtomic(s: State, evs: seq<Event>, h: nat, va: nat)
    requires Reset(s) && TraceOk(s, evs) && h < |s.res| && va < WORD && va % 4 == 0
    requires OthersSince(s, evs, h) < WORD
    ensures Succeeds(Run(s, evs), h, va) <==> Held(s, evs, h) == Some(va) && OthersSince(s, evs, h) == 0
  {
    hide Run, Held, OthersSince, Reset;
    ScSafe(s, evs, h, va);
    SmallMultiple(OthersSince(s, evs, h));
  }

  // Event j of the trace is the load-reserved of h that holds va: no later one, and not consumed.
  ghost predicate HeldBy(s: State, evs: seq<Event>, h: nat, va: nat, j: int)
    requires TraceOk(s, evs)
  {
    && 0 <= j < |evs| && Reserves(evs[j]) && evs[j].h == h && evs[j].va == va
    && forall k :: j < k < |evs| ==> evs[k].h == h ==> !Reserves(evs[k]) && !WonAt(s, evs, k)
  }

  ghost predicate WonAt(s: State, evs: seq<Event>, k: int)
    requires TraceOk(s, evs) && 0 <= k < |evs|
  {
    assert TraceOk(s, evs[..k + 1]);
    Won(s, evs[..k + 1])
  }

  /** An address other than 0 is held exactly by a load-reserved of the hart that is its latest and
      that no successful store-conditional of the hart has consumed. */
  lemma {:induction false} HeldIff(s: State, evs: seq<Event>, h: nat, va: nat)
    requires TraceOk(s, evs) && va != 0
    ensures Held(s, evs, h) == Some(va) <==> exists j :: HeldBy(s, evs, h, va, j)
  {
    hide Won;
    if evs != [] {
      var pre, ev, n := evs[..|evs| - 1], evs[|evs| - 1], |evs| - 1;
      HeldIff(s, pre, h, va);
      assert evs[..n + 1] == evs;
      forall j | 0 <= j < n ensures HeldBy(s, evs, h, va, j) <==>
          HeldBy(s, pre, h, va, j) && !(ev.h == h && (Reserves(ev) || Won(s, evs))) {
        HeldByPrefix(s, evs, h, va, j);
      }
      if Reserves(ev) && ev.h == h && ev.va == va { assert HeldBy(s, evs, h, va, n); }
      if exists j :: HeldBy(s, pre, h, va, j) {
        var j :| HeldBy(s, pre, h, va, j);
        assert 0 <= j < n;
      }
    }
  }

  lemma HeldByPrefix(s: State, evs: seq<Event>, h: nat, va: nat, j: int)
    requires TraceOk(s, evs) && 0 <= j < |evs| - 1
    ensures HeldBy(s, evs, h, va, j) <==>
      HeldBy(s, evs[..|evs| - 1], h, va, j) &&
      !(evs[|evs| - 1].h == h && (Reserves(evs[|evs| - 1]) || Won(s, evs)))
  {
    hide Won;
    var pre, n := evs[..|evs| - 1], |evs| - 1;
    assert evs[..n + 1] == evs;
    forall k | 0 <= k < n ensures pre[k] == evs[k] && WonAt(s, pre, k) == WonAt(s, evs, k) {
      assert pre[..k + 1] == evs[..k + 1];
    }
    assert WonAt(s, evs, n) == Won(s, evs);
  }

  /** The exception: straight after reset, with no load-reserved at all, a store-conditional to
      address 0 succeeds. */
  lemma ResetReservesZero(s: State, h: nat)
    requires Reset(s) && h < |s.res|
    ensures Succeeds(Run(s, []), h, 0)
  {}

  lemma SmallMultiple(n: nat)
    requires n < WORD
    ensures n % WORD == 0 <==> n == 0
  {}

  lemma SeqnoAgrees(a: nat, b: nat, n: nat)
    requires a < WORD && b < WORD
    ensures (a - b - n) % WORD == 0 ==> (a == b <==> n % WORD == 0)
  {}

  // ----- a counter updated by load-reserved, add one, store-conditional -----

  ghost function StoreCount(s: State, evs: seq<Event>): nat
    requires TraceOk(s, evs)
  {
    if evs == [] then 0
    else StoreCount(s, evs[..|evs| - 1]) + if StoresRam(s, evs) then 1 else 0
  }

  // Successful store-conditionals to the word at x.
  ghost function Wins(s: State, evs: seq<Event>, x: nat): nat
    requires TraceOk(s, evs)
  {
    if evs == [] then 0
    else
      var ev := evs[|evs| - 1];
      Wins(s, evs[..|evs| - 1], x) + if Won(s, evs) && ev.at == RamAt(x) then 1 else 0
  }

  // An event that writes bytes of the word of n bytes at x, if it writes at all.
  predicate Aims(ev: Event, x: nat, n: nat) { !ev.LR? && ev.at.RamAt? && Overlap(ev.at.p, ev.size, x, n) }

  // A store-conditional of one more than the hart's latest load-reserved returned, of the same n bytes,
  // through an address other than the reset value. Only the low n bytes of the value count.
  predicate Increments(ev: Event, r: Reservation, x: nat, n: nat) {
    && ev.SC? && ev.at == RamAt(x) && ev.size == n && 0 < ev.va < WORD
    && r.from == RamAt(x) && r.width == n && ev.val % LE.Base(n) == (r.loaded + 1) % LE.Base(n)
  }

  // No byte of the word is written in any other way.
  ghost predicate Disciplined(s: State, evs: seq<Event>, x: nat, n: nat)
    requires TraceOk(s, evs)
  {
    evs != [] ==>
      var pre, ev := evs[..|evs| - 1], evs[|evs| - 1];
      && Disciplined(s, pre, x, n)
      && (Aims(ev, x, n) ==> ev.h < |s.res| && Increments(ev, Run(s, pre).res[ev.h], x, n))
  }

  lemma {:induction false} OthersBounded(s: State, evs: seq<Event>, h: nat)
    requires TraceOk(s, evs)
    ensures OthersSince(s, evs, h) <= StoreCount(s, evs)
  {
    if evs != [] { OthersBounded(s, evs[..|evs| - 1], h); }
  }

  // A reservation of x that no other hart has broken still holds the word at x.
  ghost predicate Fresh(s: State, evs: seq<Event>, x: nat, n: nat, h: nat)
    requires TraceOk(s, evs) && h < |s.res| && x + n <= |s.mem|
  {
    var held, t := Held(s, evs, h), Run(s, evs);
    held.Some? && held.value != 0 && t.res[h].from == RamAt(x) && t.res[h].width == n && OthersSince(s, evs, h) == 0 ==>
      t.res[h].loaded == Extend(n, WordAt(t.mem, x, n))
  }

  // What an event does not aim at stays.
  lemma NotAimed(s: State, ev: Event, x: nat, n: nat)
    requires EventOk(s, ev) && !Aims(ev, x, n) && x + n <= |s.mem|
    ensures WordAt(After(s, ev).mem, x, n) == WordAt(s.mem, x, n)
  {
    hide WordAt, Put, Extend;
    if !ev.LR? && ev.at.RamAt? { PutOther(s.mem, ev.at.p, ev.size, ev.val, x, n); }
  }

  lemma {:induction false} RunFresh(s: State, evs: seq<Event>, x: nat, n: nat, h: nat)
    requires Reset(s) && TraceOk(s, evs) && h < |s.res| && x + n <= |s.mem| && Disciplined(s, evs, x, n)
    ensures Fresh(s, evs, x, n, h)
  {
    hide WordAt, Put, Extend, LE.Base;
    if evs != [] {
      var pre, ev := evs[..|evs| - 1], evs[|evs| - 1];
      RunFresh(s, pre, x, n, h);
      assert ev in evs;
      if !Aims(ev, x, n) { NotAimed(Run(s, pre), ev, x, n); }
    }
  }

  // One event adds one to the word exactly if it is a successful store-conditional to it.
  lemma CounterStep(s: State, evs: seq<Event>, x: nat, n: nat)
    requires Reset(s) && TraceOk(s, evs) && SizeOk(n) && x + n <= |s.mem| && evs != []
    requires Disciplined(s, evs, x, n) && StoreCount(s, evs) < WORD
    requires WordAt(Run(s, evs[..|evs| - 1]).mem, x, n) < LE.Base(n)
    ensures var m := WordAt(Run(s, evs[..|evs| - 1]).mem, x, n);
      WordAt(Run(s, evs).mem, x, n) ==
      if Won(s, evs) && evs[|evs| - 1].at == RamAt(x) then (m + 1) % LE.Base(n) else m
  {
    hide Held, OthersSince, Reset, WordAt, Put, Extend, LE.Base;
    var pre, ev := evs[..|evs| - 1], evs[|evs| - 1];
    assert ev in evs;
    if Won(s, evs) && ev.at == RamAt(x) {
      assert Aims(ev, x, n);
      WinnerCurrent(s, evs, x, n);
      PutSame(Run(s, pre).mem, x, n, ev.val);
    } else if !Aims(ev, x, n) {
      NotAimed(Run(s, pre), ev, x, n);
    }
  }

  // A store-conditional that succeeds on the word writes one more than the word is.
  lemma WinnerCurrent(s: State, evs: seq<Event>, x: nat, n: nat)
    requires Reset(s) && TraceOk(s, evs) && SizeOk(n) && x + n <= |s.mem| && evs != []
    requires Disciplined(s, evs, x, n) && StoreCount(s, evs) < WORD
    requires Won(s, evs) && evs[|evs| - 1].at == RamAt(x) && Aims(evs[|evs| - 1], x, n)
    ensures evs[|evs| - 1].val % LE.Base(n) == (WordAt(Run(s, evs[..|evs| - 1]).mem, x, n) + 1) % LE.Base(n)
  {
    hide Held, OthersSince, Reset, Run, Disciplined, StoreCount, Won, WordAt, Extend, LE.Base;
    var pre, ev := evs[..|evs| - 1], evs[|evs| - 1];
    LastWin(s, evs, x, n);
    OthersBounded(s, pre, ev.h);
    ScAtomic(s, pre, ev.h, ev.va);
    RunFresh(s, pre, x, n, ev.h);
    var w := WordAt(Run(s, pre).mem, x, n);
    ExtendKeeps(n, w);
    SameNext(Extend(n, w), w, LE.Base(n));
  }

  lemma SameNext(a: nat, b: nat, n: pos)
    requires a % n == b % n
    ensures (a + 1) % n == (b + 1) % n
  {
    ModNext(a, n);
    ModNext(b, n);
  }

  lemma ModNext(a: nat, n: pos)
    ensures (a + 1) % n == if a % n == n - 1 then 0 else a % n + 1
  {
    DivMod(a, n);
    if a % n == n - 1 {
      Distribute(a / n, 1, n);
      DivUnique(a + 1, n, a / n + 1, 0);
    } else {
      DivUnique(a + 1, n, a / n, a % n + 1);
    }
  }

  lemma LastWin(s: State, evs: seq<Event>, x: nat, n: nat)
    requires TraceOk(s, evs) && evs != [] && Disciplined(s, evs, x, n)
    requires Won(s, evs) && Aims(evs[|evs| - 1], x, n)
    ensures var pre, ev := evs[..|evs| - 1], evs[|evs| - 1];
      && ev.SC? && ev.h < |s.res| && ev.va % 4 == 0
      && Disciplined(s, pre, x, n) && StoreCount(s, pre) <= StoreCount(s, evs)
      && Succeeds(Run(s, pre), ev.h, ev.va) && Increments(ev, Run(s, pre).res[ev.h], x, n)
  {
    hide Run, LE.Base, Increments, Overlap, WordAt, Put, Extend;
    assert evs[|evs| - 1] in evs;
  }

  lemma OneMore(a: nat, w: nat, n: pos)
    ensures ((a + w) % n + 1) % n == (a + (w + 1)) % n
  {
    DivMod(a + w, n);
    DivUnique((a + w) % n, n, 0, (a + w) % n);
    SameNext((a + w) % n, a + w, n);
  }

  /** Atomicity: under every interleaving with fewer than 2^64 RAM stores, a 32- or 64-bit word is its
      start plus the number of successful store-conditionals, modulo its size. */
  lemma {:induction false} CounterExact(s: State, evs: seq<Event>, x: nat, n: nat)
    requires Reset(s) && TraceOk(s, evs) && SizeOk(n) && x + n <= |s.mem| && WordAt(s.mem, x, n) < LE.Base(n)
    requires Disciplined(s, evs, x, n) && StoreCount(s, evs) < WORD
    ensures WordAt(Run(s, evs).mem, x, n) == (WordAt(s.mem, x, n) + Wins(s, evs, x)) % LE.Base(n)
  {
    hide Reset, Run, Won, StoresRam, WordAt, LE.Base;
    var a := WordAt(s.mem, x, n);
    if evs == [] {
      StartOfRun(s);
      DivUnique(a, LE.Base(n), 0, a);
    } else {
      CounterExact(s, evs[..|evs| - 1], x, n);
      DivMod(a + Wins(s, evs[..|evs| - 1], x), LE.Base(n));
      CounterStep(s, evs, x, n);
      OneMore(a, Wins(s, evs[..|evs| - 1], x), LE.Base(n));
    }
  }

  lemma StartOfRun(s: State)
    ensures Run(s, []) == s
  {}

  // A load-reserved through one translation, then a store-conditional through another.
  function Remapped(h: nat, va: nat, n: nat, a: nat, b: nat, val: nat): seq<Event> {
    [LR(h, va, n, RamAt(a), 0), SC(h, va, n, val, RamAt(b))]
  }

  /** Why the discipline names the place: what is reserved is the virtual address. If its translation
      changes before the store-conditional, that succeeds and writes a word nobody reserved, and the
      count of that word is right only if both words were the same. */
  lemma RemapWrites(s: State, h: nat, va: nat, n: nat, a: nat, b: nat)
    requires Reset(s) && h < |s.res| && OnBoundary(va, n) && a + n <= |s.mem| && b + n <= |s.mem|
    requires WordAt(s.mem, a, n) < LE.Base(n) && WordAt(s.mem, b, n) < LE.Base(n)
    ensures var val := Extend(n, WordAt(s.mem, a, n)) + 1; var evs := Remapped(h, va, n, a, b, val);
      && TraceOk(s, evs) && Won(s, evs) && Wins(s, evs, b) == 1 && Run(s, evs).mem == Put(s.mem, b, n, val)
      && (WordAt(Run(s, evs).mem, b, n) == (WordAt(s.mem, b, n) + 1) % LE.Base(n)
          <==> WordAt(s.mem, a, n) == WordAt(s.mem, b, n))
  {
    hide WordAt, Put, Extend, LE.Base;
    var wa, wb := WordAt(s.mem, a, n), WordAt(s.mem, b, n);
    var val := Extend(n, wa) + 1;
    RemapRun(s, h, va, n, a, b, val);
    PutSame(s.mem, b, n, val);
    ExtendKeeps(n, wa);
    ModNext(Extend(n, wa), LE.Base(n));
    ModNext(wb, LE.Base(n));
    DivUnique(wa, LE.Base(n), 0, wa);
    DivUnique(wb, LE.Base(n), 0, wb);
  }

  lemma RemapRun(s: State, h: nat, va: nat, n: nat, a: nat, b: nat, val: nat)
    requires Reset(s) && h < |s.res| && OnBoundary(va, n) && a + n <= |s.mem| && b + n <= |s.mem|
    ensures var evs := Remapped(h, va, n, a, b, val);
      TraceOk(s, evs) && Won(s, evs) && Wins(s, evs, b) == 1 && Run(s, evs).mem == Put(s.mem, b, n, val)
  {
    hide WordAt, Put, Extend;
    var evs := Remapped(h, va, n, a, b, val);
    var first := [evs[0]];
    assert evs[..1] == first && first[..0] == [];
    assert Run(s, first) == After(s, evs[0]);
    assert Wins(s, first, b) == 0;
  }

  /** A full 32-bit word goes round to zero, and an honest increment of it keeps the discipline. */
  lemma NarrowWraps(s: State, h: nat, va: nat, x: nat)
    requires Reset(s) && h < |s.res| && va % 4 == 0 && 0 < va < WORD && x + 4 <= |s.mem|
    requires WordAt(s.mem, x, 4) == W32 - 1
    ensures var evs := Remapped(h, va, 4, x, x, 0);
      TraceOk(s, evs) && Disciplined(s, evs, x, 4) && Won(s, evs) && WordAt(Run(s, evs).mem, x, 4) == 0
  {
    hide WordAt, Put;
    var evs := Remapped(h, va, 4, x, x, 0);
    RemapRun(s, h, va, 4, x, x, 0);
    PutSame(s.mem, x, 4, 0);
    Bases();
    var first := [evs[0]];
    assert evs[..1] == first && first[..0] == [];
    assert Run(s, first) == After(s, evs[0]);
    assert Disciplined(s, first, x, 4);
  }

  // ----- the operations on the harts' own state -----

  /** The reservations and the store counter of a machine. */
  class Machine {
    const mem: array<nat>
    const loadRes: array<nat>
    const loadResSeqno: array<nat>
    var memseqno: nat
    ghost var loaded: seq<nat>
    ghost var from: seq<Target>
    ghost var width: seq<nat>

    ghost predicate Valid()
      reads this, mem
    {
      && Bytes(mem[..]) && loadRes.Length == loadResSeqno.Length == |loaded| == |from| == |width|
      && mem != loadRes && mem != loadResSeqno && loadRes != loadResSeqno
    }

    ghost function View(): State
      requires Valid()
      reads this, mem, loadRes, loadResSeqno
    {
      State(memseqno,
            seq(loadRes.Length,
                h requires 0 <= h < loadRes.Length && Valid() reads this, mem, loadRes, loadResSeqno =>
                  Reservation(loadRes[h], loadResSeqno[h], loaded[h], from[h], width[h])),
            mem[..])
    }

    constructor (mem: array<nat>, ncpus: nat)
      requires Bytes(mem[..])
      ensures Valid() && Reset(View()) && this.mem == mem && |View().res| == ncpus
      ensures fresh(loadRes) && fresh(loadResSeqno)
    {
      this.mem, memseqno := mem, 0;
      loadRes := new nat[ncpus](_ => 0);
      loadResSeqno := new nat[ncpus](_ => 0);
      loaded := seq(ncpus, _ => 0);
      from := seq(ncpus, _ => NotRam);
      width := seq(ncpus, _ => 8);
    }

    /** lr.w, lr.d: None for an exception, else the word read, extended by its sign. */
    method LoadReserved(h: nat, va: nat, size: nat, at: Target, device: nat) returns (r: Option<nat>)
      requires Valid() && EventOk(View(), LR(h, va, size, at, device))
      modifies this`loaded, this`from, this`width, loadRes, loadResSeqno
      ensures Valid() && View() == After(old(View()), LR(h, va, size, at, device))
      ensures r.None? <==> (size == 4 && va % 4 != 0) || (size == 8 && va % 8 != 0) || at == Exception
      ensures r.Some? ==> r.value == Returned(mem[..], size, at, device) < WORD
      ensures r.Some? && size == 4 ==>
                Signed(r.value, WORD) == Signed(if at.RamAt? then FourAt(mem[..], at.p) else device % W32, W32)
      ensures r.Some? && size == 8 ==>
                Signed(r.value, WORD) == Signed(if at.RamAt? then EightAt(mem[..], at.p) else device % WORD, WORD)
    {
      hide WordAt, Extend, FourAt, EightAt, Signed;
      if !OnBoundary(va, size) || at == Exception { return None; }
      var val := Returned(mem[..], size, at, device);
      if at.RamAt? { WordBytes(mem[..], at.p); }
      ghost var w := if at.RamAt? then WordAt(mem[..], at.p, size) else device % if size == 4 then W32 else WORD;
      ExtendSigned(size, w);
      DeviceWord(size, device);
      loadRes[h] := va;
      loadResSeqno[h] := memseqno;
      loaded, from, width := loaded[h := val], from[h := at], width[h := size];
      return Some(val);
    }

    method PutBytes(p: nat, size: nat, val: nat)
      requires p + size <= mem.Length && Bytes(mem[..])
      modifies mem
      ensures Bytes(mem[..]) && mem[..] == Put(old(mem[..]), p, size, val)
    {
      var bs: seq<nat> := LE.Store(val, size);
      forall j | 0 <= j < size { mem[p + j] := bs[j]; }
      assert mem[p..p + size] == bs;
      assert mem[..] == mem[..p] + mem[p..p + size] + mem[p + size..];
    }

    /** target_write_u8 to target_write_u64: the low bytes of the value, and both numbers one further. */
    method Write(h: nat, va: nat, size: nat, val: nat, at: Target)
      requires Valid() && EventOk(View(), Event.Store(h, va, size, val, at))
      modifies this`memseqno, mem, loadResSeqno
      ensures Valid() && View() == After(old(View()), Event.Store(h, va, size, val, at))
    {
      hide Put;
      if at.RamAt? {
        PutBytes(at.p, size, val);
        memseqno := NextNo(memseqno);
        loadResSeqno[h] := NextNo(loadResSeqno[h]);
      }
    }

    /** sc.w, sc.d: None for an exception, else the result 0 or 1. */
    method StoreConditional(h: nat, va: nat, size: nat, val: nat, at: Target) returns (r: Option<nat>)
      requires Valid() && EventOk(View(), SC(h, va, size, val, at))
      modifies this`memseqno, mem, loadRes, loadResSeqno
      ensures Valid() && View() == After(old(View()), SC(h, va, size, val, at))
      ensures r == Some(0) <==> OnBoundary(va, size) && old(Succeeds(View(), h, va)) && at != Exception
      ensures r == Some(1) <==> OnBoundary(va, size) && !old(Succeeds(View(), h, va))
      ensures (size == 4 && va % 4 != 0) || (size == 8 && va % 8 != 0) ==> r == None
    {
      hide Put;
      if !OnBoundary(va, size) { return None; }
      if loadRes[h] == va && loadResSeqno[h] == memseqno {
        if at == Exception { return None; }
        Write(h, va, size, val, at);
        loadRes[h] := NO_RESERVATION;
        loadResSeqno[h] := 0;
        return Some(0);
      }
      return Some(1);
    }
  }
}
