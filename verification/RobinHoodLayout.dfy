// The layout of gold/robin_hood.hpp's Table as plain sequences: one info byte per
// slot packs the probe distance and a few hash bits. What every operation keeps.
module RobinHoodLayout {
  import opened Powers

  const INITIAL_INC := 32
  const INITIAL_SIZE := 8
  const LOAD := 80
  const SIZE_MAX := 0xFFFF_FFFF_FFFF_FFFF

  function CalcMax(n: nat): nat {
    if n <= SIZE_MAX / 100 then n * LOAD / 100 else n / 100 * LOAD
  }

  function NumWithBuffer(n: nat): nat {
    n + if CalcMax(n) < 0xFF then CalcMax(n) else 0xFF
  }

  // n buckets, the info increment inc, the hash bits dropped, and the two parallel arrays.
  datatype Layout<K> = Layout(n: nat, inc: nat, shift: nat, info: seq<int>, keys: seq<K>)

  function Home<K>(hash: K -> nat, n: pos, k: K): nat {
    DivMod(hash(k) / INITIAL_INC, n);
    hash(k) / INITIAL_INC % n
  }

  // The hash bits kept in the info byte: the low five without the lowest `shift` ones.
  function HashBits<K>(hash: K -> nat, shift: nat, k: K): nat {
    DivMod(hash(k) % INITIAL_INC, P2(shift));
    hash(k) % INITIAL_INC / P2(shift)
  }

  lemma KeyParts<K>(hash: K -> nat, n: pos, shift: nat, k: K)
    ensures Home(hash, n, k) == hash(k) / 32 % n && HashBits(hash, shift, k) == hash(k) % 32 / P2(shift)
  {
    hide P2;
  }

  predicate Packing(inc: nat, shift: nat) {
    (inc == 32 && shift == 0) || (inc == 16 && shift == 1) || (inc == 8 && shift == 2)
    || (inc == 4 && shift == 3) || (inc == 2 && shift == 4)
  }

  // The info a probe for k carries at slot p.
  function Probe<K>(hash: K -> nat, n: pos, inc: nat, shift: nat, k: K, p: int): int {
    inc * (p - Home(hash, n, k) + 1) + HashBits(hash, shift, k)
  }

  lemma ProbeStep<K>(hash: K -> nat, n: pos, inc: nat, shift: nat, k: K, p: int)
    ensures Probe(hash, n, inc, shift, k, p + 1) == Probe(hash, n, inc, shift, k, p) + inc
  {
    hide Home, HashBits;
    var d := p - Home(hash, n, k) + 1;
    assert inc * (d + 1) == inc * d + inc;
  }

  // At its home a probe carries less than two increments, and never less than one after it.
  lemma ProbeRange<K>(hash: K -> nat, n: pos, inc: nat, shift: nat, k: K, p: int)
    requires Packing(inc, shift)
    ensures 0 <= Home(hash, n, k) < n && 0 <= HashBits(hash, shift, k) < inc
    ensures inc <= Probe(hash, n, inc, shift, k, Home(hash, n, k)) < 2 * inc
    ensures p >= Home(hash, n, k) ==> Probe(hash, n, inc, shift, k, p) >= inc + inc * (p - Home(hash, n, k))
    ensures p > Home(hash, n, k) <==> Probe(hash, n, inc, shift, k, p) >= 2 * inc
  {
    P2Small();
    DivMod(hash(k) / INITIAL_INC, n);
    DivMod(hash(k) % INITIAL_INC, P2(shift));
    var d := p - Home(hash, n, k);
    assert inc * (d + 1) == inc * d + inc;
    if d >= 1 { MulMono(1, d, inc); }
    if d <= 0 { MulMono(0, -d, inc); assert inc * d == -(inc * -d); }
  }

  ghost predicate Sized<K>(v: Layout<K>) {
    && v.n >= INITIAL_SIZE && Packing(v.inc, v.shift)
    && |v.keys| == NumWithBuffer(v.n) && |v.info| == |v.keys| + 8
    // sentinel and padding
    && v.info[|v.keys|] == 1
    && (forall p :: |v.keys| < p < |v.info| ==> v.info[p] == 0)
  }

  ghost predicate Used<K>(v: Layout<K>, p: int) { 0 <= p < |v.keys| && p < |v.info| && v.info[p] != 0 }

  // Slot p holds a key that pos places there, with the info the probe for it would carry.
  ghost predicate SlotOk<K>(hash: K -> nat, v: Layout<K>, pos: map<K, int>, p: int)
    requires Sized(v) && Used(v, p)
  {
    && v.keys[p] in pos && pos[v.keys[p]] == p
    && Home(hash, v.n, v.keys[p]) <= p
    && v.info[p] == Probe(hash, v.n, v.inc, v.shift, v.keys[p], p) <= 0xFF
  }

  // Along a run the info never rises by more than one step.
  ghost predicate PathOk<K>(v: Layout<K>, p: int)
    requires Used(v, p)
  {
    v.info[p] >= 2 * v.inc ==> p > 0 && v.info[p - 1] >= v.info[p] - v.inc
  }

  ghost predicate KeyOk<K>(v: Layout<K>, pos: map<K, int>, k: K)
    requires k in pos
  {
    Used(v, pos[k]) && v.keys[pos[k]] == k
  }

  /** The invariant of the table; the path condition is what lets a search stop at the
      first info below its probe. */
  ghost predicate Inv<K(!new)>(hash: K -> nat, v: Layout<K>, pos: map<K, int>) {
    && Sized(v)
    && (forall p :: Used(v, p) ==> SlotOk(hash, v, pos, p) && PathOk(v, p))
    && (forall k :: k in pos ==> KeyOk(v, pos, k))
  }

  // Every slot from the home of a key to its position carries at least the key's probe.
  lemma {:induction false} PathInfo<K(!new)>(hash: K -> nat, v: Layout<K>, pos: map<K, int>, k: K, p: int)
    requires Inv(hash, v, pos) && k in pos
    requires Home(hash, v.n, k) <= p <= pos[k]
    ensures v.info[p] >= Probe(hash, v.n, v.inc, v.shift, k, p) >= v.inc
    decreases pos[k] - p
  {
    hide Home, Probe;
    ProbeRange(hash, v.n, v.inc, v.shift, k, p);
    MulMono(0, p - Home(hash, v.n, k), v.inc);
    assert KeyOk(v, pos, k) && SlotOk(hash, v, pos, pos[k]);
    if p < pos[k] {
      PathInfo(hash, v, pos, k, p + 1);
      ProbeStep(hash, v.n, v.inc, v.shift, k, p);
      assert KeyOk(v, pos, k) && Used(v, p + 1) && PathOk(v, p + 1);
    }
  }

  /** A search that has come to slot p without finding k may stop if the info there is
      below its probe: k is not in the table. */
  lemma SearchMayStop<K(!new)>(hash: K -> nat, v: Layout<K>, pos: map<K, int>, k: K, p: int)
    requires Inv(hash, v, pos) && Home(hash, v.n, k) <= p < |v.info|
    requires k in pos ==> p <= pos[k]
    requires v.info[p] < Probe(hash, v.n, v.inc, v.shift, k, p)
    ensures k !in pos
  {
    hide Home, Probe;
    if k in pos { PathInfo(hash, v, pos, k, p); }
  }

  // A probe that is not above the info it meets is still inside the table.
  lemma ProbeInside<K(!new)>(hash: K -> nat, v: Layout<K>, pos: map<K, int>, k: K, p: int)
    requires Inv(hash, v, pos) && Home(hash, v.n, k) <= p < |v.info|
    requires Probe(hash, v.n, v.inc, v.shift, k, p) <= v.info[p]
    ensures p < |v.keys|
  {
    hide Home, Probe;
    ProbeRange(hash, v.n, v.inc, v.shift, k, p);
    MulMono(0, p - Home(hash, v.n, k), v.inc);
  }

  // ----- insertion -----

  // v' is v with slots ins..e-1 moved up by one and key k with info x put at ins.
  ghost predicate Inserted<K>(v: Layout<K>, v': Layout<K>, ins: int, e: int, k: K, x: int) {
    && v'.n == v.n && v'.inc == v.inc && v'.shift == v.shift
    && |v'.keys| == |v.keys| && |v'.info| == |v.info|
    && 0 <= ins <= e < |v.keys| < |v.info|
    && (forall p {:trigger v'.info[p]} :: 0 <= p < |v.info| ==>
          v'.info[p] == if p == ins then x else if ins < p <= e then v.info[p - 1] + v.inc else v.info[p])
    && (forall p {:trigger v'.keys[p]} :: 0 <= p < |v.keys| ==>
          v'.keys[p] == if p == ins then k else if ins < p <= e then v.keys[p - 1] else v.keys[p])
  }

  ghost function InsertedPos<K>(pos: map<K, int>, ins: int, e: int, k: K): map<K, int> {
    map key | key in pos.Keys + {k} ::
      if key == k then ins else if ins <= pos[key] < e then pos[key] + 1 else pos[key]
  }

  // ins is where a new key k belongs: the probe is above the info there, not before.
  ghost predicate InsertionPoint<K>(hash: K -> nat, v: Layout<K>, k: K, ins: int, x: int) {
    && v.n > 0 && Home(hash, v.n, k) <= ins < |v.info|
    && x == Probe(hash, v.n, v.inc, v.shift, k, ins)
    && v.info[ins] < x
    && (ins == Home(hash, v.n, k) || v.info[ins - 1] >= x - v.inc)
  }

  ghost predicate CanInsert<K(!new)>(hash: K -> nat, v: Layout<K>, v': Layout<K>, pos: map<K, int>, k: K, x: int,
                                     ins: int, e: int) {
    && Inv(hash, v, pos) && k !in pos
    && InsertionPoint(hash, v, k, ins, x) && x <= 0xFF
    && Inserted(v, v', ins, e, k, x)
    && v.info[e] == 0
    && (forall p :: ins <= p < e ==> v.info[p] != 0 && v.info[p] + v.inc <= 0xFF)
  }

  /** Robin-hood insertion keeps the invariant. */
  lemma InsertKeeps<K(!new)>(hash: K -> nat, v: Layout<K>, v': Layout<K>, pos: map<K, int>, k: K, x: int, ins: int,
                             e: int)
    requires CanInsert(hash, v, v', pos, k, x, ins, e)
    ensures Inv(hash, v', InsertedPos(pos, ins, e, k))
  {
    hide Home, Probe, HashBits, SlotOk, PathOk, KeyOk, CanInsert;
    InsertedSized(hash, v, v', pos, k, x, ins, e);
    var pos' := InsertedPos(pos, ins, e, k);
    forall p | Used(v', p) ensures SlotOk(hash, v', pos', p) && PathOk(v', p) {
      InsertedSlot(hash, v, v', pos, k, x, ins, e, p);
      InsertedPath(hash, v, v', pos, k, x, ins, e, p);
    }
    forall key | key in pos' ensures KeyOk(v', pos', key) {
      InsertedKey(hash, v, v', pos, k, x, ins, e, key);
    }
  }

  lemma InsertedSized<K(!new)>(hash: K -> nat, v: Layout<K>, v': Layout<K>, pos: map<K, int>, k: K, x: int, ins: int,
                               e: int)
    requires CanInsert(hash, v, v', pos, k, x, ins, e)
    ensures Sized(v')
  {
    hide Home, Probe, HashBits, SlotOk, PathOk, KeyOk;
  }

  lemma InsertedSlot<K(!new)>(hash: K -> nat, v: Layout<K>, v': Layout<K>, pos: map<K, int>, k: K, x: int, ins: int,
                              e: int, p: int)
    requires CanInsert(hash, v, v', pos, k, x, ins, e)
    requires Sized(v') && Used(v', p)
    ensures SlotOk(hash, v', InsertedPos(pos, ins, e, k), p)
  {
    hide Home, Probe, HashBits, PathOk, KeyOk;
    if ins < p <= e {
      assert Used(v, p - 1);
      ProbeStep(hash, v.n, v.inc, v.shift, v.keys[p - 1], p - 1);
    } else if p != ins {
      assert Used(v, p);
    }
  }

  lemma InsertedKey<K(!new)>(hash: K -> nat, v: Layout<K>, v': Layout<K>, pos: map<K, int>, k: K, x: int, ins: int,
                             e: int, key: K)
    requires CanInsert(hash, v, v', pos, k, x, ins, e)
    requires key in InsertedPos(pos, ins, e, k)
    ensures KeyOk(v', InsertedPos(pos, ins, e, k), key)
  {
    hide Home, Probe, HashBits, SlotOk, PathOk;
    ProbeRange(hash, v.n, v.inc, v.shift, k, ins);
    MulMono(0, ins - Home(hash, v.n, k), v.inc);
    if key != k {
      assert KeyOk(v, pos, key);
      var p := pos[key];
      if ins <= p < e {
        assert v'.info[p + 1] == v.info[p] + v.inc;
        assert v.info[p] > 0 by { UsedPositive(hash, v, pos, p); }
      }
    }
  }

  lemma UsedPositive<K(!new)>(hash: K -> nat, v: Layout<K>, pos: map<K, int>, p: int)
    requires Inv(hash, v, pos) && Used(v, p)
    ensures v.inc <= v.info[p] <= 0xFF && v.inc >= 2
  {
    hide Home, Probe, HashBits, PathOk, KeyOk;
    assert SlotOk(hash, v, pos, p);
    ProbeRange(hash, v.n, v.inc, v.shift, v.keys[p], p);
    MulMono(0, p - Home(hash, v.n, v.keys[p]), v.inc);
  }

  // The path condition at slot p after an insertion.
  lemma InsertedPath<K(!new)>(hash: K -> nat, v: Layout<K>, v': Layout<K>, pos: map<K, int>, k: K, x: int, ins: int,
                              e: int, p: int)
    requires CanInsert(hash, v, v', pos, k, x, ins, e)
    requires Used(v', p)
    ensures PathOk(v', p)
  {
    hide Home, Probe, HashBits, SlotOk, KeyOk;
    ProbeRange(hash, v.n, v.inc, v.shift, k, ins);
    if p < ins || p > e {
      assert Used(v, p);
      assert PathOk(v, p);
      if p == e + 1 { UsedPositive(hash, v, pos, p); }
    } else if p > ins + 1 {
      assert Used(v, p - 1) && Used(v, p - 2);
      assert PathOk(v, p - 1);
      UsedPositive(hash, v, pos, p - 2);
    }
  }

  // ----- removal -----

  // v' is v with slots i+1..e moved down by one over slot i, and slot e emptied.
  ghost predicate Removed<K>(v: Layout<K>, v': Layout<K>, i: int, e: int) {
    && v'.n == v.n && v'.inc == v.inc && v'.shift == v.shift
    && |v'.keys| == |v.keys| && |v'.info| == |v.info|
    && 0 <= i <= e < |v.keys| < |v.info|
    && (forall p {:trigger v'.info[p]} :: 0 <= p < |v.info| ==>
          v'.info[p] == if p == e then 0 else if i <= p < e then v.info[p + 1] - v.inc else v.info[p])
    && (forall p {:trigger v'.keys[p]} :: 0 <= p < |v.keys| && p != e ==>
          v'.keys[p] == if i <= p < e then v.keys[p + 1] else v.keys[p])
  }

  ghost function RemovedPos<K>(pos: map<K, int>, i: int, e: int, k: K): map<K, int> {
    map key | key in pos.Keys - {k} :: if i < pos[key] <= e then pos[key] - 1 else pos[key]
  }

  ghost predicate CanRemove<K(!new)>(hash: K -> nat, v: Layout<K>, v': Layout<K>, pos: map<K, int>, k: K, i: int,
                                     e: int) {
    && Inv(hash, v, pos) && k in pos && pos[k] == i
    && Removed(v, v', i, e)
    && (forall p :: i < p <= e ==> v.info[p] >= 2 * v.inc)
    && v.info[e + 1] < 2 * v.inc
  }

  /** Backward-shift deletion keeps the invariant. */
  lemma RemoveKeeps<K(!new)>(hash: K -> nat, v: Layout<K>, v': Layout<K>, pos: map<K, int>, k: K, i: int, e: int)
    requires CanRemove(hash, v, v', pos, k, i, e)
    ensures Inv(hash, v', RemovedPos(pos, i, e, k))
  {
    hide Home, Probe, HashBits, SlotOk, PathOk, KeyOk, CanRemove;
    RemovedSized(hash, v, v', pos, k, i, e);
    var pos' := RemovedPos(pos, i, e, k);
    forall p | Used(v', p) ensures SlotOk(hash, v', pos', p) && PathOk(v', p) {
      RemovedSlot(hash, v, v', pos, k, i, e, p);
      RemovedPath(hash, v, v', pos, k, i, e, p);
    }
    forall key | key in pos' ensures KeyOk(v', pos', key) {
      RemovedKey(hash, v, v', pos, k, i, e, key);
    }
  }

  lemma RemovedSized<K(!new)>(hash: K -> nat, v: Layout<K>, v': Layout<K>, pos: map<K, int>, k: K, i: int, e: int)
    requires CanRemove(hash, v, v', pos, k, i, e)
    ensures Sized(v')
  {
    hide Home, Probe, HashBits, SlotOk, PathOk, KeyOk;
  }

  lemma RemovedSlot<K(!new)>(hash: K -> nat, v: Layout<K>, v': Layout<K>, pos: map<K, int>, k: K, i: int, e: int,
                             p: int)
    requires CanRemove(hash, v, v', pos, k, i, e)
    requires Sized(v') && Used(v', p)
    ensures SlotOk(hash, v', RemovedPos(pos, i, e, k), p)
  {
    hide Home, Probe, HashBits, PathOk, KeyOk;
    if i <= p < e {
      assert Used(v, p + 1);
      assert SlotOk(hash, v, pos, p + 1);
      ProbeStep(hash, v.n, v.inc, v.shift, v.keys[p + 1], p);
      ProbeRange(hash, v.n, v.inc, v.shift, v.keys[p + 1], p + 1);
    } else {
      assert Used(v, p);
      assert SlotOk(hash, v, pos, p);
    }
  }

  lemma RemovedPath<K(!new)>(hash: K -> nat, v: Layout<K>, v': Layout<K>, pos: map<K, int>, k: K, i: int, e: int,
                             p: int)
    requires CanRemove(hash, v, v', pos, k, i, e)
    requires Used(v', p)
    ensures PathOk(v', p)
  {
    hide Home, Probe, HashBits, SlotOk, KeyOk;
    if i <= p < e {
      assert Used(v, p + 1);
      assert PathOk(v, p + 1);
      UsedPositive(hash, v, pos, p + 1);
      assert Used(v, p) && PathOk(v, p);
    } else {
      assert Used(v, p);
      assert PathOk(v, p);
    }
  }

  lemma RemovedKey<K(!new)>(hash: K -> nat, v: Layout<K>, v': Layout<K>, pos: map<K, int>, k: K, i: int, e: int, key: K)
    requires CanRemove(hash, v, v', pos, k, i, e)
    requires key in RemovedPos(pos, i, e, k)
    ensures KeyOk(v', RemovedPos(pos, i, e, k), key)
  {
    hide Home, Probe, HashBits, SlotOk, PathOk;
    assert KeyOk(v, pos, key) && KeyOk(v, pos, k);
    var p := pos[key];
    UsedPositive(hash, v, pos, p);
    if i < p <= e {
      assert v'.info[p - 1] == v.info[p] - v.inc;
    }
  }

  // ----- narrowing the info bytes -----

  // All info bytes halved, the sentinel kept.
  ghost predicate Halved<K>(v: Layout<K>, v': Layout<K>) {
    && v'.n == v.n && 2 * v'.inc == v.inc && v'.shift == v.shift + 1
    && v'.keys == v.keys && |v'.info| == |v.info| == |v.keys| + 8
    && (forall p {:trigger v'.info[p]} :: 0 <= p < |v.info| ==>
          v'.info[p] == if p == |v.keys| then 1 else v.info[p] / 2)
  }

  lemma HalfProbe<K>(hash: K -> nat, n: pos, inc: nat, shift: nat, k: K, p: int)
    requires Packing(inc, shift) && inc >= 4
    ensures Packing(inc / 2, shift + 1)
    ensures Probe(hash, n, inc, shift, k, p) / 2 == Probe(hash, n, inc / 2, shift + 1, k, p)
  {
    hide Home;
    var h, d := hash(k) % INITIAL_INC, p - Home(hash, n, k) + 1;
    assert P2(shift + 1) == 2 * P2(shift);
    DivDiv(h, P2(shift), 2);
    assert HashBits(hash, shift + 1, k) == HashBits(hash, shift, k) / 2;
    assert inc * d == 2 * (inc / 2 * d) by { Assoc(2, inc / 2, d); }
  }

  /** Halving every byte gives each slot the info keyToIdx computes with the narrower
      layout: lookups are unchanged. */
  lemma HalveKeeps<K(!new)>(hash: K -> nat, v: Layout<K>, v': Layout<K>, pos: map<K, int>)
    requires Inv(hash, v, pos) && v.inc > 2
    requires Halved(v, v')
    ensures Inv(hash, v', pos)
    ensures forall p :: 0 <= p < |v.keys| ==> v'.info[p] + v'.inc <= 0xFF
  {
    hide Home, Probe, HashBits;
    forall p | 0 <= p < |v.keys|
      ensures v'.info[p] + v'.inc <= 0xFF
      ensures Used(v, p) <==> Used(v', p)
      ensures Used(v', p) ==> SlotOk(hash, v', pos, p) && PathOk(v', p)
    {
      assert v'.info[p] == v.info[p] / 2;
      if Used(v, p) {
        assert SlotOk(hash, v, pos, p) && PathOk(v, p);
        HalfProbe(hash, v.n, v.inc, v.shift, v.keys[p], p);
        UsedPositive(hash, v, pos, p);
      }
    }
    forall k | k in pos ensures KeyOk(v', pos, k) {
      assert KeyOk(v, pos, k);
    }
  }

  // The first n info bytes can each take one more step.
  ghost predicate Headroom(info: seq<int>, n: int, inc: int) {
    forall p :: 0 <= p < n && p < |info| ==> info[p] + inc <= 0xFF
  }

  // ----- room for one more -----

  ghost function RunKeys<K>(v: Layout<K>, a: int, b: int): set<K>
    requires 0 <= a <= b <= |v.keys|
  {
    set p | a <= p < b :: v.keys[p]
  }

  // Used slots hold different keys, so a run is no longer than the table is full.
  lemma {:induction false} RunLength<K(!new)>(hash: K -> nat, v: Layout<K>, pos: map<K, int>, a: int, b: int)
    requires Inv(hash, v, pos) && 0 <= a <= b <= |v.keys|
    requires forall p :: a <= p < b ==> Used(v, p)
    ensures b - a <= |pos|
  {
    hide Home, Probe, HashBits;
    RunKeysCount(hash, v, pos, a, b);
    var ks := RunKeys(v, a, b);
    assert ks <= pos.Keys by {
      forall k | k in ks ensures k in pos {
        var p :| a <= p < b && v.keys[p] == k;
        assert Used(v, p) && SlotOk(hash, v, pos, p);
      }
    }
    SubsetSize(ks, pos.Keys);
  }

  lemma {:induction false} RunKeysCount<K(!new)>(hash: K -> nat, v: Layout<K>, pos: map<K, int>, a: int, b: int)
    requires Inv(hash, v, pos) && 0 <= a <= b <= |v.keys|
    requires forall p :: a <= p < b ==> Used(v, p)
    ensures |RunKeys(v, a, b)| == b - a
    decreases b
  {
    hide Home, Probe, HashBits;
    if a < b {
      RunKeysCount(hash, v, pos, a, b - 1);
      var k := v.keys[b - 1];
      assert RunKeys(v, a, b) == RunKeys(v, a, b - 1) + {k};
      assert k !in RunKeys(v, a, b - 1) by {
        forall p | a <= p < b - 1 ensures v.keys[p] != k {
          assert Used(v, p) && SlotOk(hash, v, pos, p) && Used(v, b - 1) && SlotOk(hash, v, pos, b - 1);
        }
      }
    }
  }

  lemma {:induction false} SubsetSize<T>(a: set<T>, b: set<T>)
    requires a <= b
    ensures |a| <= |b|
  {
    if a != {} {
      var x :| x in a;
      SubsetSize(a - {x}, b - {x});
    }
  }

  /** Below the load limit, a run starting at the home of a key ends before the sentinel:
      the search for an empty slot never leaves the table. */
  lemma RoomFor<K(!new)>(hash: K -> nat, v: Layout<K>, pos: map<K, int>, k: K, idx: int)
    requires Inv(hash, v, pos) && |pos| < CalcMax(v.n)
    requires Home(hash, v.n, k) <= idx <= |v.keys|
    requires forall p :: Home(hash, v.n, k) <= p < idx ==> Used(v, p)
    ensures idx < |v.keys|
  {
    hide Home, Probe, HashBits;
    ProbeRange(hash, v.n, v.inc, v.shift, k, 0);
    RunLength(hash, v, pos, Home(hash, v.n, k), idx);
    if idx > Home(hash, v.n, k) && CalcMax(v.n) >= 0xFF {
      var q := idx - 1;
      assert Used(v, q) && SlotOk(hash, v, pos, q);
      var h := Home(hash, v.n, v.keys[q]);
      ProbeRange(hash, v.n, v.inc, v.shift, v.keys[q], q);
      MulMono(2, v.inc, q - h);
    }
  }

  lemma CalcMaxBounds(n: nat)
    ensures CalcMax(n) <= n && 80 * n - 8000 < 100 * CalcMax(n) <= 80 * n
    ensures n <= SIZE_MAX / 100 ==> 80 * n - 100 < 100 * CalcMax(n)
    ensures n >= 8 ==> CalcMax(n) >= 6 && CalcMax(2 * n) > CalcMax(n)
  {}

  // Every slot a search passed on its way to an insertion point is used.
  lemma {:induction false} PassedUsed<K(!new)>(hash: K -> nat, v: Layout<K>, pos: map<K, int>, k: K, ins: int,
                                               x: int, p: int)
    requires Inv(hash, v, pos) && InsertionPoint(hash, v, k, ins, x) && ins <= |v.keys|
    requires Home(hash, v.n, k) <= p < ins
    ensures Used(v, p) && v.info[p] >= Probe(hash, v.n, v.inc, v.shift, k, p)
    decreases ins - p
  {
    hide Home, Probe, HashBits, SlotOk, KeyOk;
    ProbeRange(hash, v.n, v.inc, v.shift, k, p);
    ProbeStep(hash, v.n, v.inc, v.shift, k, p);
    MulMono(0, p - Home(hash, v.n, k), v.inc);
    if p + 1 < ins {
      PassedUsed(hash, v, pos, k, ins, x, p + 1);
      assert PathOk(v, p + 1);
    }
  }
}
