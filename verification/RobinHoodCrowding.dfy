// When the info bytes of gold/robin_hood.hpp's Table run out, told from the keys alone:
// some window of homes holds too many of them.
module RobinHoodCrowding {
  import opened Powers
  import opened RobinHoodLayout

  // The keys with a home from a to b.
  ghost function Window<K(!new)>(hash: K -> nat, n: pos, ks: set<K>, a: int, b: int): set<K> {
    set k | k in ks && a <= Home(hash, n, k) <= b
  }

  ghost predicate CrowdedAt<K(!new)>(hash: K -> nat, n: pos, ks: set<K>, a: int, b: int) {
    a <= b && |Window(hash, n, ks, a, b)| >= b - a + 127
  }

  /** Some window of homes holds at least 127 keys more than its width allows for. */
  ghost predicate Crowded<K(!new)>(hash: K -> nat, n: pos, ks: set<K>) {
    exists a, b :: CrowdedAt(hash, n, ks, a, b)
  }

  lemma CrowdedMono<K(!new)>(hash: K -> nat, n: pos, ks: set<K>, more: set<K>)
    requires ks <= more && Crowded(hash, n, ks)
    ensures Crowded(hash, n, more)
  {
    hide Home;
    var a, b :| CrowdedAt(hash, n, ks, a, b);
    SubsetSize(Window(hash, n, ks, a, b), Window(hash, n, more, a, b));
    assert CrowdedAt(hash, n, more, a, b);
  }

  /** One key less takes at most one from a window. */
  lemma CrowdedWithout<K(!new)>(hash: K -> nat, n: pos, ks: set<K>, k: K, a: int, b: int)
    requires a <= b && |Window(hash, n, ks, a, b)| >= b - a + 128
    ensures Crowded(hash, n, ks - {k})
  {
    hide Home;
    var w := Window(hash, n, ks, a, b);
    assert Window(hash, n, ks - {k}, a, b) == w - {k};
    assert |w - {k}| >= |w| - 1;
    assert CrowdedAt(hash, n, ks - {k}, a, b);
  }

  // Few keys crowd nothing.
  lemma FewNotCrowded<K(!new)>(hash: K -> nat, n: pos, ks: set<K>)
    requires |ks| < 127
    ensures !Crowded(hash, n, ks)
  {
    hide Home;
    if Crowded(hash, n, ks) {
      var a, b :| CrowdedAt(hash, n, ks, a, b);
      SubsetSize(Window(hash, n, ks, a, b), ks);
    }
  }

  // Different keys stand in different slots.
  lemma {:induction false} Pigeon<K(!new)>(w: set<K>, pos: map<K, int>, lo: int, hi: int)
    requires lo <= hi && w <= pos.Keys
    requires forall k :: k in w ==> lo <= pos[k] < hi
    requires forall k, k' :: k in w && k' in w && pos[k] == pos[k'] ==> k == k'
    ensures |w| <= hi - lo
    decreases hi - lo
  {
    if lo == hi {
      assert w == {};
    } else if k :| k in w && pos[k] == hi - 1 {
      Pigeon(w - {k}, pos, lo, hi - 1);
    } else {
      Pigeon(w, pos, lo, hi - 1);
    }
  }

  // In a crowded window some key is far from home.
  lemma CrowdedFar<K(!new)>(hash: K -> nat, v: Layout<K>, pos: map<K, int>, a: int, b: int)
    requires Inv(hash, v, pos) && CrowdedAt(hash, v.n, pos.Keys, a, b)
    ensures exists k :: k in pos && pos[k] - Home(hash, v.n, k) >= 126
  {
    hide Home, Probe, HashBits, PathOk;
    if forall k :: k in pos ==> pos[k] - Home(hash, v.n, k) < 126 {
      var w := Window(hash, v.n, pos.Keys, a, b);
      forall k | k in w ensures a <= pos[k] < b + 126 && v.keys[pos[k]] == k {
        assert KeyOk(v, pos, k) && SlotOk(hash, v, pos, pos[k]);
      }
      Pigeon(w, pos, a, b + 126);
    }
  }

  // Of two probes at one slot, the larger comes from the lower home.
  lemma LargerProbe<K>(hash: K -> nat, n: pos, inc: nat, shift: nat, k: K, k': K, p: int)
    requires Packing(inc, shift) && Probe(hash, n, inc, shift, k', p) >= Probe(hash, n, inc, shift, k, p)
    ensures Home(hash, n, k') <= Home(hash, n, k)
  {
    hide Home, HashBits;
    ProbeRange(hash, n, inc, shift, k, p);
    ProbeRange(hash, n, inc, shift, k', p);
  }

  // Along a run homes do not decrease.
  lemma HomesRise<K(!new)>(hash: K -> nat, v: Layout<K>, pos: map<K, int>, p: int)
    requires Inv(hash, v, pos) && Used(v, p) && v.info[p] >= 2 * v.inc
    ensures p > 0 && Used(v, p - 1) && Home(hash, v.n, v.keys[p - 1]) <= Home(hash, v.n, v.keys[p])
  {
    hide Home, HashBits, Probe, KeyOk;
    assert SlotOk(hash, v, pos, p) && PathOk(v, p);
    assert Used(v, p - 1) && SlotOk(hash, v, pos, p - 1);
    ProbeStep(hash, v.n, v.inc, v.shift, v.keys[p], p - 1);
    LargerProbe(hash, v.n, v.inc, v.shift, v.keys[p], v.keys[p - 1], p - 1);
  }

  // The run a slot belongs to, back to a key at its home.
  lemma {:induction false} RunStart<K(!new)>(hash: K -> nat, v: Layout<K>, pos: map<K, int>, p: int) returns (q: int)
    requires Inv(hash, v, pos) && Used(v, p)
    ensures 0 <= q <= p
    ensures forall s :: q <= s <= p ==> Used(v, s) && q <= Home(hash, v.n, v.keys[s]) <= Home(hash, v.n, v.keys[p])
    decreases p
  {
    hide Home, Probe, HashBits, PathOk, KeyOk;
    assert SlotOk(hash, v, pos, p);
    ProbeRange(hash, v.n, v.inc, v.shift, v.keys[p], p);
    if v.info[p] < 2 * v.inc {
      return p;
    }
    HomesRise(hash, v, pos, p);
    q := RunStart(hash, v, pos, p - 1);
  }

  // A key far from home has a crowded window before it.
  lemma FarCrowded<K(!new)>(hash: K -> nat, v: Layout<K>, pos: map<K, int>, p: int)
    requires Inv(hash, v, pos) && Used(v, p) && p - Home(hash, v.n, v.keys[p]) >= 126
    ensures Crowded(hash, v.n, pos.Keys)
  {
    hide Home, Probe, HashBits, PathOk;
    var q := RunStart(hash, v, pos, p);
    var b := Home(hash, v.n, v.keys[p]);
    RunKeysCount(hash, v, pos, q, p + 1);
    var run, w := RunKeys(v, q, p + 1), Window(hash, v.n, pos.Keys, q, b);
    forall k | k in run ensures k in w {
      var s :| q <= s < p + 1 && v.keys[s] == k;
      assert Used(v, s) && SlotOk(hash, v, pos, s);
    }
    SubsetSize(run, w);
    assert CrowdedAt(hash, v.n, pos.Keys, q, b);
  }

  // A byte without headroom at the narrowest packing is 126 slots from home, and no byte is with a wider one.
  lemma ByteFar<K(!new)>(hash: K -> nat, v: Layout<K>, pos: map<K, int>, p: int)
    requires Inv(hash, v, pos) && Used(v, p)
    ensures p - Home(hash, v.n, v.keys[p]) >= 126 <==> v.inc <= 2 && v.info[p] + v.inc > 0xFF
  {
    hide Home, HashBits, PathOk, KeyOk;
    assert SlotOk(hash, v, pos, p);
    var d := p - Home(hash, v.n, v.keys[p]);
    ProbeRange(hash, v.n, v.inc, v.shift, v.keys[p], p);
    if v.inc >= 4 { MulMono(4, v.inc, d + 1); }
  }

  /** The bytes have run out exactly when the keys are crowded, whatever order they came in. */
  lemma CrowdedIff<K(!new)>(hash: K -> nat, v: Layout<K>, pos: map<K, int>)
    requires Inv(hash, v, pos)
    ensures Crowded(hash, v.n, pos.Keys) <==> v.inc <= 2 && !Headroom(v.info, |v.keys|, v.inc)
  {
    hide Home, Probe, HashBits, PathOk, SlotOk, Crowded;
    if v.inc <= 2 && !Headroom(v.info, |v.keys|, v.inc) {
      var p :| 0 <= p < |v.keys| && p < |v.info| && v.info[p] + v.inc > 0xFF;
      assert Used(v, p);
      ByteFar(hash, v, pos, p);
      FarCrowded(hash, v, pos, p);
    }
    if Crowded(hash, v.n, pos.Keys) { CrowdedByte(hash, v, pos); }
  }

  lemma CrowdedByte<K(!new)>(hash: K -> nat, v: Layout<K>, pos: map<K, int>)
    requires Inv(hash, v, pos) && Crowded(hash, v.n, pos.Keys)
    ensures v.inc <= 2 && !Headroom(v.info, |v.keys|, v.inc)
  {
    hide Home, Probe, HashBits, PathOk, SlotOk;
    var a, b :| CrowdedAt(hash, v.n, pos.Keys, a, b);
    CrowdedFar(hash, v, pos, a, b);
    var k :| k in pos && pos[k] - Home(hash, v.n, k) >= 126;
    assert KeyOk(v, pos, k);
    ByteFar(hash, v, pos, pos[k]);
  }

  // ----- growing -----

  ghost function KeysBefore<K(!new)>(pos: map<K, int>, i: int): set<K> { set k | k in pos && pos[k] < i }

  // All keys but the one in the last slot: those already moved when the last one is.
  ghost function Earlier<K(!new)>(pos: map<K, int>): set<K> {
    set k | k in pos && exists k' :: k' in pos && pos[k] < pos[k']
  }

  lemma EarlierBeforeLast<K(!new)>(pos: map<K, int>, last: K)
    requires last in pos && forall k :: k in pos ==> pos[k] <= pos[last]
    ensures Earlier(pos) == KeysBefore(pos, pos[last])
  {}

  /** The bucket count after doubling for one more key, or 0 for a refusal: the load is too low,
      the keys but the last crowd the double table, or all of them do and doubling again does not help. */
  ghost function Doubled<K(!new)>(hash: K -> nat, n: pos, pos: map<K, int>): nat {
    if 2 * |pos| < CalcMax(n) then 0
    else if !Crowded(hash, 2 * n, pos.Keys) then 2 * n
    else if Crowded(hash, 2 * n, Earlier(pos)) || 2 * |pos| < CalcMax(2 * n) || Crowded(hash, 4 * n, pos.Keys) then 0
    else 4 * n
  }

  // A table of n buckets that holds the keys is never doubled twice in vain.
  lemma DoubledAgain<K(!new)>(hash: K -> nat, n: pos, pos: map<K, int>, pos': map<K, int>)
    requires n >= 8 && |pos| <= CalcMax(n) && 2 * |pos| >= CalcMax(n)
    requires pos'.Keys == pos.Keys && !Crowded(hash, 2 * n, Earlier(pos))
    ensures |pos'| == |pos|
    ensures Doubled(hash, n, pos) ==
            if !Crowded(hash, 2 * n, pos.Keys) then 2 * n else Doubled(hash, 2 * n, pos')
  {
    hide Home, Crowded, Earlier;
    assert |pos'| == |pos'.Keys| == |pos.Keys|;
    assert 2 * |pos| < CalcMax(4 * n);
  }

  lemma EarlierCrowded<K(!new)>(hash: K -> nat, n: pos, pos: map<K, int>)
    requires Crowded(hash, n, Earlier(pos))
    ensures Crowded(hash, n, pos.Keys)
  {
    hide Crowded;
    CrowdedMono(hash, n, Earlier(pos), pos.Keys);
  }

  /** Three ways to tell the outcome of a doubling from the windows of all keys. */
  lemma EarlierWindows<K(!new)>(hash: K -> nat, n: pos, pos: map<K, int>, last: K)
    requires last in pos && forall k :: k in pos ==> k == last || pos[k] < pos[last]
    ensures Earlier(pos) == pos.Keys - {last}
    ensures !Crowded(hash, n, pos.Keys) ==> !Crowded(hash, n, Earlier(pos))
    ensures forall a, b :: a <= b && |Window(hash, n, pos.Keys, a, b)| >= b - a + 128 ==> Crowded(hash, n, Earlier(pos))
  {
    hide Home, Crowded, Window;
    EarlierBeforeLast(pos, last);
    assert Earlier(pos) == pos.Keys - {last};
    if Crowded(hash, n, Earlier(pos)) { EarlierCrowded(hash, n, pos); }
    forall a, b | a <= b && |Window(hash, n, pos.Keys, a, b)| >= b - a + 128 ensures Crowded(hash, n, Earlier(pos)) {
      CrowdedWithout(hash, n, pos.Keys, last, a, b);
    }
  }
}
