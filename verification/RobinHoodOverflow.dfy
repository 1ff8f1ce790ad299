// The overflow that gold/robin_hood.hpp calls impossible to reach, reached: 204 insertions
// succeed, and the next new key is refused while doubling, which loses entries.
module RobinHoodOverflow {
  import opened Powers
  import opened RobinHoodLayout
  import opened RobinHoodCrowding
  import opened RobinHood

  // 102 hashes whose homes are 0 in 256 buckets and 256 in 512, then only homes 255.
  function Clash(k: nat): nat { INITIAL_INC * if k < 102 then 256 else 255 }

  function Upto(n: nat): (s: set<nat>)
    ensures (forall k: nat :: k in s <==> k < n) && |s| == n
  {
    if n == 0 then {} else Upto(n - 1) + {n - 1}
  }

  lemma ClashHome(k: nat)
    ensures Home(Clash, 256, k) == (if k < 102 then 0 else 255)
    ensures Home(Clash, 512, k) == (if k < 102 then 256 else 255)
  {}

  // While the table fills, no window is crowded.
  lemma Calm(i: nat, n: pos)
    requires i <= 126 || (i <= 204 && n == 256)
    ensures !Crowded(Clash, n, Upto(i))
  {
    hide Home;
    if i <= 126 {
      FewNotCrowded(Clash, n, Upto(i));
    } else if Crowded(Clash, n, Upto(i)) {
      var a, b :| CrowdedAt(Clash, n, Upto(i), a, b);
      CalmWindow(i, a, b);
    }
  }

  lemma CalmWindow(i: nat, a: int, b: int)
    requires i <= 204 && a <= b
    ensures |Window(Clash, 256, Upto(i), a, b)| < b - a + 127
  {
    hide Home, Clash, Upto;
    var w := Window(Clash, 256, Upto(i), a, b);
    forall k: nat ensures Home(Clash, 256, k) == if k < 102 then 0 else 255 { ClashHome(k); }
    if a <= 0 && 255 <= b {
      SubsetSize(w, Upto(i));
    } else if 255 <= b {
      SubsetSize(w, Upto(204) - Upto(102));
      assert Upto(204) - Upto(102) + Upto(102) == Upto(204);
    } else {
      SubsetSize(w, Upto(102));
    }
  }

  /** Twice the buckets would bring the two groups next to each other: 204 keys in a window of two homes. */
  lemma Clashing(pos: map<nat, int>)
    requires pos.Keys == Upto(204) && forall k, k' :: k in pos && k' in pos && pos[k] == pos[k'] ==> k == k'
    ensures Crowded(Clash, 512, Earlier(pos)) && Doubled(Clash, 256, pos) == 0
  {
    hide Home, Crowded, Earlier, Clash, Upto;
    forall k | k in pos.Keys ensures k in Window(Clash, 512, pos.Keys, 255, 256) { ClashHome(k); }
    assert Window(Clash, 512, pos.Keys, 255, 256) == pos.Keys;
    var last := LastKey(pos.Keys, pos);
    EarlierWindows(Clash, 512, pos, last);
    EarlierCrowded(Clash, 512, pos);
  }

  lemma {:induction false} LastKey<K(!new)>(ks: set<K>, pos: map<K, int>) returns (last: K)
    requires ks != {} && ks <= pos.Keys
    ensures last in ks && forall k :: k in ks ==> pos[k] <= pos[last]
    decreases |ks|
  {
    var first :| first in ks;
    last := first;
    if ks - {first} != {} {
      var other := LastKey(ks - {first}, pos);
      if pos[other] > pos[first] { last := other; }
    }
    forall k | k in ks ensures pos[k] <= pos[last] {
      assert k == first || k in ks - {first};
    }
  }

  // The buckets a table of i keys has come to.
  function SizeFor(i: nat): pos {
    if i <= 6 then 8 else if i <= 12 then 16 else if i <= 25 then 32 else if i <= 51 then 64
    else if i <= 102 then 128 else 256
  }

  lemma NextSize(t: Table<nat, bool>, i: nat)
    requires t.Valid() && t.Tight() && t.hash == Clash && t.pos.Keys == Upto(i) && i < 204
    requires if i == 0 then t.mask == 0 else t.mask + 1 == SizeFor(i)
    ensures t.Grown() == SizeFor(i + 1)
  {
    hide Home, Probe, HashBits, Inv, Crowded, Headroom, Earlier;
    assert |t.pos| == |t.pos.Keys|;
    if t.mask != 0 {
      t.JamIff();
      Calm(i, t.mask + 1);
      if i <= 102 { Calm(i, 2 * (t.mask + 1)); }
    }
  }

  ghost predicate Filled(t: Table<nat, bool>, i: nat)
    reads t, t.nodes, t.info
  {
    && t.Valid() && t.Tight() && t.hash == Clash && t.Contents().Keys == Upto(i)
    && (if i == 0 then t.mask == 0 else t.mask + 1 == SizeFor(i))
  }

  method Next(t: Table<nat, bool>, i: nat) returns (ok: bool)
    requires Filled(t, i) && i < 204
    modifies t, t.nodes, t.info
    ensures ok && Filled(t, i + 1)
    ensures (t.nodes == old(t.nodes) || fresh(t.nodes)) && (t.info == old(t.info) || fresh(t.info))
  {
    hide Home, Probe, HashBits, Inv, Crowded, Headroom, Earlier, Doubled, CalcMax;
    t.ContentsSize();
    NextSize(t, i);
    var inserted, at;
    ok, inserted, at := t.Insert(i, true);
    assert Upto(i + 1) == Upto(i) + {i};
  }

  /** 204 insertions into an empty table, none refused; the next one would be. */
  method Fill() returns (t: Table<nat, bool>, ok: bool)
    ensures ok && fresh(t) && fresh(t.nodes) && fresh(t.info)
    ensures t.Valid() && t.Contents().Keys == Upto(204) && t.mask + 1 == 256 && t.Grown() == 0 && t.Loses()
  {
    hide Home, Probe, HashBits, Inv, Crowded, Headroom, Earlier, Doubled, CalcMax, Upto, Clash;
    t := new Table<nat, bool>(Clash);
    ok := true;
    assert t.Contents().Keys == Upto(0);
    for i := 0 to 204
      invariant ok && fresh(t) && fresh(t.nodes) && fresh(t.info) && Filled(t, i)
    {
      ok := Next(t, i);
    }
    t.ContentsSize();
    FullRefuses(t);
  }

  lemma FullRefuses(t: Table<nat, bool>)
    requires t.Allocated() && t.hash == Clash && t.mask + 1 == 256 && t.pos.Keys == Upto(204)
    ensures t.Grown() == 0 && t.Loses()
  {
    hide Home, Probe, HashBits, Inv, Crowded, Headroom, Earlier, Doubled, Upto, Clash;
    assert |t.pos| == |t.pos.Keys|;
    assert CalcMax(256) == 204;
    forall k, k' | k in t.pos && k' in t.pos && t.pos[k] == t.pos[k'] ensures k == k' { t.OneKeyPerSlot(k); }
    Clashing(t.pos);
  }

  /** The next key, whatever it is, is refused, and entries are lost. */
  method Overflow(key: nat, val: bool) returns (t: Table<nat, bool>, ok: bool)
    requires key >= 204
    ensures !ok && t.Valid() && |t.Contents()| < 204
  {
    hide Home, Probe, HashBits, Inv, Crowded, Headroom, Earlier, Doubled, CalcMax, Upto;
    t, ok := Fill();
    t.ContentsSize();
    var inserted, at;
    ok, inserted, at := t.Insert(key, val);
  }
}
